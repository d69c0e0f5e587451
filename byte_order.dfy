/** Byte-order codec of the SELAFIN reader.

    SELAFIN files are big-endian on disk and the reader runs on a little-endian
    host: fread copies the disk bytes to memory unchanged, and int_swap /
    float_swap reverse the four memory bytes of every scalar afterwards.
    Integers are kept as their values (u32); floats are kept as their four
    memory bytes, never as numbers. */
module ByteOrder {

  newtype byte = x: int | 0 <= x < 0x100
  newtype u32 = x: int | 0 <= x < 0x1_0000_0000

  /** Four bytes as they lie in memory, lowest address first. */
  type Quad = s: seq<byte> | |s| == 4 witness [0, 0, 0, 0]

  /** A single-precision float, as the four bytes that hold it in memory. */
  type Float32 = Quad

  const ZeroQuad: Quad := [0, 0, 0, 0]

  /** The value a little-endian host reads from the memory bytes q. */
  function LeValue(q: Quad): u32 {
    (q[0] as int + 0x100 * (q[1] as int + 0x100 * (q[2] as int + 0x100 * q[3] as int))) as u32
  }

  /** The memory bytes that hold x on a little-endian host. */
  function LeBytes(x: u32): Quad {
    var n := x as int;
    [(n % 0x100) as byte, (n / 0x100 % 0x100) as byte, (n / 0x1_0000 % 0x100) as byte, (n / 0x100_0000) as byte]
  }

  /** The host reads back the value whose memory bytes were stored. */
  lemma {:induction false} LeValueOfBytes(x: u32)
    ensures LeValue(LeBytes(x)) == x
  {
    var n := x as int;
    var a := n / 0x100;
    var b := a / 0x100;
    var c := b / 0x100;
    assert n == n % 0x100 + 0x100 * a;
    assert a == a % 0x100 + 0x100 * b;
    assert b == b % 0x100 + 0x100 * c;
    assert n / 0x1_0000 == b && n / 0x100_0000 == c;
  }

  /** Reading the memory bytes back gives the same bytes: the host
      representation of a 32-bit value is unique. */
  lemma {:induction false} LeBytesOfValue(q: Quad)
    ensures LeBytes(LeValue(q)) == q
  {
    var n := LeValue(q) as int;
    var r2 := q[2] as int + 0x100 * q[3] as int;
    var r1 := q[1] as int + 0x100 * r2;
    assert n == q[0] as int + 0x100 * r1;
    assert n % 0x100 == q[0] as int && n / 0x100 == r1;
    assert r1 % 0x100 == q[1] as int && r1 / 0x100 == r2;
    assert r2 % 0x100 == q[2] as int && r2 / 0x100 == q[3] as int;
  }

  /** Equal values have equal memory bytes. */
  lemma LeValueInjective(p: Quad, q: Quad)
    ensures LeValue(p) == LeValue(q) <==> p == q
  {
    LeBytesOfValue(p);
    LeBytesOfValue(q);
  }

  function Reverse(q: Quad): Quad {
    [q[3], q[2], q[1], q[0]]
  }

  /** int_swap: the result's memory byte k is the input's memory byte 3 - k. */
  function IntSwap(x: u32): (r: u32)
    ensures forall k :: 0 <= k < 4 ==> LeBytes(r)[k] == LeBytes(x)[3 - k]
  {
    var q := Reverse(LeBytes(x));
    LeBytesOfValue(q);
    LeValue(q)
  }

  /** float_swap: the result's memory byte k is the input's memory byte 3 - k. */
  function FloatSwap(f: Float32): (r: Float32)
    ensures forall k :: 0 <= k < 4 ==> r[k] == f[3 - k]
  {
    Reverse(f)
  }

  /** Swapping an integer twice gives back its bit pattern. */
  lemma IntSwapInvolutive(x: u32)
    ensures IntSwap(IntSwap(x)) == x
  {
    var y := IntSwap(IntSwap(x));
    assert LeBytes(y) == LeBytes(x);
    LeValueOfBytes(x);
    LeValueOfBytes(y);
  }

  /** Swapping a float twice gives back its bit pattern. */
  lemma FloatSwapInvolutive(f: Float32)
    ensures FloatSwap(FloatSwap(f)) == f
  {
  }

  /** The value of four bytes stored most significant first, as on disk. */
  function BeValue(q: Quad): u32 {
    LeValue(Reverse(q))
  }

  /** The four disk bytes that store x most significant first. */
  function BeBytes(x: u32): Quad {
    Reverse(LeBytes(x))
  }

  /** A big-endian reader gets back the value a big-endian writer stored. */
  lemma BeValueOfBytes(x: u32)
    ensures BeValue(BeBytes(x)) == x
  {
    LeValueOfBytes(x);
    assert Reverse(Reverse(LeBytes(x))) == LeBytes(x);
  }

  /** An integer read raw from disk and then swapped is the big-endian value of
      its four disk bytes. */
  lemma {:induction false} SwapOfRawIsBigEndian(q: Quad)
    ensures IntSwap(LeValue(q)) == BeValue(q)
  {
    LeBytesOfValue(q);
    LeBytesOfValue(Reverse(q));
  }

  // ---------------------------------------------------------------------------
  // Buffers of scalars

  function Zeros(n: nat): (r: seq<byte>)
    ensures |r| == n && forall i :: 0 <= i < n ==> r[i] == 0
  {
    if n == 0 then [] else Zeros(n - 1) + [0]
  }

  /** The contents of a buffer that held prior after fread has copied the bytes
      got to its start: the bytes not reached keep their old contents. */
  function Overlay(prior: seq<byte>, got: seq<byte>): (r: seq<byte>)
    requires |got| <= |prior|
    ensures |r| == |prior|
  {
    seq(|prior|, i requires 0 <= i < |prior| => if i < |got| then got[i] else prior[i])
  }

  /** A buffer overwritten by as many bytes as it holds holds those bytes. */
  lemma OverlayFull(prior: seq<byte>, got: seq<byte>)
    requires |got| == |prior|
    ensures Overlay(prior, got) == got
  {
    assert forall i :: 0 <= i < |got| ==> Overlay(prior, got)[i] == got[i];
  }

  /** The memory bytes of a buffer of four-byte scalars. */
  function Flatten(qs: seq<Quad>): (r: seq<byte>)
    ensures |r| == 4 * |qs|
  {
    if qs == [] then [] else qs[0] + Flatten(qs[1..])
  }

  lemma {:induction false} FlattenAt(qs: seq<Quad>, i: nat)
    requires i < |qs|
    ensures Flatten(qs)[4 * i .. 4 * i + 4] == qs[i]
  {
    if i > 0 {
      FlattenAt(qs[1..], i - 1);
      assert Flatten(qs) == qs[0] + Flatten(qs[1..]);
    }
  }

  /** A buffer of memory bytes viewed as consecutive four-byte scalars. */
  function Quads(m: seq<byte>): (r: seq<Quad>)
    requires |m| % 4 == 0
    ensures |r| == |m| / 4
    ensures forall i :: 0 <= i < |r| ==> r[i] == m[4 * i .. 4 * i + 4]
  {
    seq(|m| / 4, i requires 0 <= i < |m| / 4 => m[4 * i .. 4 * i + 4])
  }

  /** Grouping the bytes of a flattened buffer gives back its scalars. */
  lemma {:induction false} QuadsOfFlatten(qs: seq<Quad>)
    ensures Quads(Flatten(qs)) == qs
  {
    var r := Quads(Flatten(qs));
    forall i | 0 <= i < |qs|
      ensures r[i] == qs[i]
    {
      FlattenAt(qs, i);
    }
  }

  /** The integers a little-endian host reads from a buffer of memory bytes. */
  function Words(m: seq<byte>): (r: seq<u32>)
    requires |m| % 4 == 0
    ensures |r| == |m| / 4
    ensures forall i :: 0 <= i < |r| ==> r[i] == LeValue(m[4 * i .. 4 * i + 4])
  {
    seq(|m| / 4, i requires 0 <= i < |m| / 4 => LeValue(m[4 * i .. 4 * i + 4]))
  }

  /** The memory bytes of a buffer of integers. */
  function WordBytes(ws: seq<u32>): (r: seq<byte>)
    ensures |r| == 4 * |ws|
  {
    Flatten(seq(|ws|, i requires 0 <= i < |ws| => LeBytes(ws[i])))
  }

  lemma {:induction false} WordsOfWordBytes(ws: seq<u32>)
    ensures Words(WordBytes(ws)) == ws
  {
    var qs := seq(|ws|, i requires 0 <= i < |ws| => LeBytes(ws[i]));
    forall i | 0 <= i < |ws|
      ensures Words(WordBytes(ws))[i] == ws[i]
    {
      FlattenAt(qs, i);
      LeValueOfBytes(ws[i]);
    }
  }

  /** The loop `a[i] = int_swap(a[i])` over a whole buffer. */
  function SwapWords(ws: seq<u32>): (r: seq<u32>)
    ensures |r| == |ws|
    ensures forall i :: 0 <= i < |ws| ==> r[i] == IntSwap(ws[i])
  {
    seq(|ws|, i requires 0 <= i < |ws| => IntSwap(ws[i]))
  }

  /** The loop `a[i] = float_swap(a[i])` over a whole buffer. */
  function SwapFloats(fs: seq<Float32>): (r: seq<Float32>)
    ensures |r| == |fs|
    ensures forall i :: 0 <= i < |fs| ==> r[i] == FloatSwap(fs[i])
  {
    seq(|fs|, i requires 0 <= i < |fs| => FloatSwap(fs[i]))
  }

  /** How a big-endian writer stores integers on disk. */
  function DiskWords(ws: seq<u32>): (r: seq<byte>)
    ensures |r| == 4 * |ws|
  {
    Flatten(seq(|ws|, i requires 0 <= i < |ws| => BeBytes(ws[i])))
  }

  /** How a big-endian writer stores floats on disk. */
  function DiskFloats(fs: seq<Float32>): (r: seq<byte>)
    ensures |r| == 4 * |fs|
  {
    Flatten(SwapFloats(fs))
  }

  /** Reading big-endian integers raw and swapping each one decodes them. */
  lemma {:induction false} DecodeDiskWords(ws: seq<u32>)
    ensures SwapWords(Words(DiskWords(ws))) == ws
  {
    var qs := seq(|ws|, i requires 0 <= i < |ws| => BeBytes(ws[i]));
    forall i | 0 <= i < |ws|
      ensures SwapWords(Words(DiskWords(ws)))[i] == ws[i]
    {
      FlattenAt(qs, i);
      SwapOfRawIsBigEndian(BeBytes(ws[i]));
      BeValueOfBytes(ws[i]);
    }
  }

  /** Reading big-endian floats raw and swapping each one decodes them. */
  lemma {:induction false} DecodeDiskFloats(fs: seq<Float32>)
    ensures SwapFloats(Quads(DiskFloats(fs))) == fs
  {
    QuadsOfFlatten(SwapFloats(fs));
    forall i | 0 <= i < |fs|
      ensures SwapFloats(Quads(DiskFloats(fs)))[i] == fs[i]
    {
      FloatSwapInvolutive(fs[i]);
    }
  }
}
