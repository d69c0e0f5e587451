/** The file stream and the Fortran record framer of the SELAFIN reader.

    A Fortran sequential-unformatted record is a four-byte length marker, the
    payload and the same marker again. fortran_read takes the payload length
    from its caller (item size times item count) and uses the markers only to
    check that they agree. */
module Framing {
  import opened ByteOrder

  /** The bytes fread obtains for a request of n bytes at position p of s:
      the n bytes when the file has them, the rest of the file otherwise. */
  function Avail(s: seq<byte>, p: nat, n: nat): (r: seq<byte>)
    ensures |r| <= n
    ensures p <= |s| ==> p + |r| <= |s|
    ensures p >= |s| ==> r == []
  {
    if p >= |s| then [] else if p + n <= |s| then s[p .. p + n] else s[p..]
  }

  /** What fread obtains from inside the file is the file's own bytes from p
      on: all n of them when the file holds them, the rest of the file
      otherwise. */
  lemma AvailIsSlice(s: seq<byte>, p: nat, n: nat)
    requires p <= |s|
    ensures |Avail(s, p, n)| == if p + n <= |s| then n else |s| - p
    ensures Avail(s, p, n) == s[p .. p + |Avail(s, p, n)|]
  {
  }

  /** An open FILE*: the bytes of the file and the position of the cursor. */
  class Stream {
    const contents: seq<byte>
    var pos: nat

    constructor (contents: seq<byte>)
      ensures this.contents == contents && pos == 0
    {
      this.contents := contents;
      pos := 0;
    }

    /** fseeko(file, offset, SEEK_SET): a negative offset is refused and leaves
        the cursor where it was; any other offset is taken, beyond the end of
        the file too. */
    method Seek(offset: int) returns (ok: bool)
      modifies this
      ensures ok <==> offset >= 0
      ensures pos == if ok then offset else old(pos)
    {
      ok := offset >= 0;
      if ok {
        pos := offset;
      }
    }

    /** fread of n bytes at the cursor, which moves past what was read. */
    method Read(n: nat) returns (got: seq<byte>)
      modifies this
      ensures got == Avail(contents, old(pos), n)
      ensures pos == old(pos) + |got|
    {
      got := Avail(contents, pos, n);
      pos := pos + |got|;
    }
  }

  /** The value of a marker variable initialised to 0 after fread has copied
      the bytes got into it. */
  function MarkerValue(got: seq<byte>): u32
    requires |got| <= 4
  {
    LeValue(Marker(got))
  }

  /** The bytes of a marker variable initialised to 0 after fread has copied
      the bytes got into it. */
  function Marker(got: seq<byte>): Quad
    requires |got| <= 4
  {
    Overlay(ZeroQuad, got)
  }

  /** Two marker variables hold the same value exactly when they hold the
      same bytes. */
  lemma MarkerValuesDiffer(a: seq<byte>, b: seq<byte>)
    requires |a| <= 4 && |b| <= 4
    ensures MarkerValue(a) != MarkerValue(b) <==> Marker(a) != Marker(b)
  {
    LeValueInjective(Marker(a), Marker(b));
  }

  /** What one fortran_read call returns, and where it leaves the cursor. */
  datatype Frame = Frame(rc: int, payload: seq<byte>, next: nat)

  lemma {:induction false} MulAtLeast(c: nat, k: nat)
    requires k >= 1
    ensures c * k >= c
  {
    if k > 1 {
      MulAtLeast(c, k - 1);
      assert c * k == c * (k - 1) + c;
    }
  }

  /** Euclidean division has one quotient. */
  lemma DivUnique(x: int, c: int, q: int, r: int)
    requires c > 0 && x == c * q + r && 0 <= r < c
    ensures x / c == q
  {
    var q', r' := x / c, x % c;
    assert x == c * q' + r';
    if q < q' {
      MulAtLeast(c, q' - q);
    } else if q' < q {
      MulAtLeast(c, q - q');
    }
  }

  lemma MulDiv(c: nat, n: nat)
    requires c > 0
    ensures c * n / c == n
  {
    DivUnique(c * n, c, n, 0);
  }

  /** fortran_read(buffer, csize, num, file) with the cursor at pos: the start
      marker, csize * num payload bytes, the end marker; -1 when the markers
      differ, otherwise the number of whole items read. */
  function FortranRecord(s: seq<byte>, pos: nat, csize: nat, num: nat): (f: Frame)
    requires csize > 0
    ensures |f.payload| <= csize * num
    ensures f.rc == -1 || f.rc == |f.payload| / csize
    ensures pos <= |s| ==> pos <= f.next <= |s|
    ensures pos >= |s| ==> f == Frame(0, [], pos)
  {
    var start := Avail(s, pos, 4);
    var p1 := pos + |start|;
    var body := Avail(s, p1, csize * num);
    var p2 := p1 + |body|;
    var end := Avail(s, p2, 4);
    Frame(if Marker(start) != Marker(end) then -1 else |body| / csize, body, p2 + |end|)
  }

  /** When the file holds the whole record, fortran_read returns its payload
      and leaves the cursor after its end marker; it returns -1 exactly when
      the two markers differ and the item count otherwise. */
  lemma {:induction false} CompleteRecord(s: seq<byte>, pos: nat, csize: nat, num: nat)
    requires csize > 0 && pos + 8 + csize * num <= |s|
    ensures var f := FortranRecord(s, pos, csize, num);
      && f.payload == s[pos + 4 .. pos + 4 + csize * num]
      && f.next == pos + 8 + csize * num
      && (f.rc == -1 <==> s[pos .. pos + 4] != s[pos + 4 + csize * num .. pos + 8 + csize * num])
      && (f.rc != -1 ==> f.rc == num)
  {
    var start := Avail(s, pos, 4);
    var end := Avail(s, pos + 4 + csize * num, 4);
    OverlayFull(ZeroQuad, start);
    OverlayFull(ZeroQuad, end);
    MulDiv(csize, num);
  }

  /** A whole item count means a whole payload. */
  lemma {:induction false} FullCountFullPayload(s: seq<byte>, pos: nat, csize: nat, num: nat)
    requires csize > 0 && FortranRecord(s, pos, csize, num).rc == num
    ensures |FortranRecord(s, pos, csize, num).payload| == csize * num
  {
    var p := FortranRecord(s, pos, csize, num).payload;
    assert |p| == csize * (|p| / csize) + |p| % csize;
  }

  /** fortran_read on the stream. */
  method FortranRead(file: Stream, csize: nat, num: nat) returns (rc: int, payload: seq<byte>)
    requires csize > 0
    modifies file
    ensures Frame(rc, payload, file.pos) == FortranRecord(file.contents, old(file.pos), csize, num)
  {
    var start := file.Read(4);
    payload := file.Read(csize * num);
    var end := file.Read(4);
    var counter := |payload| / csize;
    MarkerValuesDiffer(start, end);
    if MarkerValue(start) != MarkerValue(end) {
      rc := -1;
    } else {
      rc := counter;
    }
  }

  // ---------------------------------------------------------------------------
  // Writing records, to state what the reader makes of them

  /** The record a Fortran writer produces for payload p. */
  function Framed(p: seq<byte>): (r: seq<byte>)
    requires |p| < 0x1_0000_0000
    ensures |r| == |p| + 8
  {
    BeBytes(|p| as u32) + p + BeBytes(|p| as u32)
  }

  /** The file s holds the record of payload p at position pos. */
  predicate FramedAt(s: seq<byte>, pos: nat, p: seq<byte>) {
    |p| < 0x1_0000_0000 && pos + |p| + 8 <= |s| && s[pos .. pos + |p| + 8] == Framed(p)
  }

  /** Reading a well-formed record returns its payload and its item count and
      leaves the cursor just after it. */
  lemma {:induction false} ReadFramed(s: seq<byte>, pos: nat, p: seq<byte>, csize: nat, num: nat)
    requires csize > 0 && csize * num == |p| && FramedAt(s, pos, p)
    ensures FortranRecord(s, pos, csize, num) == Frame(num, p, pos + |p| + 8)
  {
    CompleteRecord(s, pos, csize, num);
    var r := s[pos .. pos + |p| + 8];
    assert r[4 .. 4 + |p|] == p;
    assert r[..4] == r[4 + |p| ..];
    SliceOfSlice(s, pos, pos + |p| + 8, 4, 4 + |p|);
    SliceOfSlice(s, pos, pos + |p| + 8, 0, 4);
    SliceOfSlice(s, pos, pos + |p| + 8, 4 + |p|, 8 + |p|);
  }

  lemma SliceOfSlice(s: seq<byte>, a: nat, b: nat, c: nat, d: nat)
    requires a <= b <= |s| && c <= d <= b - a
    ensures s[a .. b][c .. d] == s[a + c .. a + d]
  {
    assert forall i :: 0 <= i < d - c ==> s[a .. b][c .. d][i] == s[a + c + i];
  }

  /** A record whose two markers differ is refused, whatever its payload. */
  lemma MismatchRefused(s: seq<byte>, pos: nat, csize: nat, num: nat)
    requires csize > 0 && pos + 8 + csize * num <= |s|
    requires s[pos .. pos + 4] != s[pos + 4 + csize * num .. pos + 8 + csize * num]
    ensures FortranRecord(s, pos, csize, num).rc == -1
  {
    CompleteRecord(s, pos, csize, num);
  }
}
