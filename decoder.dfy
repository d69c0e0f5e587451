/** What the SELAFIN reader of telemac-loader.c computes, as functions of the
    file's bytes and of the handle's fields before each call.

    The methods of Loader.ResFile are proved to produce exactly these results;
    the lemmas here and in WellFormed state what the results mean. */
module Decoder {
  import opened ByteOrder
  import opened FloatOrder
  import opened Records
  import opened Framing

  datatype Option<T> = None | Some(value: T)

  const U32Limit := 0x1_0000_0000

  /** An int converted to uint32_t, as in the comparison of a fortran_read
      result with an unsigned count. */
  function Unsigned(v: int): (r: nat)
    ensures r < U32Limit
    ensures 0 <= v < U32Limit ==> r == v
  {
    v % U32Limit
  }

  /** nbv_1 + nbv_2, added in uint32_t. */
  function VarCount(h: Header): (n: nat)
    ensures n < U32Limit
    ensures h.nbv1 as int + h.nbv2 as int < U32Limit ==> n == h.nbv1 as int + h.nbv2 as int
  {
    (h.nbv1 as int + h.nbv2 as int) % U32Limit
  }

  // Products and quotients of two variables are written as the recursive
  // functions Times and Quotient, which the verifier unfolds one step at a
  // time; TimesIsProduct and QuotientIsDiv equate them with * and /. This keeps
  // nonlinear arithmetic out of the proofs about the reader's state.

  /** a * b. */
  function Times(a: nat, b: nat): nat {
    if b == 0 then 0 else Times(a, b - 1) + a
  }

  /** a / b, rounded down. */
  function Quotient(a: nat, b: nat): nat
    requires b > 0
    decreases a
  {
    if a < b then 0 else 1 + Quotient(a - b, b)
  }

  lemma {:induction false} TimesIsProduct(a: nat, b: nat)
    ensures Times(a, b) == a * b
  {
    if b > 0 {
      TimesIsProduct(a, b - 1);
      assert a * b == a * (b - 1) + a;
    }
  }

  lemma {:induction false} QuotientIsDiv(a: nat, b: nat)
    requires b > 0
    ensures Quotient(a, b) == a / b
    decreases a
  {
    if a >= b {
      QuotientIsDiv(a - b, b);
      var q, r := (a - b) / b, (a - b) % b;
      DivUnique(a, b, q + 1, r);
    } else {
      DivUnique(a, b, 0, a);
    }
  }

  /** nelem * ndp, multiplied in uint32_t: the number of IKLE entries. */
  function IkleCount(h: Header): (n: nat)
    ensures n < U32Limit
  {
    Times(h.nelem as nat, h.ndp as nat) % U32Limit
  }

  /** Bytes of one timestep: the timestamp record (two markers and one float)
      and, for every variable, a record of npoin floats. */
  function DataSize(h: Header): (d: nat)
    ensures d >= 12
  {
    8 + 4 + Times(VarCount(h), 4 * h.npoin as nat + 8)
  }

  /** The product nelem * ndp counts the IKLE entries unless it overflows
      uint32_t, and a timestep is 12 + (nbv_1 + nbv_2) * (4 * npoin + 8) bytes. */
  lemma CountsAsProducts(h: Header)
    ensures h.nelem as int * h.ndp as int < U32Limit ==> IkleCount(h) == h.nelem as int * h.ndp as int
    ensures DataSize(h) == 12 + VarCount(h) * (4 * h.npoin as int + 8)
  {
    TimesIsProduct(h.nelem as nat, h.ndp as nat);
    TimesIsProduct(VarCount(h), 4 * h.npoin as nat + 8);
  }

  // ---------------------------------------------------------------------------
  // Header

  /** A variable name: a zeroed 32-byte buffer, the bytes read copied to its
      start, and its last byte set to NUL. */
  function NameBuffer(got: seq<byte>): (r: seq<byte>)
    requires |got| <= NameSize
    ensures |r| == NameSize && r[NameSize - 1] == 0
  {
    Overlay(Zeros(NameSize), got)[NameSize - 1 := 0]
  }

  datatype Names = Names(names: seq<seq<byte>>, next: nat)

  /** The loop over the variable names: count records of 32 bytes read one
      after the other from pos, their fortran_read results ignored. */
  function ReadNames(s: seq<byte>, pos: nat, count: nat): (r: Names)
    ensures |r.names| == count
    ensures forall i :: 0 <= i < count ==> |r.names[i]| == NameSize && r.names[i][NameSize - 1] == 0
    ensures pos <= |s| ==> pos <= r.next <= |s|
  {
    if count == 0 then Names([], pos)
    else
      var before := ReadNames(s, pos, count - 1);
      var f := FortranRecord(s, before.next, NameSize, 1);
      Names(before.names + [NameBuffer(f.payload)], f.next)
  }

  /** Return code of get_telemac_header, the header fields afterwards and the
      cursor position. */
  datatype HeaderRead = HeaderRead(rc: int, hdr: Header, next: nat)

  /** get_telemac_header on file s, with h0 the header fields beforehand: the
      records one after the other, the first failing one ending the read. The
      fields written before a failing record keep their new values. */
  function ReadHeader(s: seq<byte>, h0: Header): (o: HeaderRead)
    requires |h0.iparam| == IparamCount
    ensures |o.hdr.iparam| == IparamCount
    ensures o.next <= |s|
    ensures o.rc in {0, -1, -2, -4, -5, -6}
    ensures o.rc == 0 ==>
      && o.hdr.format == Serafin
      && |o.hdr.title| < TitleBufSize - 1
      && forall i :: 0 <= i < |o.hdr.title| ==> o.hdr.title[i] != 0
  {
    var a := ReadTitle(s, h0);
    if a.rc != 0 then a else AfterTitle(s, a.next, a.hdr)
  }

  /** The header records that follow R1. */
  function AfterTitle(s: seq<byte>, pos: nat, h: Header): (o: HeaderRead)
    requires pos <= |s| && |h.iparam| == IparamCount
    ensures |o.hdr.iparam| == IparamCount
    ensures o.hdr.title == h.title && o.hdr.format == h.format
    ensures o.next <= |s|
    ensures o.rc in {0, -2, -4, -5, -6}
  {
    var b := ReadCounts(s, pos, h);
    if b.rc != 0 then b
    else
      var n := ReadVarNames(s, b.next, b.hdr);
      AfterNames(s, n.next, n.hdr)
  }

  /** The header records that follow the variable names. */
  function AfterNames(s: seq<byte>, pos: nat, h: Header): (o: HeaderRead)
    requires pos <= |s| && |h.iparam| == IparamCount
    ensures |o.hdr.iparam| == IparamCount
    ensures o.hdr.title == h.title && o.hdr.format == h.format
    ensures o.next <= |s|
    ensures o.rc in {0, -4, -5, -6}
  {
    var c := ReadIparam(s, pos, h);
    if c.rc != 0 then c else AfterIparam(s, c.next, c.hdr)
  }

  /** R5 when IPARAM(10) is 1, then R6. */
  function AfterIparam(s: seq<byte>, pos: nat, h: Header): (o: HeaderRead)
    requires pos <= |s| && |h.iparam| == IparamCount
    ensures |o.hdr.iparam| == IparamCount
    ensures o.hdr.title == h.title && o.hdr.format == h.format
    ensures o.next <= |s|
    ensures o.rc in {0, -5, -6}
  {
    var d := if h.iparam[9] == 1 then ReadDate(s, pos, h) else HeaderRead(0, h, pos);
    if d.rc != 0 then d else ReadR6(s, d.next, d.hdr)
  }

  /** R1 from the start of the file: title and format, then the format check. */
  function ReadTitle(s: seq<byte>, h: Header): (o: HeaderRead)
    ensures o.hdr.iparam == h.iparam
    ensures o.next <= |s|
    ensures o.rc in {0, -1}
    ensures o.rc == 0 ==>
      && o.hdr.format == Serafin
      && |o.hdr.title| < TitleBufSize - 1
      && forall i :: 0 <= i < |o.hdr.title| ==> o.hdr.title[i] != 0
  {
    var f := FortranRecord(s, 0, R1Size, 1);
    if f.rc != 1 then HeaderRead(-1, h, f.next)
    else
      FullCountFullPayload(s, 0, R1Size, 1);
      var r1 := DecodeR1(f.payload);
      var h1 := h.(title := CString(r1.title, TitleSize - 1), format := CString(r1.format, FormatSize - 1));
      HeaderRead(if h1.format != Serafin then -1 else 0, h1, f.next)
  }

  /** R2, the numbers of variables. */
  function ReadCounts(s: seq<byte>, pos: nat, h: Header): (o: HeaderRead)
    ensures o.hdr == h.(nbv1 := o.hdr.nbv1, nbv2 := o.hdr.nbv2)
    ensures pos <= |s| ==> o.next <= |s|
    ensures o.rc in {0, -2}
    ensures o.rc == -2 ==> o.hdr == h
  {
    var f := FortranRecord(s, pos, R2Size, 1);
    if f.rc != 1 then HeaderRead(-2, h, f.next)
    else
      FullCountFullPayload(s, pos, R2Size, 1);
      var r2 := DecodeR2(f.payload);
      HeaderRead(0, h.(nbv1 := r2.nbv1, nbv2 := r2.nbv2), f.next)
  }

  /** On success R2 was read whole, and nbv_1 and nbv_2 are the big-endian
      values of its two four-byte words. */
  lemma CountsAreBigEndian(s: seq<byte>, pos: nat, h: Header)
    requires ReadCounts(s, pos, h).rc == 0
    ensures var f, o := FortranRecord(s, pos, R2Size, 1), ReadCounts(s, pos, h);
      && f.rc == 1 && |f.payload| == R2Size
      && o.hdr.nbv1 == BeValue(f.payload[0..4]) && o.hdr.nbv2 == BeValue(f.payload[4..8])
  {
    var f := FortranRecord(s, pos, R2Size, 1);
    FullCountFullPayload(s, pos, R2Size, 1);
    SwapOfRawIsBigEndian(f.payload[0..4]);
    SwapOfRawIsBigEndian(f.payload[4..8]);
  }

  /** The nbv_1 variable names that follow R2; this step never fails. */
  function ReadVarNames(s: seq<byte>, pos: nat, h: Header): (o: HeaderRead)
    ensures o.hdr.iparam == h.iparam
    ensures o.hdr.title == h.title && o.hdr.format == h.format
    ensures pos <= |s| ==> o.next <= |s|
    ensures o.rc == 0
  {
    var names := ReadNames(s, pos, h.nbv1 as nat);
    HeaderRead(0, h.(varNames := names.names), names.next)
  }

  /** The IPARAM record, read over the handle's iparam array and swapped. */
  function ReadIparam(s: seq<byte>, pos: nat, h: Header): (o: HeaderRead)
    requires |h.iparam| == IparamCount
    ensures |o.hdr.iparam| == IparamCount
    ensures o.hdr.title == h.title && o.hdr.format == h.format
    ensures pos <= |s| ==> o.next <= |s|
    ensures o.rc in {0, -4}
  {
    var f := FortranRecord(s, pos, IparamSize, 1);
    var raw := Words(Overlay(WordBytes(h.iparam), f.payload));
    if f.rc != 1 then HeaderRead(-4, h.(iparam := raw), f.next)
    else HeaderRead(0, h.(iparam := SwapWords(raw)), f.next)
  }

  /** R5, the date. */
  function ReadDate(s: seq<byte>, pos: nat, h: Header): (o: HeaderRead)
    ensures o.hdr.iparam == h.iparam
    ensures o.hdr.title == h.title && o.hdr.format == h.format
    ensures pos <= |s| ==> o.next <= |s|
    ensures o.rc in {0, -5}
  {
    var f := FortranRecord(s, pos, R5Size, 1);
    if f.rc != 1 then HeaderRead(-5, h, f.next)
    else
      FullCountFullPayload(s, pos, R5Size, 1);
      HeaderRead(0, h.(date := DecodeR5(f.payload)), f.next)
  }

  /** R6, the last record of the header; its field `one` is only reported. */
  function ReadR6(s: seq<byte>, pos: nat, h: Header): (o: HeaderRead)
    ensures o.hdr.iparam == h.iparam
    ensures o.hdr.title == h.title && o.hdr.format == h.format
    ensures pos <= |s| ==> pos <= o.next <= |s|
    ensures o.rc in {0, -6}
  {
    var f := FortranRecord(s, pos, R6Size, 1);
    if f.rc != 1 then HeaderRead(-6, h, f.next)
    else
      FullCountFullPayload(s, pos, R6Size, 1);
      var r6 := DecodeR6(f.payload);
      HeaderRead(0, h.(nelem := r6.nelem, npoin := r6.npoin, ndp := r6.ndp), f.next)
  }

  /** The header is accepted only if the file starts with a complete R1 record
      whose format tag passes the check. */
  lemma HeaderNeedsSerafin(s: seq<byte>, h0: Header)
    requires |h0.iparam| == IparamCount && ReadHeader(s, h0).rc == 0
    ensures FortranRecord(s, 0, R1Size, 1).rc == 1
    ensures |FortranRecord(s, 0, R1Size, 1).payload| == R1Size
    ensures FormatAccepted(DecodeR1(FortranRecord(s, 0, R1Size, 1).payload).format)
  {
    if FortranRecord(s, 0, R1Size, 1).rc == 1 {
      FullCountFullPayload(s, 0, R1Size, 1);
    }
  }

  // ---------------------------------------------------------------------------
  // Mesh

  /** datasize, nt and datastart, fixed by a successful mesh step. */
  datatype Layout = Layout(datasize: nat, nt: u32, datastart: nat)

  /** The layout fixed by a mesh that ends at datastart: the size of one
      timestep and the number of whole timesteps between datastart and the
      end of the file, stored in a uint32_t. */
  function LayoutAt(s: seq<byte>, h: Header, datastart: nat): (l: Layout)
    requires datastart <= |s|
    ensures l.datasize == DataSize(h) && l.datastart == datastart
  {
    Layout(DataSize(h), (Quotient(|s| - datastart, DataSize(h)) % U32Limit) as u32, datastart)
  }

  /** nt is the quotient of the bytes after datastart by the timestep size,
      truncated to uint32_t. */
  lemma LayoutAtQuotient(s: seq<byte>, h: Header, datastart: nat)
    requires datastart <= |s|
    ensures LayoutAt(s, h, datastart).nt as int == (|s| - datastart) / DataSize(h) % U32Limit
  {
    QuotientIsDiv(|s| - datastart, DataSize(h));
  }

  /** The four floats of XYrange: least and greatest X, least and greatest Y. */
  datatype Range = Range(xmin: Float32, xmax: Float32, ymin: Float32, ymax: Float32)

  /** XYrange as the mesh step resets it before reading X. */
  const InitialRange := Range(PosInf, NegInf, PosInf, NegInf)

  /** Return code of get_telemac_mesh and what it leaves behind: each array
      that was allocated (None for the ones the step did not reach), XYrange
      once it was reset, the layout on success, and the cursor. */
  datatype MeshRead = MeshRead(
    rc: int,
    ikle: Option<seq<u32>>,
    ipobo: Option<seq<u32>>,
    x: Option<seq<Float32>>,
    y: Option<seq<Float32>>,
    range: Option<Range>,
    layout: Option<Layout>,
    next: nat)

  /** The integers a zeroed buffer of n of them holds after fread copied got. */
  function RawWords(n: nat, got: seq<byte>): (r: seq<u32>)
    requires |got| <= 4 * n
    ensures |r| == n
  {
    Words(Overlay(Zeros(4 * n), got))
  }

  /** The floats a zeroed buffer of n of them holds after fread copied got. */
  function RawFloats(n: nat, got: seq<byte>): (r: seq<Float32>)
    requires |got| <= 4 * n
    ensures |r| == n
  {
    Quads(Overlay(Zeros(4 * n), got))
  }

  /** What every outcome of the mesh step satisfies: the arrays it allocated
      have the lengths of the header, and on success XYrange holds the running
      bounds of the coordinates and the layout counts the timesteps that fit
      between the end of the mesh and the end of the file. */
  predicate Shaped(o: MeshRead, h: Header, s: seq<byte>) {
    && o.rc in {0, -1, -2, -3, -4}
    && (o.rc == 0 <==> o.layout.Some?)
    && (o.ikle.Some? ==> |o.ikle.value| == IkleCount(h))
    && (o.ipobo.Some? ==> |o.ipobo.value| == h.npoin as int)
    && (o.x.Some? ==> |o.x.value| == h.npoin as int)
    && (o.y.Some? ==> |o.y.value| == h.npoin as int)
    && (o.rc == 0 ==>
      && o.x.Some? && o.y.Some? && o.range.Some?
      && o.range.value == Range(RunningMin(o.x.value, PosInf), RunningMax(o.x.value, NegInf),
                                RunningMin(o.y.value, PosInf), RunningMax(o.y.value, NegInf))
      && o.next <= |s| && o.layout.value == LayoutAt(s, h, o.next))
  }

  /** get_telemac_mesh on file s, with the cursor at pos0, the handle's state,
      meshstart and header fields beforehand. */
  function ReadMesh(s: seq<byte>, pos0: nat, state: State, meshstart: nat, h: Header): (o: MeshRead)
    requires meshstart <= |s|
    ensures state != HeadersSet ==> o == MeshRead(-1, None, None, None, None, None, None, pos0)
    ensures o.rc == 0 <==> o.layout.Some?
    ensures o.rc in {0, -1, -2, -3, -4}
  {
    if state != HeadersSet then MeshRead(-1, None, None, None, None, None, None, pos0)
    else ReadIkle(s, meshstart, h)
  }

  /** The IKLE record, read at meshstart. */
  function ReadIkle(s: seq<byte>, meshstart: nat, h: Header): (o: MeshRead)
    requires meshstart <= |s|
    ensures o.rc == 0 <==> o.layout.Some?
    ensures o.rc in {0, -1, -2, -3, -4}
  {
    var n := IkleCount(h);
    var f := FortranRecord(s, meshstart, 4, n);
    var raw := RawWords(n, f.payload);
    if Unsigned(f.rc) != n then MeshRead(-1, Some(raw), None, None, None, None, None, f.next)
    else ReadBoundary(s, f.next, h, SwapWords(raw))
  }

  /** The IPOBO record, after IKLE was read and swapped. */
  function ReadBoundary(s: seq<byte>, pos: nat, h: Header, ikle: seq<u32>): (o: MeshRead)
    requires pos <= |s| && |ikle| == IkleCount(h)
    ensures o.rc == 0 <==> o.layout.Some?
    ensures o.rc in {0, -2, -3, -4}
  {
    var np := h.npoin as nat;
    var f := FortranRecord(s, pos, 4, np);
    var raw := RawWords(np, f.payload);
    if Unsigned(f.rc) != np then MeshRead(-2, Some(ikle), Some(raw), None, None, None, None, f.next)
    else ReadX(s, f.next, h, ikle, SwapWords(raw))
  }

  /** XYrange is reset, then the X record is read and swapped while the
      running bounds of X are kept in XYrange[0] and XYrange[1]. */
  function ReadX(s: seq<byte>, pos: nat, h: Header, ikle: seq<u32>, ipobo: seq<u32>): (o: MeshRead)
    requires pos <= |s| && |ikle| == IkleCount(h) && |ipobo| == h.npoin as int
    ensures o.rc == 0 <==> o.layout.Some?
    ensures o.rc in {0, -3, -4}
  {
    var np := h.npoin as nat;
    var f := FortranRecord(s, pos, 4, np);
    var raw := RawFloats(np, f.payload);
    if Unsigned(f.rc) != np then
      MeshRead(-3, Some(ikle), Some(ipobo), Some(raw), None, Some(InitialRange), None, f.next)
    else ReadY(s, f.next, h, ikle, ipobo, SwapFloats(raw))
  }

  /** The Y record, its running bounds in XYrange[2] and XYrange[3], then the
      timestep layout. */
  function ReadY(s: seq<byte>, pos: nat, h: Header, ikle: seq<u32>, ipobo: seq<u32>, xs: seq<Float32>): (o: MeshRead)
    requires pos <= |s| && |ikle| == IkleCount(h) && |ipobo| == |xs| == h.npoin as int
    ensures o.rc == 0 <==> o.layout.Some?
    ensures o.rc in {0, -4}
  {
    var np := h.npoin as nat;
    var range1 := InitialRange.(xmin := RunningMin(xs, PosInf), xmax := RunningMax(xs, NegInf));
    var f := FortranRecord(s, pos, 4, np);
    var raw := RawFloats(np, f.payload);
    if Unsigned(f.rc) != np then
      MeshRead(-4, Some(ikle), Some(ipobo), Some(xs), Some(raw), Some(range1), None, f.next)
    else
      var ys := SwapFloats(raw);
      var range2 := range1.(ymin := RunningMin(ys, PosInf), ymax := RunningMax(ys, NegInf));
      MeshRead(0, Some(ikle), Some(ipobo), Some(xs), Some(ys), Some(range2), Some(LayoutAt(s, h, f.next)), f.next)
  }

  /** Every outcome of the mesh step from a handle in state 1 is Shaped, and
      the cursor stays within the file. */
  lemma MeshShaped(s: seq<byte>, pos0: nat, meshstart: nat, h: Header)
    requires meshstart <= |s|
    ensures var o := ReadMesh(s, pos0, HeadersSet, meshstart, h);
      Shaped(o, h, s) && o.next <= |s|
  {
    var n := IkleCount(h);
    var f := FortranRecord(s, meshstart, 4, n);
    if Unsigned(f.rc) == n {
      BoundaryShaped(s, f.next, h, SwapWords(RawWords(n, f.payload)));
    }
  }

  lemma BoundaryShaped(s: seq<byte>, pos: nat, h: Header, ikle: seq<u32>)
    requires pos <= |s| && |ikle| == IkleCount(h)
    ensures var o := ReadBoundary(s, pos, h, ikle);
      Shaped(o, h, s) && o.next <= |s| && o.ikle == Some(ikle)
  {
    var np := h.npoin as nat;
    var f := FortranRecord(s, pos, 4, np);
    if Unsigned(f.rc) == np {
      XShaped(s, f.next, h, ikle, SwapWords(RawWords(np, f.payload)));
    }
  }

  lemma XShaped(s: seq<byte>, pos: nat, h: Header, ikle: seq<u32>, ipobo: seq<u32>)
    requires pos <= |s| && |ikle| == IkleCount(h) && |ipobo| == h.npoin as int
    ensures var o := ReadX(s, pos, h, ikle, ipobo);
      Shaped(o, h, s) && o.next <= |s| && o.ikle == Some(ikle) && o.ipobo == Some(ipobo)
  {
    var np := h.npoin as nat;
    var f := FortranRecord(s, pos, 4, np);
    if Unsigned(f.rc) == np {
      YShaped(s, f.next, h, ikle, ipobo, SwapFloats(RawFloats(np, f.payload)));
    }
  }

  lemma YShaped(s: seq<byte>, pos: nat, h: Header, ikle: seq<u32>, ipobo: seq<u32>, xs: seq<Float32>)
    requires pos <= |s| && |ikle| == IkleCount(h) && |ipobo| == |xs| == h.npoin as int
    ensures var o := ReadY(s, pos, h, ikle, ipobo, xs);
      Shaped(o, h, s) && o.next <= |s| && o.ikle == Some(ikle) && o.ipobo == Some(ipobo) && o.x == Some(xs)
  {
  }

  /** A fortran_read result that passes the comparison with an unsigned count
      n: either all n items were read, or the markers differed and n is
      0xFFFFFFFF, which is what -1 becomes as a uint32_t. */
  lemma {:induction false} CountAccepted(s: seq<byte>, pos: nat, n: nat)
    requires n < U32Limit && Unsigned(FortranRecord(s, pos, 4, n).rc) == n
    ensures var f := FortranRecord(s, pos, 4, n);
      || (&& f.rc == n && |f.payload| == 4 * n
          && RawWords(n, f.payload) == Words(f.payload) && RawFloats(n, f.payload) == Quads(f.payload))
      || (f.rc == -1 && n == U32Limit - 1)
  {
    var f := FortranRecord(s, pos, 4, n);
    if f.rc != -1 {
      assert 0 <= f.rc <= n;
      FullCountFullPayload(s, pos, 4, n);
      OverlayFull(Zeros(4 * n), f.payload);
    }
  }

  /** The mesh step gets past IKLE only when its record held all nelem * ndp
      integers (or in the -1 case of CountAccepted); IKLE is then the swapped
      contents of the record, and the step goes on with IPOBO after it. */
  lemma IkleAccepted(s: seq<byte>, meshstart: nat, h: Header)
    requires meshstart <= |s| && ReadIkle(s, meshstart, h).rc == 0
    ensures var n, f := IkleCount(h), FortranRecord(s, meshstart, 4, IkleCount(h));
      && ((f.rc == n && |f.payload| == 4 * n && RawWords(n, f.payload) == Words(f.payload))
          || (f.rc == -1 && n == U32Limit - 1))
      && ReadIkle(s, meshstart, h) == ReadBoundary(s, f.next, h, SwapWords(RawWords(n, f.payload)))
  {
    CountAccepted(s, meshstart, IkleCount(h));
  }

  /** The same for IPOBO and its npoin integers. */
  lemma BoundaryAccepted(s: seq<byte>, pos: nat, h: Header, ikle: seq<u32>)
    requires pos <= |s| && |ikle| == IkleCount(h) && ReadBoundary(s, pos, h, ikle).rc == 0
    ensures var n, f := h.npoin as nat, FortranRecord(s, pos, 4, h.npoin as nat);
      && ((f.rc == n && |f.payload| == 4 * n && RawWords(n, f.payload) == Words(f.payload))
          || (f.rc == -1 && n == U32Limit - 1))
      && ReadBoundary(s, pos, h, ikle) == ReadX(s, f.next, h, ikle, SwapWords(RawWords(n, f.payload)))
  {
    CountAccepted(s, pos, h.npoin as nat);
  }

  /** The same for X and its npoin floats. */
  lemma XAccepted(s: seq<byte>, pos: nat, h: Header, ikle: seq<u32>, ipobo: seq<u32>)
    requires pos <= |s| && |ikle| == IkleCount(h) && |ipobo| == h.npoin as int
    requires ReadX(s, pos, h, ikle, ipobo).rc == 0
    ensures var n, f := h.npoin as nat, FortranRecord(s, pos, 4, h.npoin as nat);
      && ((f.rc == n && |f.payload| == 4 * n && RawFloats(n, f.payload) == Quads(f.payload))
          || (f.rc == -1 && n == U32Limit - 1))
      && ReadX(s, pos, h, ikle, ipobo) == ReadY(s, f.next, h, ikle, ipobo, SwapFloats(RawFloats(n, f.payload)))
  {
    CountAccepted(s, pos, h.npoin as nat);
  }

  /** The same for Y: Y is the swapped contents of its record, and the layout
      is taken right after it. */
  lemma YAccepted(s: seq<byte>, pos: nat, h: Header, ikle: seq<u32>, ipobo: seq<u32>, xs: seq<Float32>)
    requires pos <= |s| && |ikle| == IkleCount(h) && |ipobo| == |xs| == h.npoin as int
    requires ReadY(s, pos, h, ikle, ipobo, xs).rc == 0
    ensures var n, f, o := h.npoin as nat, FortranRecord(s, pos, 4, h.npoin as nat), ReadY(s, pos, h, ikle, ipobo, xs);
      && ((f.rc == n && |f.payload| == 4 * n && RawFloats(n, f.payload) == Quads(f.payload))
          || (f.rc == -1 && n == U32Limit - 1))
      && o.y == Some(SwapFloats(RawFloats(n, f.payload))) && o.next == f.next
      && o.layout == Some(LayoutAt(s, h, f.next))
  {
    CountAccepted(s, pos, h.npoin as nat);
  }

  /** The -1 case is reachable: with nelem * ndp equal to 0xFFFFFFFF in
      uint32_t, an IKLE record whose markers differ is not refused, and the
      mesh step goes on with IPOBO after it. */
  lemma IkleMismatchPasses(s: seq<byte>, meshstart: nat, h: Header)
    requires IkleCount(h) == U32Limit - 1
    requires meshstart + 8 + 4 * IkleCount(h) <= |s|
    requires s[meshstart .. meshstart + 4]
          != s[meshstart + 4 + 4 * IkleCount(h) .. meshstart + 8 + 4 * IkleCount(h)]
    ensures var n := IkleCount(h);
      ReadIkle(s, meshstart, h)
        == ReadBoundary(s, meshstart + 8 + 4 * n, h, SwapWords(Words(s[meshstart + 4 .. meshstart + 4 + 4 * n])))
  {
    var n := IkleCount(h);
    CompleteRecord(s, meshstart, 4, n);
    var f := FortranRecord(s, meshstart, 4, n);
    OverlayFull(Zeros(4 * n), f.payload);
  }

  /** The running bounds of one axis, started from INFINITY and -INFINITY:
      every coordinate that is not NaN lies between them, each compares equal
      to a coordinate as soon as one is not NaN, and with no such coordinate
      they stay at their start values. */
  lemma AxisBounds(xs: seq<Float32>)
    ensures var lo, hi := RunningMin(xs, PosInf), RunningMax(xs, NegInf);
      && (forall i :: 0 <= i < |xs| && !IsNaN(xs[i]) ==> Key(lo) <= Key(xs[i]) <= Key(hi))
      && ((exists i :: 0 <= i < |xs| && !IsNaN(xs[i])) ==>
            (exists j :: 0 <= j < |xs| && !IsNaN(xs[j]) && Key(xs[j]) == Key(lo)) &&
            (exists j :: 0 <= j < |xs| && !IsNaN(xs[j]) && Key(xs[j]) == Key(hi)))
      && ((forall i :: 0 <= i < |xs| ==> IsNaN(xs[i])) ==> lo == PosInf && hi == NegInf)
  {
    KeyRange(PosInf);
    RunningMinIsLowerBound(xs, PosInf);
    RunningMaxIsUpperBound(xs, NegInf);
    if i :| 0 <= i < |xs| && !IsNaN(xs[i]) {
      RunningMinAttained(xs, i);
      RunningMaxAttained(xs, i);
    } else {
      AllNaNKeepsStart(xs, PosInf, NegInf);
    }
  }

  /** After a successful mesh step (ReadMesh ensures Shaped) XYrange holds, in
      this order, the least and the greatest X and the least and the greatest
      Y, in the sense of AxisBounds. */
  lemma MeshBoundingBox(o: MeshRead, h: Header, s: seq<byte>)
    requires Shaped(o, h, s) && o.rc == 0
    ensures var xs, ys, r := o.x.value, o.y.value, o.range.value;
      && (forall i :: 0 <= i < |xs| && !IsNaN(xs[i]) ==> Key(r.xmin) <= Key(xs[i]) <= Key(r.xmax))
      && (forall i :: 0 <= i < |ys| && !IsNaN(ys[i]) ==> Key(r.ymin) <= Key(ys[i]) <= Key(r.ymax))
      && ((exists i :: 0 <= i < |xs| && !IsNaN(xs[i])) ==>
            (exists j :: 0 <= j < |xs| && !IsNaN(xs[j]) && Key(xs[j]) == Key(r.xmin)) &&
            (exists j :: 0 <= j < |xs| && !IsNaN(xs[j]) && Key(xs[j]) == Key(r.xmax)))
      && ((exists i :: 0 <= i < |ys| && !IsNaN(ys[i])) ==>
            (exists j :: 0 <= j < |ys| && !IsNaN(ys[j]) && Key(ys[j]) == Key(r.ymin)) &&
            (exists j :: 0 <= j < |ys| && !IsNaN(ys[j]) && Key(ys[j]) == Key(r.ymax)))
      && ((forall i :: 0 <= i < |xs| ==> IsNaN(xs[i])) ==> r.xmin == PosInf && r.xmax == NegInf)
      && ((forall i :: 0 <= i < |ys| ==> IsNaN(ys[i])) ==> r.ymin == PosInf && r.ymax == NegInf)
  {
    AxisBounds(o.x.value);
    AxisBounds(o.y.value);
  }

  /** nt counts the whole timesteps between datastart and the end of the file:
      they all fit, and, unless the count overflowed uint32_t, no further one
      does. */
  lemma {:induction false} TimestepsFit(s: seq<byte>, h: Header, datastart: nat)
    requires datastart <= |s|
    ensures var l := LayoutAt(s, h, datastart);
      && DataEnd(l) <= |s|
      && ((|s| - datastart) / l.datasize < U32Limit ==> |s| < DataEnd(l) + l.datasize)
  {
    var l := LayoutAt(s, h, datastart);
    LayoutAtQuotient(s, h, datastart);
    TimesIsProduct(l.datasize, l.nt as nat);
    var q := (|s| - datastart) / l.datasize;
    assert |s| - datastart == l.datasize * q + (|s| - datastart) % l.datasize;
    MulMono(l.datasize, l.nt as nat, q);
  }

  lemma {:induction false} MulMono(c: nat, a: nat, b: nat)
    requires a <= b
    ensures c * a <= c * b
  {
    if a < b {
      MulMono(c, a, b - 1);
      assert c * b == c * (b - 1) + c;
    }
  }

  /** open_telemac reports trailing data exactly when the bytes after
      datastart are not a whole number of timesteps (nt not overflowing). */
  lemma {:induction false} TrailingIffRemainder(s: seq<byte>, h: Header, datastart: nat)
    requires datastart <= |s| && (|s| - datastart) / DataSize(h) < U32Limit
    ensures TrailingData(s, LayoutAt(s, h, datastart)) <==> (|s| - datastart) % DataSize(h) != 0
  {
    var l := LayoutAt(s, h, datastart);
    LayoutAtQuotient(s, h, datastart);
    TimesIsProduct(l.datasize, l.nt as nat);
    var q := (|s| - datastart) / l.datasize;
    assert q % U32Limit == q;
    assert |s| - datastart == l.datasize * q + (|s| - datastart) % l.datasize;
  }

  /** The check of open_telemac: a byte follows the last whole timestep. */
  predicate TrailingData(s: seq<byte>, l: Layout) {
    DataEnd(l) < |s|
  }

  /** The offset just past the last whole timestep. */
  function DataEnd(l: Layout): nat {
    l.datastart + Times(l.datasize, l.nt as nat)
  }

  // ---------------------------------------------------------------------------
  // Timesteps

  datatype Fields = Fields(data: seq<seq<Float32>>, next: nat)

  /** The loop over the variables of a timestep: count records of npoin floats
      read one after the other from pos, each into a zeroed array and swapped
      in place; the fortran_read results are ignored. */
  function ReadFields(s: seq<byte>, pos: nat, npoin: nat, count: nat): (r: Fields)
    ensures |r.data| == count
    ensures forall j :: 0 <= j < count ==> |r.data[j]| == npoin
  {
    if count == 0 then Fields([], pos)
    else
      var before := ReadFields(s, pos, npoin, count - 1);
      var f := FortranRecord(s, before.next, 4, npoin);
      Fields(before.data + [SwapFloats(RawFloats(npoin, f.payload))], f.next)
  }

  /** The timestamp get_telemac_data stores, the arrays it returns and where it
      leaves the cursor. */
  datatype Timestep = Timestep(stamp: Float32, data: seq<seq<Float32>>, next: nat)

  /** The byte offset of timestep t. */
  function TimestepOffset(datastart: nat, datasize: nat, t: nat): (r: nat)
    ensures r >= datastart
  {
    datastart + Times(datasize, t)
  }

  /** One timestep read at offset: the timestamp record is read over the old
      timestamp stamp0 and swapped, then nvars arrays of npoin floats. */
  function ReadTimestep(s: seq<byte>, offset: nat, nvars: nat, npoin: nat, stamp0: Float32): (o: Timestep)
    ensures |o.data| == nvars
    ensures forall j :: 0 <= j < nvars ==> |o.data[j]| == npoin
  {
    var f := FortranRecord(s, offset, 4, 1);
    var stamp := FloatSwap(Overlay(stamp0, f.payload));
    var fields := ReadFields(s, f.next, npoin, nvars);
    Timestep(stamp, fields.data, fields.next)
  }

  // ---------------------------------------------------------------------------
  // Timestep index as the source checks it

  /** The guards get_telemac_data passes before it writes timestamp[t]: the
      state and a seek offset that is not negative. Neither compares t with
      nt. */
  predicate SourceWritesSlot(state: State, datastart: nat, datasize: nat, t: int) {
    state == MeshSet && datastart + t * datasize >= 0
  }

  /** A file that ends right after its mesh has nt = 0, yet the source writes
      timestamp[0] when asked for timestep 0, and timestamp[-1] when asked for
      timestep nt - 1 (which is -1 once converted to int) as soon as datastart
      is at least datasize. */
  lemma UncheckedSlotWrite(o: MeshRead, h: Header, s: seq<byte>)
    requires Shaped(o, h, s) && o.rc == 0 && o.next == |s|
    ensures var l := o.layout.value;
      && l.nt == 0
      && SourceWritesSlot(MeshSet, l.datastart, l.datasize, 0)
      && (l.datastart >= l.datasize ==> SourceWritesSlot(MeshSet, l.datastart, l.datasize, -1))
  {
    var l := o.layout.value;
    assert l.datasize == DataSize(h) && l.datastart == |s|;
    assert 0 / l.datasize == 0;
    assert 0 * l.datasize == 0 && -1 * l.datasize == 0 - l.datasize as int;
  }
}
