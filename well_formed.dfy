/** What the reader makes of a file that a SELAFIN writer produced.

    A writer emits every record with matching markers and a payload of the
    length the reader asks for. The lemmas here state that the header, mesh
    and timestep functions of Decoder give back exactly what was written,
    that nt counts the timesteps written and that such a file has no
    trailing data. */
module WellFormed {
  import opened ByteOrder
  import opened FloatOrder
  import opened Records
  import opened Framing
  import opened Decoder
  import opened Blocks

  // ---------------------------------------------------------------------------
  // Records as a writer frames them

  /** fread of a complete record of p. */
  lemma ReadRecordAt(s: seq<byte>, pos: nat, p: seq<byte>, csize: nat, num: nat)
    requires csize > 0 && csize * num == |p| && |p| < U32Limit
    requires BlockAt(s, pos, Framed(p))
    ensures FortranRecord(s, pos, csize, num) == Frame(num, p, pos + |p| + 8)
  {
    BlockAtIsSlice(s, pos, Framed(p));
    ReadFramed(s, pos, p, csize, num);
  }

  /** fortran_read finds at pos the record of the big-endian integers ws. */
  predicate HoldsWords(s: seq<byte>, pos: nat, ws: seq<u32>) {
    var f := FortranRecord(s, pos, 4, |ws|);
    Unsigned(f.rc) == |ws| && f.next == pos + 4 * |ws| + 8 && SwapWords(RawWords(|ws|, f.payload)) == ws
  }

  /** fortran_read finds at pos the record of the big-endian floats fs. */
  predicate HoldsFloats(s: seq<byte>, pos: nat, fs: seq<Float32>) {
    var f := FortranRecord(s, pos, 4, |fs|);
    Unsigned(f.rc) == |fs| && f.next == pos + 4 * |fs| + 8 && SwapFloats(RawFloats(|fs|, f.payload)) == fs
  }

  /** A record of integers read whole into a zeroed array and swapped gives
      back the integers. */
  lemma WordsDecoded(ws: seq<u32>)
    ensures SwapWords(RawWords(|ws|, DiskWords(ws))) == ws
  {
    OverlayFull(Zeros(4 * |ws|), DiskWords(ws));
    DecodeDiskWords(ws);
  }

  /** A record of floats read whole into a zeroed array and swapped gives back
      the floats. */
  lemma FloatsDecoded(fs: seq<Float32>)
    ensures SwapFloats(RawFloats(|fs|, DiskFloats(fs))) == fs
  {
    OverlayFull(Zeros(4 * |fs|), DiskFloats(fs));
    DecodeDiskFloats(fs);
  }

  lemma ReadWordsAt(s: seq<byte>, pos: nat, ws: seq<u32>)
    requires 4 * |ws| < U32Limit && BlockAt(s, pos, Framed(DiskWords(ws)))
    ensures HoldsWords(s, pos, ws)
  {
    ReadRecordAt(s, pos, DiskWords(ws), 4, |ws|);
    WordsDecoded(ws);
  }

  lemma ReadFloatsAt(s: seq<byte>, pos: nat, fs: seq<Float32>)
    requires 4 * |fs| < U32Limit && BlockAt(s, pos, Framed(DiskFloats(fs)))
    ensures HoldsFloats(s, pos, fs)
  {
    ReadRecordAt(s, pos, DiskFloats(fs), 4, |fs|);
    FloatsDecoded(fs);
  }

  /** A record of integers followed by more bytes. */
  lemma WordsThen(s: seq<byte>, pos: nat, ws: seq<u32>, rest: seq<byte>)
    requires 4 * |ws| < U32Limit && BlockAt(s, pos, Framed(DiskWords(ws)) + rest)
    ensures HoldsWords(s, pos, ws) && BlockAt(s, pos + 4 * |ws| + 8, rest)
  {
    BlockSplit(s, pos, Framed(DiskWords(ws)), rest);
    ReadWordsAt(s, pos, ws);
  }

  /** A record of floats followed by more bytes. */
  lemma FloatsThen(s: seq<byte>, pos: nat, fs: seq<Float32>, rest: seq<byte>)
    requires 4 * |fs| < U32Limit && BlockAt(s, pos, Framed(DiskFloats(fs)) + rest)
    ensures HoldsFloats(s, pos, fs) && BlockAt(s, pos + 4 * |fs| + 8, rest)
  {
    BlockSplit(s, pos, Framed(DiskFloats(fs)), rest);
    ReadFloatsAt(s, pos, fs);
  }

  // ---------------------------------------------------------------------------
  // The contents of a file

  /** One timestep as written: the time and one array per variable. */
  datatype Step = Step(stamp: Float32, fields: seq<seq<Float32>>)

  /** The contents of a SELAFIN file as a writer produces it: the header
      records, the mesh and the timesteps. */
  datatype Selafin = Selafin(
    title: seq<byte>,
    format: seq<byte>,
    nbv1: u32,
    nbv2: u32,
    names: seq<seq<byte>>,
    iparam: seq<u32>,
    date: R5,
    nelem: u32,
    npoin: u32,
    ndp: u32,
    one: u32,
    ikle: seq<u32>,
    ipobo: seq<u32>,
    x: seq<Float32>,
    y: seq<Float32>,
    steps: seq<Step>)

  /** Every timestep holds nvars arrays of npoin values. */
  predicate StepsShaped(steps: seq<Step>, nvars: nat, npoin: nat) {
    forall t :: 0 <= t < |steps| ==>
      |steps[t].fields| == nvars && forall j :: 0 <= j < nvars ==> |steps[t].fields[j]| == npoin
  }

  /** The number of arrays in a timestep of f. */
  function NVars(f: Selafin): nat {
    f.nbv1 as int + f.nbv2 as int
  }

  /** The number of points of the mesh of f. */
  function NPoin(f: Selafin): nat {
    f.npoin as int
  }

  /** The sizes a writer keeps consistent: fixed-size title, tag and names,
      nbv_1 names, ten IPARAM values, nelem * ndp IKLE entries and npoin
      points, every record short enough for its 32-bit marker, and no
      overflow of nbv_1 + nbv_2. The tag and R6's field one are free. */
  predicate Consistent(f: Selafin) {
    && |f.title| == TitleSize && |f.format| == FormatSize
    && |f.names| == f.nbv1 as int
    && (forall i :: 0 <= i < |f.names| ==> |f.names[i]| == NameSize)
    && |f.iparam| == IparamCount
    && Times(f.nelem as nat, f.ndp as nat) == |f.ikle| && 4 * |f.ikle| < U32Limit
    && |f.ipobo| == |f.x| == |f.y| == NPoin(f) && 4 * NPoin(f) < U32Limit
    && NVars(f) < U32Limit
    && StepsShaped(f.steps, NVars(f), NPoin(f))
  }

  // ---------------------------------------------------------------------------
  // Header

  /** The variable name records, one after the other. */
  function NamesBytes(names: seq<seq<byte>>): (r: seq<byte>)
    requires forall i :: 0 <= i < |names| ==> |names[i]| == NameSize
  {
    if names == [] then []
    else NamesBytes(names[..|names| - 1]) + Framed(names[|names| - 1])
  }

  /** R5 is written exactly when IPARAM(10) is 1. */
  function DateBytes(f: Selafin): seq<byte>
    requires |f.iparam| == IparamCount
  {
    if f.iparam[9] == 1 then Framed(EncodeR5(f.date)) else []
  }

  function HeaderBytes(f: Selafin): seq<byte>
    requires Consistent(f)
  {
    Framed(EncodeR1(R1(f.title, f.format))) + Framed(EncodeR2(R2(f.nbv1, f.nbv2)))
      + NamesBytes(f.names) + Framed(DiskWords(f.iparam)) + DateBytes(f)
      + Framed(EncodeR6(R6(f.nelem, f.npoin, f.ndp, f.one)))
  }

  /** The names as the reader keeps them, one name buffer per name. */
  function NameBuffers(names: seq<seq<byte>>): (r: seq<seq<byte>>)
    requires forall i :: 0 <= i < |names| ==> |names[i]| == NameSize
    ensures |r| == |names|
  {
    if names == [] then [] else NameBuffers(names[..|names| - 1]) + [NameBuffer(names[|names| - 1])]
  }

  /** Each name comes back with its last byte set to NUL and the rest as
      written. */
  lemma {:induction false} NameBuffersKeepNames(names: seq<seq<byte>>, i: nat)
    requires forall i :: 0 <= i < |names| ==> |names[i]| == NameSize
    requires i < |names|
    ensures NameBuffers(names)[i] == names[i][NameSize - 1 := 0]
    decreases |names|
  {
    if i < |names| - 1 {
      NameBuffersKeepNames(names[..|names| - 1], i);
    } else {
      OverlayFull(Zeros(NameSize), names[i]);
    }
  }

  lemma SnocLast<T>(xs: seq<T>)
    requires xs != []
    ensures xs[..|xs| - 1] + [xs[|xs| - 1]] == xs
  {
  }

  /** The header fields the reader is expected to hold after reading the
      header of f over the fields h0: the title cut at 71 bytes or its first
      NUL, the tag cut at 7 bytes or its first NUL, and the date of h0 kept
      when no R5 was written. */
  function DecodedHeader(f: Selafin, h0: Header): (h: Header)
    requires Consistent(f)
  {
    Header(CString(f.title, TitleSize - 1), CString(f.format, FormatSize - 1), f.nbv1, f.nbv2,
           if f.iparam[9] == 1 then f.date else h0.date, NameBuffers(f.names),
           f.iparam, f.nelem, f.npoin, f.ndp)
  }

  /** One more name read after those already read. */
  lemma NamesStep(s: seq<byte>, pos: nat, front: seq<seq<byte>>, last: seq<byte>, q: nat)
    requires forall i :: 0 <= i < |front| ==> |front[i]| == NameSize
    requires |last| == NameSize
    requires ReadNames(s, pos, |front|) == Names(NameBuffers(front), q)
    requires FortranRecord(s, q, NameSize, 1) == Frame(1, last, q + NameSize + 8)
    ensures ReadNames(s, pos, |front| + 1) == Names(NameBuffers(front + [last]), q + NameSize + 8)
  {
    assert (front + [last])[..|front|] == front;
  }

  lemma {:induction false} ReadNamesAt(s: seq<byte>, pos: nat, names: seq<seq<byte>>)
    requires forall i :: 0 <= i < |names| ==> |names[i]| == NameSize
    requires BlockAt(s, pos, NamesBytes(names))
    ensures ReadNames(s, pos, |names|) == Names(NameBuffers(names), pos + |NamesBytes(names)|)
    decreases |names|
  {
    if names != [] {
      var front, last := names[..|names| - 1], names[|names| - 1];
      var q := pos + |NamesBytes(front)|;
      BlockSplit(s, pos, NamesBytes(front), Framed(last));
      ReadNamesAt(s, pos, front);
      ReadRecordAt(s, q, last, NameSize, 1);
      NamesStep(s, pos, front, last, q);
      SnocLast(names);
    }
  }

  /** R1: the title and the tag, accepted when the tag passes the check. */
  lemma ReadTitleOf(s: seq<byte>, f: Selafin, h0: Header)
    requires Consistent(f) && BlockAt(s, 0, Framed(EncodeR1(R1(f.title, f.format))))
    ensures ReadTitle(s, h0) == HeaderRead(if FormatAccepted(f.format) then 0 else -1,
      h0.(title := CString(f.title, TitleSize - 1), format := CString(f.format, FormatSize - 1)), 88)
  {
    var r1 := R1(f.title, f.format);
    ReadRecordAt(s, 0, EncodeR1(r1), R1Size, 1);
    RecordsRoundTrip(r1, R2(0, 0), NoDate, R6(0, 0, 0, 0));
  }

  /** R2 and the names. */
  lemma ReadCountsOf(s: seq<byte>, pos: nat, f: Selafin, h: Header)
    requires Consistent(f)
    requires BlockAt(s, pos, Framed(EncodeR2(R2(f.nbv1, f.nbv2))) + NamesBytes(f.names))
    ensures var o := ReadCounts(s, pos, h);
      && o == HeaderRead(0, h.(nbv1 := f.nbv1, nbv2 := f.nbv2), pos + 16)
      && ReadVarNames(s, o.next, o.hdr)
         == HeaderRead(0, o.hdr.(varNames := NameBuffers(f.names)), pos + 16 + |NamesBytes(f.names)|)
  {
    var r2 := R2(f.nbv1, f.nbv2);
    BlockSplit(s, pos, Framed(EncodeR2(r2)), NamesBytes(f.names));
    ReadRecordAt(s, pos, EncodeR2(r2), R2Size, 1);
    RecordsRoundTrip(R1(seq(TitleSize, _ => 0), seq(FormatSize, _ => 0)), r2, NoDate, R6(0, 0, 0, 0));
    ReadNamesAt(s, pos + 16, f.names);
  }

  /** IPARAM, the optional R5, then R6. */
  lemma ReadIparamOf(s: seq<byte>, pos: nat, f: Selafin, h: Header)
    requires Consistent(f) && |h.iparam| == IparamCount
    requires BlockAt(s, pos, Framed(DiskWords(f.iparam)) + DateBytes(f)
                             + Framed(EncodeR6(R6(f.nelem, f.npoin, f.ndp, f.one))))
    ensures AfterNames(s, pos, h) == HeaderRead(0,
      h.(iparam := f.iparam, date := if f.iparam[9] == 1 then f.date else h.date,
         nelem := f.nelem, npoin := f.npoin, ndp := f.ndp),
      pos + 48 + |DateBytes(f)| + 24)
  {
    var r6 := R6(f.nelem, f.npoin, f.ndp, f.one);
    BlockSplit(s, pos, Framed(DiskWords(f.iparam)) + DateBytes(f), Framed(EncodeR6(r6)));
    BlockSplit(s, pos, Framed(DiskWords(f.iparam)), DateBytes(f));
    ReadRecordAt(s, pos, DiskWords(f.iparam), IparamSize, 1);
    OverlayFull(WordBytes(h.iparam), DiskWords(f.iparam));
    DecodeDiskWords(f.iparam);
    var c := ReadIparam(s, pos, h);
    assert c == HeaderRead(0, h.(iparam := f.iparam), pos + 48);
    if f.iparam[9] == 1 {
      ReadRecordAt(s, pos + 48, EncodeR5(f.date), R5Size, 1);
    }
    ReadRecordAt(s, pos + 48 + |DateBytes(f)|, EncodeR6(r6), R6Size, 1);
    RecordsRoundTrip(R1(seq(TitleSize, _ => 0), seq(FormatSize, _ => 0)), R2(0, 0), f.date, r6);
  }

  lemma AppendAssoc<T>(x: seq<T>, y: seq<T>, z: seq<T>)
    ensures x + y + z == x + (y + z)
  {
  }

  /** The header bytes in three groups: R1, R2 with the names, and the rest. */
  lemma HeaderBytesGrouped(f: Selafin)
    requires Consistent(f)
    ensures HeaderBytes(f) == Framed(EncodeR1(R1(f.title, f.format)))
      + (Framed(EncodeR2(R2(f.nbv1, f.nbv2))) + NamesBytes(f.names))
      + (Framed(DiskWords(f.iparam)) + DateBytes(f) + Framed(EncodeR6(R6(f.nelem, f.npoin, f.ndp, f.one))))
  {
    var a, b, n := Framed(EncodeR1(R1(f.title, f.format))), Framed(EncodeR2(R2(f.nbv1, f.nbv2))), NamesBytes(f.names);
    var i, d, r := Framed(DiskWords(f.iparam)), DateBytes(f), Framed(EncodeR6(R6(f.nelem, f.npoin, f.ndp, f.one)));
    AppendAssoc(a, b, n);
    var x := a + (b + n);
    AppendAssoc(x, i, d);
    AppendAssoc(x, i + d, r);
  }

  /** The header records lie at 0 (R1), 88 (R2 and the names), iparamAt
      (IPARAM, R5 and R6), and the header ends at end. */
  lemma HeaderBlocks(s: seq<byte>, f: Selafin, iparamAt: nat, end: nat)
    requires Consistent(f) && BlockAt(s, 0, HeaderBytes(f))
    requires iparamAt == 104 + |NamesBytes(f.names)| && end == |HeaderBytes(f)|
    ensures BlockAt(s, 0, Framed(EncodeR1(R1(f.title, f.format))))
    ensures BlockAt(s, 88, Framed(EncodeR2(R2(f.nbv1, f.nbv2))) + NamesBytes(f.names))
    ensures BlockAt(s, iparamAt, Framed(DiskWords(f.iparam)) + DateBytes(f)
                                 + Framed(EncodeR6(R6(f.nelem, f.npoin, f.ndp, f.one))))
    ensures end == iparamAt + 48 + |DateBytes(f)| + 24
  {
    var a := Framed(EncodeR1(R1(f.title, f.format)));
    var b := Framed(EncodeR2(R2(f.nbv1, f.nbv2))) + NamesBytes(f.names);
    var c := Framed(DiskWords(f.iparam)) + DateBytes(f) + Framed(EncodeR6(R6(f.nelem, f.npoin, f.ndp, f.one)));
    HeaderBytesGrouped(f);
    BlockSplit(s, 0, a + b, c);
    BlockSplit(s, 0, a, b);
  }

  /** ReadHeader runs its stages in turn: when each succeeds, the header ends
      where the last one does. */
  lemma HeaderChain(s: seq<byte>, h0: Header, h1: Header, h2: Header, h3: Header, h4: Header,
                    p1: nat, p2: nat, p3: nat, end: nat)
    requires |h0.iparam| == IparamCount && p3 <= |s|
    requires ReadTitle(s, h0) == HeaderRead(0, h1, p1)
    requires ReadCounts(s, p1, h1) == HeaderRead(0, h2, p2)
    requires ReadVarNames(s, p2, h2) == HeaderRead(0, h3, p3)
    requires AfterNames(s, p3, h3) == HeaderRead(0, h4, end)
    ensures ReadHeader(s, h0) == HeaderRead(0, h4, end)
  {
  }

  /** The header a writer produced is read back whole when its tag passes the
      check, whatever R6's field one holds; the date is replaced exactly when
      IPARAM(10) is 1, and the cursor ends at end, just after R6. */
  lemma HeaderRoundTrip(s: seq<byte>, f: Selafin, h0: Header, end: nat)
    requires Consistent(f) && |h0.iparam| == IparamCount && BlockAt(s, 0, HeaderBytes(f))
    requires FormatAccepted(f.format) && end == |HeaderBytes(f)|
    ensures ReadHeader(s, h0) == HeaderRead(0, DecodedHeader(f, h0), end)
  {
    var iparamAt := 104 + |NamesBytes(f.names)|;
    HeaderBlocks(s, f, iparamAt, end);
    ReadTitleOf(s, f, h0);
    var h1 := h0.(title := CString(f.title, TitleSize - 1), format := CString(f.format, FormatSize - 1));
    ReadCountsOf(s, 88, f, h1);
    var h2 := h1.(nbv1 := f.nbv1, nbv2 := f.nbv2);
    var h3 := h2.(varNames := NameBuffers(f.names));
    ReadIparamOf(s, iparamAt, f, h3);
    var h4 := h3.(iparam := f.iparam, date := if f.iparam[9] == 1 then f.date else h3.date,
                  nelem := f.nelem, npoin := f.npoin, ndp := f.ndp);
    HeaderChain(s, h0, h1, h2, h3, h4, 88, 104, iparamAt, end);
  }

  /** A header whose tag fails the check is refused at R1. */
  lemma HeaderTagRefused(s: seq<byte>, f: Selafin, h0: Header)
    requires Consistent(f) && |h0.iparam| == IparamCount && BlockAt(s, 0, HeaderBytes(f))
    requires !FormatAccepted(f.format)
    ensures ReadHeader(s, h0).rc == -1
  {
    var p1 := Framed(EncodeR1(R1(f.title, f.format)));
    assert HeaderBytes(f) == p1 + HeaderBytes(f)[|p1|..];
    BlockSplit(s, 0, p1, HeaderBytes(f)[|p1|..]);
    ReadTitleOf(s, f, h0);
  }

  // ---------------------------------------------------------------------------
  // Mesh

  /** The IKLE, IPOBO, X and Y records. */
  function MeshRecords(ikle: seq<u32>, ipobo: seq<u32>, xs: seq<Float32>, ys: seq<Float32>): (r: seq<byte>)
    requires 4 * |ikle| < U32Limit && |ipobo| == |xs| == |ys| && 4 * |ys| < U32Limit
    ensures |r| == 4 * |ikle| + 12 * |ys| + 32
  {
    Framed(DiskWords(ikle)) + (Framed(DiskWords(ipobo)) + (Framed(DiskFloats(xs)) + Framed(DiskFloats(ys))))
  }

  function MeshBytes(f: Selafin): seq<byte>
    requires Consistent(f)
  {
    MeshRecords(f.ikle, f.ipobo, f.x, f.y)
  }

  /** The running bounds of X and Y, in the order of XYrange. */
  function Bounds(xs: seq<Float32>, ys: seq<Float32>): Range {
    Range(RunningMin(xs, PosInf), RunningMax(xs, NegInf), RunningMin(ys, PosInf), RunningMax(ys, NegInf))
  }

  /** What the mesh step makes of the mesh a writer produced: the four
      arrays as written, XYrange their bounds, and the layout fixed at end. */
  function MeshWritten(s: seq<byte>, h: Header, ikle: seq<u32>, ipobo: seq<u32>, xs: seq<Float32>, ys: seq<Float32>, end: nat): MeshRead
    requires end <= |s|
  {
    MeshRead(0, Some(ikle), Some(ipobo), Some(xs), Some(ys), Some(Bounds(xs, ys)), Some(LayoutAt(s, h, end)), end)
  }

  /** Each stage of the mesh step, given the record it reads, hands the
      decoded array on to the next stage. */
  lemma IkleStep(s: seq<byte>, pos: nat, q: nat, h: Header, ikle: seq<u32>)
    requires |ikle| == IkleCount(h) && HoldsWords(s, pos, ikle) && q == pos + 4 * |ikle| + 8 <= |s|
    ensures ReadIkle(s, pos, h) == ReadBoundary(s, q, h, ikle)
  {
    var f := FortranRecord(s, pos, 4, |ikle|);
    assert Unsigned(f.rc) == |ikle| && f.next == q && SwapWords(RawWords(|ikle|, f.payload)) == ikle;
  }

  lemma BoundaryStep(s: seq<byte>, pos: nat, q: nat, h: Header, ikle: seq<u32>, ipobo: seq<u32>)
    requires |ikle| == IkleCount(h) && |ipobo| == h.npoin as int
    requires HoldsWords(s, pos, ipobo) && q == pos + 4 * |ipobo| + 8 <= |s|
    ensures ReadBoundary(s, pos, h, ikle) == ReadX(s, q, h, ikle, ipobo)
  {
    var f := FortranRecord(s, pos, 4, |ipobo|);
    assert Unsigned(f.rc) == |ipobo| && f.next == q && SwapWords(RawWords(|ipobo|, f.payload)) == ipobo;
  }

  lemma XStep(s: seq<byte>, pos: nat, q: nat, h: Header, ikle: seq<u32>, ipobo: seq<u32>, xs: seq<Float32>)
    requires |ikle| == IkleCount(h) && |ipobo| == |xs| == h.npoin as int
    requires HoldsFloats(s, pos, xs) && q == pos + 4 * |xs| + 8 <= |s|
    ensures ReadX(s, pos, h, ikle, ipobo) == ReadY(s, q, h, ikle, ipobo, xs)
  {
    var f := FortranRecord(s, pos, 4, |xs|);
    assert Unsigned(f.rc) == |xs| && f.next == q && SwapFloats(RawFloats(|xs|, f.payload)) == xs;
  }

  lemma YStep(s: seq<byte>, pos: nat, q: nat, h: Header, ikle: seq<u32>, ipobo: seq<u32>, xs: seq<Float32>, ys: seq<Float32>)
    requires |ikle| == IkleCount(h) && |ipobo| == |xs| == |ys| == h.npoin as int
    requires HoldsFloats(s, pos, ys) && q == pos + 4 * |ys| + 8 <= |s|
    ensures ReadY(s, pos, h, ikle, ipobo, xs) == MeshWritten(s, h, ikle, ipobo, xs, ys, q)
  {
  }

  /** The four mesh records lie one after the other from meshstart, and each
      decodes to the array it was written from. */
  lemma MeshRecordsHold(s: seq<byte>, p0: nat, p1: nat, p2: nat, p3: nat,
                        ikle: seq<u32>, ipobo: seq<u32>, xs: seq<Float32>, ys: seq<Float32>)
    requires 4 * |ikle| < U32Limit && |ipobo| == |xs| == |ys| && 4 * |ys| < U32Limit
    requires p1 == p0 + 4 * |ikle| + 8 && p2 == p1 + 4 * |ys| + 8 && p3 == p2 + 4 * |ys| + 8
    requires BlockAt(s, p0, MeshRecords(ikle, ipobo, xs, ys))
    ensures HoldsWords(s, p0, ikle) && HoldsWords(s, p1, ipobo) && HoldsFloats(s, p2, xs) && HoldsFloats(s, p3, ys)
    ensures p3 + 4 * |ys| + 8 <= |s|
  {
    MeshRecordsAt(s, p0, p1, p2, p3, ikle, ipobo, xs, ys);
    ReadWordsAt(s, p0, ikle);
    ReadWordsAt(s, p1, ipobo);
    ReadFloatsAt(s, p2, xs);
    ReadFloatsAt(s, p3, ys);
  }

  /** The four mesh records lie one after the other from meshstart. */
  lemma MeshRecordsAt(s: seq<byte>, p0: nat, p1: nat, p2: nat, p3: nat,
                      ikle: seq<u32>, ipobo: seq<u32>, xs: seq<Float32>, ys: seq<Float32>)
    requires 4 * |ikle| < U32Limit && |ipobo| == |xs| == |ys| && 4 * |ys| < U32Limit
    requires p1 == p0 + 4 * |ikle| + 8 && p2 == p1 + 4 * |ys| + 8 && p3 == p2 + 4 * |ys| + 8
    requires BlockAt(s, p0, MeshRecords(ikle, ipobo, xs, ys))
    ensures BlockAt(s, p0, Framed(DiskWords(ikle))) && BlockAt(s, p1, Framed(DiskWords(ipobo)))
    ensures BlockAt(s, p2, Framed(DiskFloats(xs))) && BlockAt(s, p3, Framed(DiskFloats(ys)))
  {
    var r1 := Framed(DiskFloats(xs)) + Framed(DiskFloats(ys));
    var r2 := Framed(DiskWords(ipobo)) + r1;
    BlockSplit(s, p0, Framed(DiskWords(ikle)), r2);
    BlockSplit(s, p1, Framed(DiskWords(ipobo)), r1);
    BlockSplit(s, p2, Framed(DiskFloats(xs)), Framed(DiskFloats(ys)));
  }

  /** The stages of the mesh step in turn, given the four records. */
  lemma MeshChain(s: seq<byte>, h: Header, p0: nat, p1: nat, p2: nat, p3: nat, end: nat,
                  ikle: seq<u32>, ipobo: seq<u32>, xs: seq<Float32>, ys: seq<Float32>)
    requires |ikle| == IkleCount(h) && |ipobo| == |xs| == |ys| == h.npoin as int
    requires p1 == p0 + 4 * |ikle| + 8 && p2 == p1 + 4 * |ys| + 8 && p3 == p2 + 4 * |ys| + 8
    requires end == p3 + 4 * |ys| + 8 <= |s|
    requires HoldsWords(s, p0, ikle) && HoldsWords(s, p1, ipobo) && HoldsFloats(s, p2, xs) && HoldsFloats(s, p3, ys)
    ensures ReadIkle(s, p0, h) == MeshWritten(s, h, ikle, ipobo, xs, ys, end)
  {
    IkleStep(s, p0, p1, h, ikle);
    BoundaryStep(s, p1, p2, h, ikle, ipobo);
    XStep(s, p2, p3, h, ikle, ipobo, xs);
    YStep(s, p3, end, h, ikle, ipobo, xs, ys);
  }

  lemma MeshFromRecords(s: seq<byte>, h: Header, p0: nat, p1: nat, p2: nat, p3: nat, end: nat,
                        ikle: seq<u32>, ipobo: seq<u32>, xs: seq<Float32>, ys: seq<Float32>)
    requires |ikle| == IkleCount(h) && 4 * |ikle| < U32Limit
    requires |ipobo| == |xs| == |ys| == h.npoin as int && 4 * |ys| < U32Limit
    requires p1 == p0 + 4 * |ikle| + 8 && p2 == p1 + 4 * |ys| + 8 && p3 == p2 + 4 * |ys| + 8
    requires end == p3 + 4 * |ys| + 8
    requires BlockAt(s, p0, MeshRecords(ikle, ipobo, xs, ys))
    ensures end <= |s| && ReadIkle(s, p0, h) == MeshWritten(s, h, ikle, ipobo, xs, ys, end)
  {
    MeshRecordsHold(s, p0, p1, p2, p3, ikle, ipobo, xs, ys);
    MeshChain(s, h, p0, p1, p2, p3, end, ikle, ipobo, xs, ys);
  }

  /** The mesh a writer produced is read back whole from meshstart: IKLE
      (left 1-based), IPOBO, X and Y as written, XYrange their bounds, and
      the layout fixed at end, just after Y. */
  lemma MeshRoundTrip(s: seq<byte>, meshstart: nat, end: nat, h: Header,
                      ikle: seq<u32>, ipobo: seq<u32>, xs: seq<Float32>, ys: seq<Float32>)
    requires |ikle| == IkleCount(h) && 4 * |ikle| < U32Limit
    requires |ipobo| == |xs| == |ys| == h.npoin as int && 4 * |ys| < U32Limit
    requires BlockAt(s, meshstart, MeshRecords(ikle, ipobo, xs, ys))
    requires end == meshstart + |MeshRecords(ikle, ipobo, xs, ys)|
    ensures end <= |s| && ReadMesh(s, meshstart, HeadersSet, meshstart, h) == MeshWritten(s, h, ikle, ipobo, xs, ys, end)
  {
    var p1 := meshstart + 4 * |ikle| + 8;
    var p2 := p1 + 4 * |ys| + 8;
    var p3 := p2 + 4 * |ys| + 8;
    MeshFromRecords(s, h, meshstart, p1, p2, p3, end, ikle, ipobo, xs, ys);
  }

  // ---------------------------------------------------------------------------
  // Timesteps

  /** The arrays of one timestep, one record after the other. */
  function FieldsBytes(fields: seq<seq<Float32>>): seq<byte>
    requires forall j :: 0 <= j < |fields| ==> 4 * |fields[j]| < U32Limit
  {
    if fields == [] then []
    else FieldsBytes(fields[..|fields| - 1]) + Framed(DiskFloats(fields[|fields| - 1]))
  }

  /** The timestamp record followed by the arrays. */
  function StepBytes(st: Step): seq<byte>
    requires forall j :: 0 <= j < |st.fields| ==> 4 * |st.fields[j]| < U32Limit
  {
    Framed(DiskFloats([st.stamp])) + FieldsBytes(st.fields)
  }

  function StepsBytes(steps: seq<Step>, nvars: nat, npoin: nat): seq<byte>
    requires StepsShaped(steps, nvars, npoin) && 4 * npoin < U32Limit
  {
    if steps == [] then []
    else StepsBytes(steps[..|steps| - 1], nvars, npoin) + StepBytes(steps[|steps| - 1])
  }

  /** The size of a timestep record group with nvars arrays of npoin values. */
  function StepSize(nvars: nat, npoin: nat): nat {
    12 + Times(4 * npoin + 8, nvars)
  }

  lemma {:induction false} FieldsBytesLength(fields: seq<seq<Float32>>, npoin: nat)
    requires 4 * npoin < U32Limit && forall j :: 0 <= j < |fields| ==> |fields[j]| == npoin
    ensures |FieldsBytes(fields)| == Times(4 * npoin + 8, |fields|)
  {
    if fields != [] {
      var front, last := fields[..|fields| - 1], fields[|fields| - 1];
      FieldsBytesLength(front, npoin);
      assert |FieldsBytes(fields)| == |FieldsBytes(front)| + |Framed(DiskFloats(last))|;
    }
  }

  /** One more array read after those already read. */
  lemma FieldsStep(s: seq<byte>, pos: nat, front: seq<seq<Float32>>, last: seq<Float32>, q: nat)
    requires ReadFields(s, pos, |last|, |front|) == Fields(front, q) && HoldsFloats(s, q, last)
    ensures ReadFields(s, pos, |last|, |front| + 1) == Fields(front + [last], q + 4 * |last| + 8)
  {
  }

  lemma {:induction false} ReadFieldsAt(s: seq<byte>, pos: nat, fields: seq<seq<Float32>>, npoin: nat)
    requires 4 * npoin < U32Limit && forall j :: 0 <= j < |fields| ==> |fields[j]| == npoin
    requires BlockAt(s, pos, FieldsBytes(fields))
    ensures ReadFields(s, pos, npoin, |fields|) == Fields(fields, pos + |FieldsBytes(fields)|)
    decreases |fields|
  {
    if fields != [] {
      var front, last := fields[..|fields| - 1], fields[|fields| - 1];
      var q := pos + |FieldsBytes(front)|;
      BlockSplit(s, pos, FieldsBytes(front), Framed(DiskFloats(last)));
      ReadFieldsAt(s, pos, front, npoin);
      ReadFloatsAt(s, q, last);
      FieldsStep(s, pos, front, last, q);
      SnocLast(fields);
    }
  }

  /** One timestep a writer produced is read back whole, whatever the
      timestamp slot held before. */
  lemma {:induction false} StepRoundTrip(s: seq<byte>, offset: nat, st: Step, npoin: nat, prior: Float32)
    requires 4 * npoin < U32Limit && forall j :: 0 <= j < |st.fields| ==> |st.fields[j]| == npoin
    requires BlockAt(s, offset, StepBytes(st))
    ensures ReadTimestep(s, offset, |st.fields|, npoin, prior)
            == Timestep(st.stamp, st.fields, offset + StepSize(|st.fields|, npoin))
  {
    var p := DiskFloats([st.stamp]);
    BlockSplit(s, offset, Framed(p), FieldsBytes(st.fields));
    ReadRecordAt(s, offset, p, 4, 1);
    assert p == FloatSwap(st.stamp);
    OverlayFull(prior, p);
    FloatSwapInvolutive(st.stamp);
    ReadFieldsAt(s, offset + 12, st.fields, npoin);
    FieldsBytesLength(st.fields, npoin);
  }

  /** The timesteps take StepSize bytes each. */
  lemma {:induction false} StepsLength(steps: seq<Step>, nvars: nat, npoin: nat)
    requires StepsShaped(steps, nvars, npoin) && 4 * npoin < U32Limit
    ensures |StepsBytes(steps, nvars, npoin)| == Times(StepSize(nvars, npoin), |steps|)
  {
    if steps != [] {
      StepsLength(steps[..|steps| - 1], nvars, npoin);
      FieldsBytesLength(steps[|steps| - 1].fields, npoin);
    }
  }

  /** Timestep t lies t StepSize bytes from the start of the timesteps. */
  lemma {:induction false} StepAt(steps: seq<Step>, nvars: nat, npoin: nat, t: nat)
    requires StepsShaped(steps, nvars, npoin) && 4 * npoin < U32Limit && t < |steps|
    ensures BlockAt(StepsBytes(steps, nvars, npoin), Times(StepSize(nvars, npoin), t), StepBytes(steps[t]))
  {
    var front := steps[..|steps| - 1];
    var a, b := StepsBytes(front, nvars, npoin), StepBytes(steps[|steps| - 1]);
    if t < |front| {
      StepAt(front, nvars, npoin, t);
      BlockInPrefix(a, b, Times(StepSize(nvars, npoin), t), StepBytes(front[t]));
    } else {
      StepsLength(front, nvars, npoin);
      BlockAtSuffix(a, b);
    }
  }

  // ---------------------------------------------------------------------------
  // Whole files

  function FileBytes(f: Selafin): seq<byte>
    requires Consistent(f)
  {
    HeaderBytes(f) + MeshBytes(f) + StepsBytes(f.steps, NVars(f), NPoin(f))
  }

  /** The layout a file written by f gets: the timesteps start after the mesh
      and are StepSize bytes apart, and nt is their number stored in a
      uint32_t. */
  function FileLayout(f: Selafin): Layout
    requires Consistent(f)
  {
    Layout(StepSize(NVars(f), NPoin(f)), (|f.steps| % U32Limit) as u32,
           |HeaderBytes(f)| + |MeshBytes(f)|)
  }

  lemma FileHeaderAt(f: Selafin)
    requires Consistent(f)
    ensures BlockAt(FileBytes(f), 0, HeaderBytes(f))
  {
    Pieces(HeaderBytes(f), MeshBytes(f), StepsBytes(f.steps, NVars(f), NPoin(f)));
  }

  lemma FileMeshAt(f: Selafin)
    requires Consistent(f)
    ensures BlockAt(FileBytes(f), |HeaderBytes(f)|, MeshBytes(f))
  {
    Pieces(HeaderBytes(f), MeshBytes(f), StepsBytes(f.steps, NVars(f), NPoin(f)));
  }

  lemma FileStepsAt(f: Selafin)
    requires Consistent(f)
    ensures BlockAt(FileBytes(f), |HeaderBytes(f)| + |MeshBytes(f)|, StepsBytes(f.steps, NVars(f), NPoin(f)))
  {
    Pieces(HeaderBytes(f), MeshBytes(f), StepsBytes(f.steps, NVars(f), NPoin(f)));
  }

  /** The timestep size the mesh step computes is the size of a written
      timestep. */
  lemma DataSizeIsStepSize(h: Header, nvars: nat)
    requires nvars == h.nbv1 as int + h.nbv2 as int < U32Limit
    ensures DataSize(h) == StepSize(nvars, h.npoin as int)
  {
    TimesIsProduct(VarCount(h), 4 * h.npoin as nat + 8);
    TimesIsProduct(4 * h.npoin as nat + 8, nvars);
  }

  /** The IKLE count the mesh step asks for is the number of IKLE entries
      written. */
  lemma IkleCountOfFile(f: Selafin, h0: Header)
    requires Consistent(f)
    ensures IkleCount(DecodedHeader(f, h0)) == |f.ikle|
  {
  }

  lemma {:induction false} QuotientOfTimes(c: nat, n: nat)
    requires c > 0
    ensures Quotient(Times(c, n), c) == n
  {
    if n > 0 {
      QuotientOfTimes(c, n - 1);
    }
  }

  lemma {:induction false} TimesGrows(c: nat, a: nat, b: nat)
    requires c > 0 && a < b
    ensures Times(c, a) < Times(c, b)
  {
    if a < b - 1 {
      TimesGrows(c, a, b - 1);
    }
  }

  /** A file that ends with n whole timesteps after l.datastart, with nt the
      count n stored in a uint32_t, gets the layout l. */
  lemma LayoutOfLength(s: seq<byte>, h: Header, l: Layout, n: nat)
    requires l.datasize == DataSize(h) && l.nt as int == n % U32Limit
    requires |s| == l.datastart + Times(l.datasize, n)
    ensures LayoutAt(s, h, l.datastart) == l
  {
    QuotientOfTimes(l.datasize, n);
  }

  /** Such a file has no byte after the last timestep exactly when nt did not
      wrap around. */
  lemma TrailingOfLength(s: seq<byte>, l: Layout, n: nat)
    requires l.datasize > 0 && l.nt as int == n % U32Limit
    requires |s| == l.datastart + Times(l.datasize, n)
    ensures !TrailingData(s, l) <==> n < U32Limit
  {
    if n >= U32Limit {
      TimesGrows(l.datasize, n % U32Limit, n);
    }
  }

  /** A file written by f ends with its timesteps, after FileLayout(f).datastart,
      and FileLayout(f) has their size and their number. */
  lemma FileLength(f: Selafin)
    requires Consistent(f)
    ensures var l, nvars, np := FileLayout(f), NVars(f), NPoin(f);
      && |FileBytes(f)| == l.datastart + |StepsBytes(f.steps, nvars, np)|
      && l.datastart == |HeaderBytes(f)| + |MeshBytes(f)|
      && l.datasize == StepSize(nvars, np) && l.nt as int == |f.steps| % U32Limit
      && StepsShaped(f.steps, nvars, np) && 4 * np < U32Limit && nvars < U32Limit
  {
    FileBytesLength(f);
  }

  lemma FileBytesLength(f: Selafin)
    requires Consistent(f)
    ensures |FileBytes(f)| == |HeaderBytes(f)| + |MeshBytes(f)|
      + |StepsBytes(f.steps, NVars(f), NPoin(f))|
  {
  }

  /** A byte sequence that ends with the timesteps after l.datastart gets the
      layout l from the mesh step of a header with their counts. */
  lemma LayoutOfSteps(s: seq<byte>, h: Header, l: Layout, steps: seq<Step>, nvars: nat, npoin: nat)
    requires StepsShaped(steps, nvars, npoin) && 4 * npoin < U32Limit
    requires nvars == h.nbv1 as int + h.nbv2 as int < U32Limit && npoin == h.npoin as int
    requires l.datasize == StepSize(nvars, npoin) && l.nt as int == |steps| % U32Limit
    requires |s| == l.datastart + |StepsBytes(steps, nvars, npoin)|
    ensures LayoutAt(s, h, l.datastart) == l
  {
    StepsLength(steps, nvars, npoin);
    DataSizeIsStepSize(h, nvars);
    LayoutOfLength(s, h, l, |steps|);
  }

  /** Such a byte sequence has no byte after the last timestep exactly when
      their number did not wrap around in nt. */
  lemma TrailingOfSteps(s: seq<byte>, l: Layout, steps: seq<Step>, nvars: nat, npoin: nat)
    requires StepsShaped(steps, nvars, npoin) && 4 * npoin < U32Limit
    requires l.datasize == StepSize(nvars, npoin) && l.nt as int == |steps| % U32Limit
    requires |s| == l.datastart + |StepsBytes(steps, nvars, npoin)|
    ensures !TrailingData(s, l) <==> |steps| < U32Limit
  {
    StepsLength(steps, nvars, npoin);
    TrailingOfLength(s, l, |steps|);
  }

  /** The mesh step of a file written by f fixes the layout FileLayout(f). */
  lemma FileLayoutIs(f: Selafin, h: Header)
    requires Consistent(f) && h.nbv1 == f.nbv1 && h.nbv2 == f.nbv2 && h.npoin == f.npoin
    ensures FileLayout(f).datastart <= |FileBytes(f)|
    ensures LayoutAt(FileBytes(f), h, FileLayout(f).datastart) == FileLayout(f)
  {
    FileLength(f);
    LayoutOfSteps(FileBytes(f), h, FileLayout(f), f.steps, NVars(f), NPoin(f));
  }

  /** open_telemac finds no byte after the last timestep of a file written by
      f exactly when nt did not wrap around, that is when f has fewer than
      2^32 timesteps. */
  lemma FileTrailing(f: Selafin)
    requires Consistent(f)
    ensures !TrailingData(FileBytes(f), FileLayout(f)) <==> |f.steps| < U32Limit
  {
    FileLength(f);
    TrailingOfSteps(FileBytes(f), FileLayout(f), f.steps, NVars(f), NPoin(f));
  }

  /** A file written by f is opened: the header and the mesh come back as
      written, the layout is FileLayout(f), and trailing data is reported
      only when nt wrapped around. */
  lemma FileRoundTrip(f: Selafin, h0: Header, headerEnd: nat, datastart: nat)
    requires Consistent(f) && FormatAccepted(f.format) && |h0.iparam| == IparamCount
    requires headerEnd == |HeaderBytes(f)| && datastart == headerEnd + |MeshBytes(f)|
    ensures var s, h := FileBytes(f), DecodedHeader(f, h0);
      && ReadHeader(s, h0) == HeaderRead(0, h, headerEnd)
      && datastart <= |s|
      && ReadMesh(s, headerEnd, HeadersSet, headerEnd, h) == MeshWritten(s, h, f.ikle, f.ipobo, f.x, f.y, datastart)
      && LayoutAt(s, h, datastart) == FileLayout(f)
      && (!TrailingData(s, FileLayout(f)) <==> |f.steps| < U32Limit)
  {
    var s, h := FileBytes(f), DecodedHeader(f, h0);
    FileHeaderAt(f);
    FileMeshAt(f);
    HeaderRoundTrip(s, f, h0, headerEnd);
    IkleCountOfFile(f, h0);
    MeshRoundTrip(s, headerEnd, datastart, h, f.ikle, f.ipobo, f.x, f.y);
    assert FileLayout(f).datastart == datastart;
    FileLayoutIs(f, h);
    FileTrailing(f);
  }

  /** Timestep t lies Times(StepSize, t) bytes after the start of the
      timesteps. */
  lemma StepInFile(s: seq<byte>, datastart: nat, steps: seq<Step>, nvars: nat, npoin: nat, t: nat)
    requires StepsShaped(steps, nvars, npoin) && 4 * npoin < U32Limit && t < |steps|
    requires BlockAt(s, datastart, StepsBytes(steps, nvars, npoin))
    ensures BlockAt(s, datastart + Times(StepSize(nvars, npoin), t), StepBytes(steps[t]))
  {
    StepAt(steps, nvars, npoin, t);
    BlockNest(s, datastart, StepsBytes(steps, nvars, npoin), Times(StepSize(nvars, npoin), t), StepBytes(steps[t]));
  }

  /** Timestep t of the timesteps written from datastart on is read back as
      written from its offset, and the cursor ends where timestep t + 1
      starts. */
  lemma TimestepAt(s: seq<byte>, datastart: nat, steps: seq<Step>, nvars: nat, npoin: nat, t: nat, prior: Float32)
    requires StepsShaped(steps, nvars, npoin) && 4 * npoin < U32Limit && t < |steps|
    requires BlockAt(s, datastart, StepsBytes(steps, nvars, npoin))
    ensures ReadTimestep(s, TimestepOffset(datastart, StepSize(nvars, npoin), t), nvars, npoin, prior)
            == Timestep(steps[t].stamp, steps[t].fields, TimestepOffset(datastart, StepSize(nvars, npoin), t + 1))
  {
    var st := steps[t];
    assert |st.fields| == nvars && forall j :: 0 <= j < |st.fields| ==> |st.fields[j]| == npoin;
    StepInFile(s, datastart, steps, nvars, npoin, t);
    StepRoundTrip(s, datastart + Times(StepSize(nvars, npoin), t), st, npoin, prior);
  }

  /** Timestep t of a file written by f is read back as written, from the
      offset get_telemac_data seeks to, by a reader whose header holds the
      counts of f; the cursor ends where timestep t + 1 starts. */
  lemma FileTimestep(f: Selafin, h: Header, t: nat, prior: Float32)
    requires Consistent(f) && t < |f.steps|
    requires h.nbv1 == f.nbv1 && h.nbv2 == f.nbv2 && h.npoin == f.npoin
    ensures var l := FileLayout(f);
      ReadTimestep(FileBytes(f), TimestepOffset(l.datastart, l.datasize, t), VarCount(h), h.npoin as nat, prior)
        == Timestep(f.steps[t].stamp, f.steps[t].fields, TimestepOffset(l.datastart, l.datasize, t + 1))
  {
    FileLength(f);
    FileStepsAt(f);
    assert VarCount(h) == NVars(f) && h.npoin as nat == NPoin(f);
    TimestepAt(FileBytes(f), FileLayout(f).datastart, f.steps, NVars(f), NPoin(f), t, prior);
  }
}
