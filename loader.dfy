/** The reader's handle, resfile_t with its telemac_data_t, and the four
    functions of telemac-loader.c that fill it: open_telemac,
    get_telemac_header, get_telemac_mesh and get_telemac_data.

    Every method is proved to leave exactly the state that the functions of
    module Decoder compute from the file and the state beforehand. */
module Loader {
  import opened ByteOrder
  import opened FloatOrder
  import opened Records
  import opened Framing
  import opened Decoder

  /** `a[i] = int_swap(a[i])` for every element of a. */
  method SwapIntsInPlace(a: array<u32>)
    modifies a
    ensures a[..] == SwapWords(old(a[..]))
  {
    var i := 0;
    while i < a.Length
      invariant 0 <= i <= a.Length
      invariant forall j :: 0 <= j < i ==> a[j] == IntSwap(old(a[j]))
      invariant forall j :: i <= j < a.Length ==> a[j] == old(a[j])
    {
      a[i] := IntSwap(a[i]);
      i := i + 1;
    }
  }

  /** `a[i] = float_swap(a[i])` for every element of a. */
  method SwapFloatsInPlace(a: array<Float32>)
    modifies a
    ensures a[..] == SwapFloats(old(a[..]))
  {
    var i := 0;
    while i < a.Length
      invariant 0 <= i <= a.Length
      invariant forall j :: 0 <= j < i ==> a[j] == FloatSwap(old(a[j]))
      invariant forall j :: i <= j < a.Length ==> a[j] == old(a[j])
    {
      a[i] := FloatSwap(a[i]);
      i := i + 1;
    }
  }

  /** The coordinate loop of get_telemac_mesh: every element of a is swapped,
      and range[k] and range[k + 1] are lowered and raised to it in turn. */
  method SwapTrackRange(a: array<Float32>, range: array<Float32>, k: nat)
    requires a != range && k + 1 < range.Length
    modifies a, range
    ensures a[..] == SwapFloats(old(a[..]))
    ensures range[k] == RunningMin(a[..], old(range[k]))
    ensures range[k + 1] == RunningMax(a[..], old(range[k + 1]))
    ensures forall j :: 0 <= j < range.Length && j != k && j != k + 1 ==> range[j] == old(range[j])
  {
    var i := 0;
    while i < a.Length
      invariant 0 <= i <= a.Length
      invariant forall j :: 0 <= j < i ==> a[j] == FloatSwap(old(a[j]))
      invariant forall j :: i <= j < a.Length ==> a[j] == old(a[j])
      invariant range[k] == RunningMin(a[..i], old(range[k]))
      invariant range[k + 1] == RunningMax(a[..i], old(range[k + 1]))
      invariant forall j :: 0 <= j < range.Length && j != k && j != k + 1 ==> range[j] == old(range[j])
    {
      a[i] := FloatSwap(a[i]);
      assert a[..i + 1][..i] == a[..i];
      if Less(a[i], range[k]) {
        range[k] := a[i];
      }
      if Less(range[k + 1], a[i]) {
        range[k + 1] := a[i];
      }
      i := i + 1;
    }
    assert a[..a.Length] == a[..];
  }

  /** The name loop of get_telemac_header: count records of 32 bytes, each
      read into a zeroed buffer whose last byte is then set to NUL. */
  method ReadNameRecords(file: Stream, count: nat) returns (names: seq<seq<byte>>)
    modifies file
    ensures ReadNames(file.contents, old(file.pos), count) == Names(names, file.pos)
  {
    names := [];
    var i := 0;
    while i < count
      invariant 0 <= i <= count
      invariant ReadNames(file.contents, old(file.pos), i) == Names(names, file.pos)
    {
      var _, got := FortranRead(file, NameSize, 1);
      names := names + [NameBuffer(got)];
      i := i + 1;
    }
  }

  /** The array XYrange holds the four floats of r. */
  predicate RangeIs(a: array<Float32>, r: Range)
    reads a
  {
    a.Length == 4 && a[0] == r.xmin && a[1] == r.xmax && a[2] == r.ymin && a[3] == r.ymax
  }

  /** XYrange = {INFINITY, -INFINITY, INFINITY, -INFINITY}. */
  method ResetRange(range: array<Float32>)
    requires range.Length == 4
    modifies range
    ensures RangeIs(range, InitialRange)
  {
    range[0] := PosInf;
    range[1] := NegInf;
    range[2] := PosInf;
    range[3] := NegInf;
  }

  /** A zeroed array of n integers with one record read into it: the
      fortran_read result and the array as fread left it. */
  method ReadWordArray(file: Stream, n: nat) returns (rc: int, a: array<u32>)
    modifies file
    ensures fresh(a)
    ensures var f := FortranRecord(file.contents, old(file.pos), 4, n);
      rc == f.rc && a[..] == RawWords(n, f.payload) && file.pos == f.next
  {
    a := new u32[n](_ => 0);
    var got;
    rc, got := FortranRead(file, 4, n);
    var raw := RawWords(n, got);
    forall i | 0 <= i < n {
      a[i] := raw[i];
    }
  }

  /** A zeroed array of n floats with one record read into it. */
  method ReadFloatArray(file: Stream, n: nat) returns (rc: int, a: array<Float32>)
    modifies file
    ensures fresh(a)
    ensures var f := FortranRecord(file.contents, old(file.pos), 4, n);
      rc == f.rc && a[..] == RawFloats(n, f.payload) && file.pos == f.next
  {
    a := new Float32[n](_ => ZeroQuad);
    var got;
    rc, got := FortranRead(file, 4, n);
    var raw := RawFloats(n, got);
    forall i | 0 <= i < n {
      a[i] := raw[i];
    }
  }

  /** One array of npoin values of a timestep: a zeroed buffer, the record
      read into it (its result ignored), every value swapped in place. */
  method ReadValues(file: Stream, npoin: nat) returns (values: seq<Float32>)
    modifies file
    ensures var f := FortranRecord(file.contents, old(file.pos), 4, npoin);
      values == SwapFloats(RawFloats(npoin, f.payload)) && file.pos == f.next
  {
    var buf := new Float32[npoin](_ => ZeroQuad);
    var _, got := FortranRead(file, 4, npoin);
    var raw := RawFloats(npoin, got);
    forall i | 0 <= i < npoin {
      buf[i] := raw[i];
    }
    SwapFloatsInPlace(buf);
    values := buf[..];
  }

  /** The timestamp record of a timestep, read over the value prior and
      swapped. */
  method ReadStamp(file: Stream, prior: Float32) returns (stamp: Float32)
    modifies file
    ensures var f := FortranRecord(file.contents, old(file.pos), 4, 1);
      stamp == FloatSwap(Overlay(prior, f.payload)) && file.pos == f.next
  {
    var _, got := FortranRead(file, 4, 1);
    stamp := Overlay(prior, got);
    stamp := FloatSwap(stamp);
  }

  /** The loop over the variables of a timestep. */
  method ReadFieldRecords(file: Stream, npoin: nat, count: nat) returns (data: seq<seq<Float32>>)
    modifies file
    ensures Fields(data, file.pos) == ReadFields(file.contents, old(file.pos), npoin, count)
  {
    ghost var start := file.pos;
    data := [];
    var j := 0;
    while j < count
      invariant 0 <= j <= count
      invariant ReadFields(file.contents, start, npoin, j) == Fields(data, file.pos)
      modifies file
    {
      var values := ReadValues(file, npoin);
      data := data + [values];
      j := j + 1;
    }
  }

  /** The trailing-data probe of open_telemac: seek to the end of the last
      whole timestep and try to read one byte. */
  method ProbeTrailing(file: Stream, l: Layout) returns (trailing: bool)
    modifies file
    ensures trailing <==> TrailingData(file.contents, l)
  {
    var sought := file.Seek(DataEnd(l));
    var tmp := file.Read(1);
    trailing := |tmp| == 1;
  }

  /** resfile_t: the open file, the offsets of the mesh and of the results,
      the size of one timestep, and the fields of telemac_data_t. A NULL
      array of a fresh handle is an empty array. */
  class ResFile {
    const file: Stream
    var meshstart: nat
    var datastart: nat
    var datasize: nat

    var title: seq<byte>
    var format: seq<byte>
    var nbv1: u32
    var nbv2: u32
    var date: DateTime
    var varNames: seq<seq<byte>>
    const iparam: array<u32>
    var nelem: u32
    var npoin: u32
    var ndp: u32
    var ikle: array<u32>
    var ipobo: array<u32>
    var x: array<Float32>
    var y: array<Float32>
    const xyRange: array<Float32>
    var nt: u32
    var timestamp: array<Float32>
    var state: State

    ghost predicate Valid()
      reads this`nt, this`timestamp, this`meshstart
    {
      && iparam.Length == IparamCount
      && xyRange.Length == 4
      && timestamp.Length == nt as int
      && meshstart <= |file.contents|
    }

    /** The header fields of telemac_data_t, as a value. */
    function HeaderView(): (h: Header)
      reads this`title, this`format, this`nbv1, this`nbv2, this`date, this`varNames
      reads this`nelem, this`npoin, this`ndp, iparam
      ensures h.iparam == iparam[..]
    {
      Header(title, format, nbv1, nbv2, date, varNames, iparam[..], nelem, npoin, ndp)
    }

    /** fopen of a file and a zero-initialised handle. */
    constructor (contents: seq<byte>)
      ensures Valid() && fresh(file) && file.contents == contents && file.pos == 0
      ensures state == Uninitialised && HeaderView() == EmptyHeader()
      ensures meshstart == 0 && datastart == 0 && datasize == 0 && nt == 0
    {
      file := new Stream(contents);
      meshstart, datastart, datasize := 0, 0, 0;
      title, format := [], [];
      nbv1, nbv2 := 0, 0;
      date := NoDate;
      varNames := [];
      iparam := new u32[IparamCount](_ => 0);
      nelem, npoin, ndp := 0, 0, 0;
      ikle := new u32[0];
      ipobo := new u32[0];
      x := new Float32[0];
      y := new Float32[0];
      xyRange := new Float32[4](_ => ZeroQuad);
      nt := 0;
      timestamp := new Float32[0];
      state := Uninitialised;
    }

    /** One record of the header was read as o describes: return code,
        header fields and cursor as computed, every other field left alone. */
    twostate predicate StepEnds(new rc: int, new o: HeaderRead)
      reads this, iparam, file
    {
      && rc == o.rc && HeaderView() == o.hdr && file.pos == o.next
      && state == old(state) && meshstart == old(meshstart)
      && ikle == old(ikle) && ipobo == old(ipobo) && x == old(x) && y == old(y)
      && nt == old(nt) && timestamp == old(timestamp)
      && datastart == old(datastart) && datasize == old(datasize)
    }

    /** get_telemac_header: the header records from the start of the file;
        on success state 1 and meshstart at the cursor. */
    method GetTelemacHeader() returns (rc: int)
      requires Valid()
      modifies this, file, iparam
      ensures Valid()
      ensures var o := ReadHeader(file.contents, old(HeaderView()));
        rc == o.rc && HeaderView() == o.hdr && file.pos == o.next
      ensures state == (if rc == 0 then HeadersSet else old(state))
      ensures meshstart == (if rc == 0 then file.pos else old(meshstart))
      ensures ikle == old(ikle) && ipobo == old(ipobo) && x == old(x) && y == old(y)
      ensures nt == old(nt) && timestamp == old(timestamp)
      ensures datastart == old(datastart) && datasize == old(datasize)
    {
      var sought := file.Seek(0);
      rc := ReadTitleRecord();
      if rc != 0 {
        return;
      }
      rc := ReadRecordsAfterTitle();
      if rc != 0 {
        return;
      }
      MarkHeadersSet();
    }

    /** The end of a successful header step: state 1, and the mesh starts at
        the cursor. */
    method MarkHeadersSet()
      requires Valid() && file.pos <= |file.contents|
      modifies this
      ensures Valid()
      ensures state == HeadersSet && meshstart == file.pos
      ensures HeaderView() == old(HeaderView())
      ensures ikle == old(ikle) && ipobo == old(ipobo) && x == old(x) && y == old(y)
      ensures nt == old(nt) && timestamp == old(timestamp)
      ensures datastart == old(datastart) && datasize == old(datasize)
    {
      state := HeadersSet;
      meshstart := file.pos;
    }

    method ReadRecordsAfterTitle() returns (rc: int)
      requires Valid() && file.pos <= |file.contents|
      modifies this, file, iparam
      ensures Valid()
      ensures StepEnds(rc, AfterTitle(file.contents, old(file.pos), old(HeaderView())))
    {
      rc := ReadCountRecords();
      if rc != 0 {
        return;
      }
      ReadVarNameRecords();
      rc := ReadRecordsAfterNames();
    }

    method ReadRecordsAfterNames() returns (rc: int)
      requires Valid() && file.pos <= |file.contents|
      modifies this, file, iparam
      ensures Valid()
      ensures StepEnds(rc, AfterNames(file.contents, old(file.pos), old(HeaderView())))
    {
      rc := ReadIparamRecord();
      if rc != 0 {
        return;
      }
      rc := ReadRecordsAfterIparam();
    }

    method ReadRecordsAfterIparam() returns (rc: int)
      requires Valid() && file.pos <= |file.contents|
      modifies this, file, iparam
      ensures Valid()
      ensures StepEnds(rc, AfterIparam(file.contents, old(file.pos), old(HeaderView())))
    {
      if iparam[9] == 1 {
        rc := ReadDateRecord();
        if rc != 0 {
          return;
        }
      }
      rc := ReadR6Record();
    }

    /** R1: title and format, then the format check. */
    method ReadTitleRecord() returns (rc: int)
      requires Valid() && file.pos == 0
      modifies this, file
      ensures Valid()
      ensures StepEnds(rc, ReadTitle(file.contents, old(HeaderView())))
    {
      var rc1, payload := FortranRead(file, R1Size, 1);
      if rc1 != 1 {
        rc := -1;
        return;
      }
      FullCountFullPayload(file.contents, 0, R1Size, 1);
      var r1 := DecodeR1(payload);
      title := CString(r1.title, TitleSize - 1);
      format := CString(r1.format, FormatSize - 1);
      rc := if format != Serafin then -1 else 0;
    }

    /** R2, the numbers of variables. */
    method ReadCountRecords() returns (rc: int)
      requires Valid() && file.pos <= |file.contents|
      modifies this, file
      ensures Valid()
      ensures StepEnds(rc, ReadCounts(file.contents, old(file.pos), old(HeaderView())))
    {
      ghost var p2 := file.pos;
      var rc2, payload := FortranRead(file, R2Size, 1);
      if rc2 != 1 {
        rc := -2;
        return;
      }
      FullCountFullPayload(file.contents, p2, R2Size, 1);
      var r2 := DecodeR2(payload);
      nbv1, nbv2 := r2.nbv1, r2.nbv2;
      rc := 0;
    }

    /** The variable names, whose fortran_read results are not checked. */
    method ReadVarNameRecords()
      requires Valid() && file.pos <= |file.contents|
      modifies this, file
      ensures Valid()
      ensures StepEnds(0, ReadVarNames(file.contents, old(file.pos), old(HeaderView())))
    {
      varNames := ReadNameRecords(file, nbv1 as nat);
    }

    /** The IPARAM record, read into iparam and swapped in place. */
    method ReadIparamRecord() returns (rc: int)
      requires Valid() && file.pos <= |file.contents|
      modifies file, iparam
      ensures Valid()
      ensures StepEnds(rc, ReadIparam(file.contents, old(file.pos), old(HeaderView())))
    {
      var rc4, got := FortranRead(file, IparamSize, 1);
      var raw := Words(Overlay(WordBytes(iparam[..]), got));
      forall k | 0 <= k < IparamCount {
        iparam[k] := raw[k];
      }
      assert iparam[..] == raw;
      if rc4 != 1 {
        rc := -4;
        return;
      }
      SwapIntsInPlace(iparam);
      rc := 0;
    }

    /** R5, the date. */
    method ReadDateRecord() returns (rc: int)
      requires Valid() && file.pos <= |file.contents|
      modifies this, file
      ensures Valid()
      ensures StepEnds(rc, ReadDate(file.contents, old(file.pos), old(HeaderView())))
    {
      ghost var p5 := file.pos;
      var rc5, payload := FortranRead(file, R5Size, 1);
      if rc5 != 1 {
        rc := -5;
        return;
      }
      FullCountFullPayload(file.contents, p5, R5Size, 1);
      date := DecodeR5(payload);
      rc := 0;
    }

    /** R6; its field `one` is read and only reported when it is not 1. */
    method ReadR6Record() returns (rc: int)
      requires Valid() && file.pos <= |file.contents|
      modifies this, file
      ensures Valid()
      ensures StepEnds(rc, ReadR6(file.contents, old(file.pos), old(HeaderView())))
    {
      ghost var p6 := file.pos;
      var rc6, payload := FortranRead(file, R6Size, 1);
      if rc6 != 1 {
        rc := -6;
        return;
      }
      FullCountFullPayload(file.contents, p6, R6Size, 1);
      var r6 := DecodeR6(payload);
      nelem, npoin, ndp := r6.nelem, r6.npoin, r6.ndp;
      rc := 0;
    }

    /** The handle holds what the mesh step o left behind: the contents of
        every array it reached, XYrange once it was reset, and on success
        state 2 with the timestep layout and a zeroed timestamp array. */
    predicate MeshHolds(o: MeshRead)
      reads this, ikle, ipobo, x, y, xyRange, timestamp
    {
      && (o.ikle.Some? ==> ikle[..] == o.ikle.value)
      && (o.ipobo.Some? ==> ipobo[..] == o.ipobo.value)
      && (o.x.Some? ==> x[..] == o.x.value)
      && (o.y.Some? ==> y[..] == o.y.value)
      && (o.range.Some? ==> RangeIs(xyRange, o.range.value))
      && (o.layout.Some? ==>
            && state == MeshSet && Layout(datasize, nt, datastart) == o.layout.value
            && timestamp.Length == nt as int
            && (forall i :: 0 <= i < timestamp.Length ==> timestamp[i] == ZeroQuad))
    }

    /** What the mesh step o did not reach is left alone: the arrays it did
        not allocate, XYrange unless it was reset, and without a layout the
        timestamp array, nt, datasize and datastart. */
    twostate predicate MeshKeeps(new o: MeshRead)
      reads this, xyRange
    {
      && (o.ikle.None? ==> ikle == old(ikle))
      && (o.ipobo.None? ==> ipobo == old(ipobo))
      && (o.x.None? ==> x == old(x))
      && (o.y.None? ==> y == old(y))
      && (o.range.None? ==> unchanged(xyRange))
      && (o.layout.None? ==>
            && timestamp == old(timestamp)
            && datasize == old(datasize) && nt == old(nt) && datastart == old(datastart))
    }

    /** The mesh step ended as o describes: return code and cursor, what the
        handle holds, everything the step did not reach left alone, the
        state kept on failure, and the header fields and meshstart kept. */
    twostate predicate MeshEnds(new rc: int, new o: MeshRead)
      reads this, file, iparam, ikle, ipobo, x, y, xyRange, timestamp
    {
      && rc == o.rc && file.pos == o.next && MeshHolds(o) && MeshKeeps(o)
      && (o.layout.None? ==> state == old(state))
      && HeaderView() == old(HeaderView()) && meshstart == old(meshstart)
    }

    /** get_telemac_mesh: the mesh records from meshstart, then the timestep
        layout. Every array it reaches is newly allocated. */
    method GetTelemacMesh() returns (rc: int)
      requires Valid()
      modifies this, file, xyRange
      ensures Valid()
      ensures var o := ReadMesh(file.contents, old(file.pos), old(state), old(meshstart), old(HeaderView()));
        && MeshEnds(rc, o)
        && (o.ikle.Some? ==> fresh(ikle)) && (o.ipobo.Some? ==> fresh(ipobo))
        && (o.x.Some? ==> fresh(x)) && (o.y.Some? ==> fresh(y))
        && (o.layout.Some? ==> fresh(timestamp))
    {
      if state != HeadersSet {
        rc := -1;
        return;
      }
      rc := ReadIkleRecords();
    }

    /** IKLE, read from meshstart, and what follows it. */
    method ReadIkleRecords() returns (rc: int)
      requires Valid() && state == HeadersSet
      modifies this, file, xyRange
      ensures Valid()
      ensures var o := ReadIkle(file.contents, old(meshstart), old(HeaderView()));
        && MeshEnds(rc, o)
        && (o.ikle.Some? ==> fresh(ikle)) && (o.ipobo.Some? ==> fresh(ipobo))
        && (o.x.Some? ==> fresh(x)) && (o.y.Some? ==> fresh(y))
        && (o.layout.Some? ==> fresh(timestamp))
    {
      var sought := file.Seek(meshstart);
      var n := IkleCount(HeaderView());
      var t;
      t, ikle := ReadWordArray(file, n);
      if Unsigned(t) != n {
        rc := -1;
        return;
      }
      BoundaryShaped(file.contents, file.pos, HeaderView(), SwapWords(ikle[..]));
      rc := SwapIkleThenReadBoundary();
    }

    /** The swap loop over IKLE, then IPOBO and what follows it. */
    method SwapIkleThenReadBoundary() returns (rc: int)
      requires Valid() && state == HeadersSet && file.pos <= |file.contents|
      requires ikle.Length == IkleCount(HeaderView()) && ikle != iparam
      modifies this, file, ikle, xyRange
      ensures Valid() && ikle == old(ikle)
      ensures var o := ReadBoundary(file.contents, old(file.pos), old(HeaderView()), SwapWords(old(ikle[..])));
        && MeshEnds(rc, o)
        && (o.ipobo.Some? ==> fresh(ipobo)) && (o.x.Some? ==> fresh(x)) && (o.y.Some? ==> fresh(y))
        && (o.layout.Some? ==> fresh(timestamp))
    {
      SwapIntsInPlace(ikle);
      rc := ReadBoundaryRecords();
    }

    /** IPOBO and what follows it. */
    method ReadBoundaryRecords() returns (rc: int)
      requires Valid() && state == HeadersSet && file.pos <= |file.contents|
      requires ikle.Length == IkleCount(HeaderView())
      modifies this, file, xyRange
      ensures Valid() && ikle == old(ikle)
      ensures var o := ReadBoundary(file.contents, old(file.pos), old(HeaderView()), old(ikle[..]));
        && MeshEnds(rc, o)
        && (o.ipobo.Some? ==> fresh(ipobo)) && (o.x.Some? ==> fresh(x)) && (o.y.Some? ==> fresh(y))
        && (o.layout.Some? ==> fresh(timestamp))
    {
      var np := npoin as nat;
      var t;
      t, ipobo := ReadWordArray(file, np);
      if Unsigned(t) != np {
        rc := -2;
        return;
      }
      XShaped(file.contents, file.pos, HeaderView(), ikle[..], SwapWords(ipobo[..]));
      rc := SwapIpoboThenReadX();
    }

    /** The swap loop over IPOBO, then X and what follows it. */
    method SwapIpoboThenReadX() returns (rc: int)
      requires Valid() && state == HeadersSet && file.pos <= |file.contents|
      requires ikle.Length == IkleCount(HeaderView()) && ipobo.Length == npoin as int
      requires ipobo != iparam && ipobo != ikle
      modifies this, file, ipobo, xyRange
      ensures Valid() && ikle == old(ikle) && ipobo == old(ipobo)
      ensures var o := ReadX(file.contents, old(file.pos), old(HeaderView()), old(ikle[..]), SwapWords(old(ipobo[..])));
        && MeshEnds(rc, o)
        && (o.x.Some? ==> fresh(x)) && (o.y.Some? ==> fresh(y))
        && (o.layout.Some? ==> fresh(timestamp))
    {
      SwapIntsInPlace(ipobo);
      rc := ReadXRecords();
    }

    /** XYrange reset, X and what follows it. */
    method ReadXRecords() returns (rc: int)
      requires Valid() && state == HeadersSet && file.pos <= |file.contents|
      requires ikle.Length == IkleCount(HeaderView()) && ipobo.Length == npoin as int
      modifies this, file, xyRange
      ensures Valid() && ikle == old(ikle) && ipobo == old(ipobo)
      ensures var o := ReadX(file.contents, old(file.pos), old(HeaderView()), old(ikle[..]), old(ipobo[..]));
        && MeshEnds(rc, o)
        && (o.x.Some? ==> fresh(x)) && (o.y.Some? ==> fresh(y))
        && (o.layout.Some? ==> fresh(timestamp))
    {
      var np := npoin as nat;
      ResetRange(xyRange);
      var t;
      t, x := ReadFloatArray(file, np);
      if Unsigned(t) != np {
        rc := -3;
        return;
      }
      YShaped(file.contents, file.pos, HeaderView(), ikle[..], ipobo[..], SwapFloats(x[..]));
      rc := SwapXThenReadY();
    }

    /** The swap loop over X with its running bounds, then Y and what follows. */
    method SwapXThenReadY() returns (rc: int)
      requires Valid() && state == HeadersSet && file.pos <= |file.contents|
      requires ikle.Length == IkleCount(HeaderView()) && ipobo.Length == x.Length == npoin as int
      requires x != xyRange && RangeIs(xyRange, InitialRange)
      modifies this, file, x, xyRange
      ensures Valid() && ikle == old(ikle) && ipobo == old(ipobo) && x == old(x)
      ensures var o := ReadY(file.contents, old(file.pos), old(HeaderView()), old(ikle[..]), old(ipobo[..]), SwapFloats(old(x[..])));
        && MeshEnds(rc, o)
        && (o.y.Some? ==> fresh(y))
        && (o.layout.Some? ==> fresh(timestamp))
    {
      SwapTrackRange(x, xyRange, 0);
      rc := ReadYRecords();
    }

    /** Y, then the layout of the timesteps. */
    method ReadYRecords() returns (rc: int)
      requires Valid() && state == HeadersSet && file.pos <= |file.contents|
      requires ikle.Length == IkleCount(HeaderView()) && ipobo.Length == x.Length == npoin as int
      requires x != xyRange
      requires RangeIs(xyRange, InitialRange.(xmin := RunningMin(x[..], PosInf), xmax := RunningMax(x[..], NegInf)))
      modifies this, file, xyRange
      ensures Valid() && ikle == old(ikle) && ipobo == old(ipobo) && x == old(x)
      ensures var o := ReadY(file.contents, old(file.pos), old(HeaderView()), old(ikle[..]), old(ipobo[..]), old(x[..]));
        && MeshEnds(rc, o)
        && (o.y.Some? ==> fresh(y))
        && (o.layout.Some? ==> fresh(timestamp))
    {
      var np := npoin as nat;
      var t;
      t, y := ReadFloatArray(file, np);
      if Unsigned(t) != np {
        rc := -4;
        return;
      }
      SwapTrackRange(y, xyRange, 2);
      SetLayout();
      rc := 0;
    }

    /** The end of a successful mesh step: the size of a timestep, the number
        of whole timesteps between the cursor and the end of the file, a
        zeroed timestamp array of that length, state 2 and datastart at the
        cursor. */
    method SetLayout()
      requires Valid() && file.pos <= |file.contents|
      modifies this
      ensures Valid() && fresh(timestamp)
      ensures state == MeshSet && datastart == file.pos
      ensures Layout(datasize, nt, datastart) == LayoutAt(file.contents, HeaderView(), file.pos)
      ensures forall i :: 0 <= i < timestamp.Length ==> timestamp[i] == ZeroQuad
      ensures HeaderView() == old(HeaderView()) && meshstart == old(meshstart)
      ensures ikle == old(ikle) && ipobo == old(ipobo) && x == old(x) && y == old(y)
    {
      var layout := LayoutAt(file.contents, HeaderView(), file.pos);
      datasize, nt := layout.datasize, layout.nt;
      timestamp := new Float32[nt](_ => ZeroQuad);
      state := MeshSet;
      datastart := file.pos;
    }

    /** get_telemac_data for timestep t, with the index checked against nt
        before the timestamp slot is written. The timestamp is read over
        timestamp[t], then one array of npoin values per variable. */
    method GetTelemacData(t: int) returns (data: Option<seq<seq<Float32>>>)
      requires Valid()
      modifies file, timestamp
      ensures Valid()
      ensures !(state == MeshSet && 0 <= t < nt as int) ==>
        data == None && file.pos == old(file.pos) && timestamp[..] == old(timestamp[..])
      ensures state == MeshSet && 0 <= t < nt as int ==>
        var o := ReadTimestep(file.contents, TimestepOffset(datastart, datasize, t),
                              VarCount(HeaderView()), npoin as nat, old(timestamp[t]));
        && timestamp[t] == o.stamp
        && timestamp[..] == old(timestamp[..])[t := timestamp[t]]
        && data == Some(o.data) && file.pos == o.next
    {
      if state != MeshSet || !(0 <= t < nt as int) {
        return None;
      }
      var sought := file.Seek(TimestepOffset(datastart, datasize, t));
      var stamp := ReadStamp(file, timestamp[t]);
      timestamp[t] := stamp;
      var fields := ReadFieldRecords(file, npoin as nat, VarCount(HeaderView()));
      data := Some(fields);
    }

    /** open_telemac: the header, the mesh, then the check that the file ends
        with the last whole timestep. -1 and -2 report a failing header or
        mesh; 3 reports trailing bytes. */
    method OpenTelemac() returns (rc: int)
      requires Valid()
      modifies this, file, iparam, xyRange
      ensures Valid()
      ensures var ho := ReadHeader(file.contents, old(HeaderView()));
        && HeaderView() == ho.hdr
        && (rc == -1 <==> ho.rc != 0)
        && (ho.rc != 0 ==>
              && state == old(state) && meshstart == old(meshstart)
              && ikle == old(ikle) && ipobo == old(ipobo) && x == old(x) && y == old(y)
              && unchanged(xyRange)
              && timestamp == old(timestamp) && nt == old(nt)
              && datasize == old(datasize) && datastart == old(datastart))
        && (ho.rc == 0 ==>
              var mo := ReadMesh(file.contents, ho.next, HeadersSet, ho.next, ho.hdr);
              && meshstart == ho.next && MeshHolds(mo) && MeshKeeps(mo)
              && (mo.rc != 0 ==> state == HeadersSet)
              && (rc == -2 <==> mo.rc != 0)
              && (mo.rc == 0 ==>
                    && (rc == 3 <==> TrailingData(file.contents, mo.layout.value))
                    && (rc == 0 <==> !TrailingData(file.contents, mo.layout.value))))
      ensures rc in {0, -1, -2, 3}
      ensures rc >= 0 ==> state == MeshSet
    {
      var hr := GetTelemacHeader();
      if hr < 0 {
        rc := -1;
        return;
      }
      rc := MeshThenProbe();
    }

    /** The mesh step of open_telemac and, once it succeeded, the probe for
        bytes after the last whole timestep. */
    method MeshThenProbe() returns (rc: int)
      requires Valid() && state == HeadersSet
      modifies this, file, xyRange
      ensures Valid()
      ensures HeaderView() == old(HeaderView()) && meshstart == old(meshstart)
      ensures var mo := ReadMesh(file.contents, old(file.pos), HeadersSet, old(meshstart), old(HeaderView()));
        && MeshHolds(mo) && MeshKeeps(mo)
        && (mo.rc != 0 ==> state == HeadersSet)
        && (rc == -2 <==> mo.rc != 0)
        && (mo.rc == 0 ==>
              && (rc == 3 <==> TrailingData(file.contents, mo.layout.value))
              && (rc == 0 <==> !TrailingData(file.contents, mo.layout.value)))
      ensures rc in {0, -2, 3}
      ensures rc >= 0 ==> state == MeshSet
    {
      var mr := GetTelemacMesh();
      if mr < 0 {
        rc := -2;
        return;
      }
      ghost var mo := ReadMesh(file.contents, old(file.pos), HeadersSet, old(meshstart), old(HeaderView()));
      rc := ProbeAfterMesh(mo);
    }

    /** The trailing-data probe once the mesh step succeeded: only the
        cursor moves. */
    method ProbeAfterMesh(ghost mo: MeshRead) returns (rc: int)
      requires Valid() && state == MeshSet && MeshHolds(mo) && mo.layout.Some?
      modifies file
      ensures Valid() && state == MeshSet && MeshHolds(mo)
      ensures HeaderView() == old(HeaderView()) && meshstart == old(meshstart)
      ensures rc == 3 <==> TrailingData(file.contents, mo.layout.value)
      ensures rc == 0 <==> !TrailingData(file.contents, mo.layout.value)
    {
      var trailing := ProbeTrailing(file, Layout(datasize, nt, datastart));
      rc := if trailing then 3 else 0;
    }
  }
}
