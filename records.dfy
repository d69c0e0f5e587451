/** The SELAFIN record layouts and the reader's handle fields, as declared in
    telemac-loader.h.

    Each record struct is read whole by one fortran_read call: its payload is
    the struct's bytes in declaration order, four bytes per integer field, and
    the reader swaps every integer field after the read. */
module Records {
  import opened ByteOrder

  const TitleSize := 72
  const FormatSize := 8
  /** R1: the title followed by the format tag. */
  const R1Size := TitleSize + FormatSize
  /** R2: nbv_1 and nbv_2. */
  const R2Size := 2 * 4
  /** One variable name record. */
  const NameSize := 32
  /** The IPARAM record: ten integers. */
  const IparamCount := 10
  const IparamSize := IparamCount * 4
  /** R5: year, month, day, hour, minute, second. */
  const R5Size := 6 * 4
  /** R6: nelem, npoin, ndp, one. */
  const R6Size := 4 * 4
  /** telemac_data_t keeps the title and the format as NUL-terminated strings
      in buffers of these sizes. */
  const TitleBufSize := 73
  const FormatBufSize := 9

  datatype R1 = R1(title: seq<byte>, format: seq<byte>)
  datatype R2 = R2(nbv1: u32, nbv2: u32)
  datatype R5 = R5(year: u32, month: u32, day: u32, hour: u32, minute: u32, second: u32)
  /** datetime_t is R5. */
  type DateTime = R5
  datatype R6 = R6(nelem: u32, npoin: u32, ndp: u32, one: u32)

  const NoDate := R5(0, 0, 0, 0, 0, 0)

  /** The state code of telemac_data_t. */
  datatype State = Uninitialised | HeadersSet | MeshSet {
    function Code(): (c: int)
      ensures 0 <= c <= 2
      ensures c == 1 <==> this == HeadersSet
      ensures c == 2 <==> this == MeshSet
    {
      match this
      case Uninitialised => 0
      case HeadersSet => 1
      case MeshSet => 2
    }
  }

  /** The header part of telemac_data_t, as a value. Names are the 32-byte
      buffers the reader allocates, title and format the strings held in
      their NUL-terminated buffers. */
  datatype Header = Header(
    title: seq<byte>,
    format: seq<byte>,
    nbv1: u32,
    nbv2: u32,
    date: DateTime,
    varNames: seq<seq<byte>>,
    iparam: seq<u32>,
    nelem: u32,
    npoin: u32,
    ndp: u32)

  /** The zero-initialised header of a fresh handle. */
  function EmptyHeader(): (h: Header)
    ensures |h.iparam| == IparamCount && h.varNames == []
  {
    Header([], [], 0, 0, NoDate, [], seq(IparamCount, _ => 0), 0, 0, 0)
  }

  // ---------------------------------------------------------------------------
  // Decoding a payload: fread into the struct, then int_swap on every field.

  function DecodeR1(p: seq<byte>): (r: R1)
    requires |p| == R1Size
    ensures |r.title| == TitleSize && |r.format| == FormatSize
    ensures r.title + r.format == p
  {
    R1(p[..TitleSize], p[TitleSize..])
  }

  function DecodeR2(p: seq<byte>): R2
    requires |p| == R2Size
  {
    var w := SwapWords(Words(p));
    R2(w[0], w[1])
  }

  function DecodeR5(p: seq<byte>): R5
    requires |p| == R5Size
  {
    var w := SwapWords(Words(p));
    R5(w[0], w[1], w[2], w[3], w[4], w[5])
  }

  function DecodeR6(p: seq<byte>): R6
    requires |p| == R6Size
  {
    var w := SwapWords(Words(p));
    R6(w[0], w[1], w[2], w[3])
  }

  // ---------------------------------------------------------------------------
  // Encoding a record's payload as a big-endian writer stores it.

  function EncodeR1(r: R1): (p: seq<byte>)
    requires |r.title| == TitleSize && |r.format| == FormatSize
    ensures |p| == R1Size
  {
    r.title + r.format
  }

  function EncodeR2(r: R2): (p: seq<byte>)
    ensures |p| == R2Size
  {
    DiskWords([r.nbv1, r.nbv2])
  }

  function EncodeR5(r: R5): (p: seq<byte>)
    ensures |p| == R5Size
  {
    DiskWords([r.year, r.month, r.day, r.hour, r.minute, r.second])
  }

  function EncodeR6(r: R6): (p: seq<byte>)
    ensures |p| == R6Size
  {
    DiskWords([r.nelem, r.npoin, r.ndp, r.one])
  }

  /** Every record decodes to the fields it was written from. */
  lemma {:induction false} RecordsRoundTrip(r1: R1, r2: R2, r5: R5, r6: R6)
    requires |r1.title| == TitleSize && |r1.format| == FormatSize
    ensures DecodeR1(EncodeR1(r1)) == r1
    ensures DecodeR2(EncodeR2(r2)) == r2
    ensures DecodeR5(EncodeR5(r5)) == r5
    ensures DecodeR6(EncodeR6(r6)) == r6
  {
    DecodeDiskWords([r2.nbv1, r2.nbv2]);
    DecodeDiskWords([r5.year, r5.month, r5.day, r5.hour, r5.minute, r5.second]);
    DecodeDiskWords([r6.nelem, r6.npoin, r6.ndp, r6.one]);
  }

  // ---------------------------------------------------------------------------
  // Strings

  /** What `snprintf(dst, limit + 1, "%s", buf)` leaves in dst: the bytes of buf
      up to its first NUL, at most limit of them. */
  function CString(buf: seq<byte>, limit: nat): (r: seq<byte>)
    requires limit < |buf|
    ensures |r| <= limit
    ensures r == buf[..|r|]
    ensures forall i :: 0 <= i < |r| ==> r[i] != 0
    ensures |r| < limit ==> buf[|r|] == 0
    decreases limit
  {
    if limit == 0 || buf[0] == 0 then [] else [buf[0]] + CString(buf[1..], limit - 1)
  }

  /** The string "SERAFIN", in ASCII. */
  const Serafin: seq<byte> := [0x53, 0x45, 0x52, 0x41, 0x46, 0x49, 0x4E]

  /** The format check of the header decoder: the tag is copied with a bound
      of 8 (seven characters and the NUL) and compared with "SERAFIN". */
  predicate FormatAccepted(tag: seq<byte>)
    requires |tag| == FormatSize
  {
    CString(tag, FormatSize - 1) == Serafin
  }

  /** A tag is accepted exactly when its first seven bytes spell "SERAFIN";
      the eighth byte is never looked at. */
  lemma FormatAcceptedIff(tag: seq<byte>)
    requires |tag| == FormatSize
    ensures FormatAccepted(tag) <==> tag[..7] == Serafin
  {
  }

  /** The standard tag "SERAFIN " is accepted, and so are "SERAFIND" (the
      double-precision variant) and "SERAFIN2". */
  lemma TagsAccepted()
    ensures FormatAccepted(Serafin + [0x20])
    ensures FormatAccepted(Serafin + [0x44])
    ensures FormatAccepted(Serafin + [0x32])
  {
    FormatAcceptedIff(Serafin + [0x20]);
    FormatAcceptedIff(Serafin + [0x44]);
    FormatAcceptedIff(Serafin + [0x32]);
  }

  /** "SERAFI" followed by a NUL is refused: the comparison stops at the NUL. */
  lemma ShortTagRefused()
    ensures !FormatAccepted(Serafin[..6] + [0, 0x4E])
  {
    FormatAcceptedIff(Serafin[..6] + [0, 0x4E]);
  }
}
