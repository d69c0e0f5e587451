# SELAFIN decoder model

This project models the decoder of the TELEMAC results reader, `telemac-loader.c` with the
declarations of `telemac-loader.h`. SELAFIN files hold single-precision results.

- **Records.** Each file is a sequence of Fortran sequential-unformatted records. A record is a 4-byte
  marker, a payload and a second 4-byte marker. Every number is stored big-endian.
- **Header.** The reader first reads the title and format tag (R1). Then come the two variable counts
  (R2), `nbv_1` variable names of 32 bytes each, the ten IPARAM integers, and an optional date (R5). The
  date is present exactly when `iparam[9] == 1`. Last come the mesh sizes (R6).
- **Mesh.** Next are the mesh arrays IKLE, IPOBO, X and Y.
- **Timesteps.** The rest of the file is a run of timesteps. Each timestep is one timestamp followed by
  `nbv_1 + nbv_2` arrays of `npoin` floats.

The open file is an immutable byte sequence with a cursor: the class `Framing.Stream`. `fseeko`,
`fread` and `ftello` become `Seek`, `Read` and the field `pos`. A short read copies only the bytes that
exist, and the rest of the destination keeps its old contents. This matters for the marker buffers
(zero-initialised) and for the `calloc`ed arrays.

The handle `resfile_t` with its `telemac_data_t` is the class `Loader.ResFile`. The arrays it fills in
place (`iparam`, `ikle`, `ipobo`, `X`, `Y`, `XYrange`, `timestamp`) are Dafny arrays. Each stage
method is proved to leave exactly the state that a pure function in module `Decoder` computes from the
file contents and the previous state. Those functions are specified in their own right. Module
`WellFormed` then proves round trips: for every well-formed file a writer can produce, the decoder
returns the header, mesh, layout and timesteps that were written, as the reader's bounded copies make
of them. The title is cut to at most 71 bytes before its first NUL, and the tag to at most 7. Each name
gets its 32nd byte set to NUL. The date is kept only when `iparam[9] == 1`.

Modules:

- `ByteOrder`: bytes, `uint32_t` and floats as 4-byte patterns on a little-endian host; `int_swap` and
  `float_swap`.
- `FloatOrder`: the C `<` on single-precision bit patterns, NaN included; the running minimum and
  maximum.
- `Records`: the R1/R2/R5/R6 layouts, the state codes, the header fields of `telemac_data_t`, the
  bounded copy of the title and format, and the format check.
- `Framing`: the stream and `fortran_read`.
- `Decoder`: the header, mesh and timestep readers as functions of the file contents, the layout
  arithmetic and the trailing-data test.
- `Loader`: the handle and the four entry points `open_telemac`, `get_telemac_header`,
  `get_telemac_mesh` and `get_telemac_data`.
- `Blocks` and `WellFormed`: the bytes a writer produces for a consistent file, and the round-trip
  lemmas.

Integer widths are modelled where they matter:

- `nbv_1 + nbv_2` and `nelem * ndp` are `uint32_t` sums and products that wrap modulo 2^32.
- `nt` is stored in a `uint32_t`.
- A `fortran_read` result is compared with an unsigned count after conversion (`Decoder.Unsigned`).
  The -1 of a marker mismatch becomes 0xFFFFFFFF, so a record of 0xFFFFFFFF items whose markers differ
  passes the check. The model follows the code here (`Decoder.CountAccepted`,
  `Decoder.IkleMismatchPasses`).

The header check follows the code rather than the prose description of the format. `snprintf` copies
at most seven characters of the 8-byte tag before `strcmp` with "SERAFIN". So a tag such as "SERAFIN2"
or "SERAFIND" is accepted, not refused (`Records.TagsAccepted`). The doc comment of `open_telemac`
(telemac-loader.c:108-109) says the reader will not open double-precision files. Yet the
double-precision tag "SERAFIND" passes the check, and the model follows the code.

Likewise, the timestep reader does not fail on a framing mismatch or a short read, because the code
ignores those `fortran_read` results (telemac-loader.c:477, :498). The model reproduces that. The
timestamp is read over its old value `timestamp[t]` (telemac-loader.c:477), so after a short read its
missing bytes keep what that slot held. Each field array is a fresh zeroed buffer
(telemac-loader.c:492), so after a short read its missing values are swapped zero bytes.

## Model

| member | source | states |
|---|---|---|
| ByteOrder.IntSwap | telemac-loader.c:33-51 | byte k of the result, as the host stores it, is byte 3 - k of the input |
| ByteOrder.FloatSwap | telemac-loader.c:53-71 | byte k of the result is byte 3 - k of the input bit pattern |
| ByteOrder.IntSwapInvolutive | telemac-loader.c:33-51 | swapping an integer twice gives it back |
| ByteOrder.FloatSwapInvolutive | telemac-loader.c:53-71 | swapping a float twice gives back the same bit pattern |
| ByteOrder.SwapOfRawIsBigEndian | telemac-loader.c:33-51 | swapping the integer a little-endian host reads from four file bytes gives their big-endian value |
| ByteOrder.LeValueOfBytes | telemac-loader.c:33-51 | the bytes of a `uint32_t` in host memory read back as the same value |
| ByteOrder.LeBytesOfValue | telemac-loader.c:33-51 | any four memory bytes are the host bytes of the value they hold |
| ByteOrder.LeValueInjective | telemac-loader.c:33-51 | two memory quads hold the same value if and only if they are equal |
| ByteOrder.BeValueOfBytes | telemac-loader.c:33-51 | the big-endian bytes of a value decode back to it |
| ByteOrder.SwapWords | telemac-loader.c:317-319 | a swapped array has the same length, and each element is the swap of the element at the same index |
| ByteOrder.SwapFloats | telemac-loader.c:499-501 | a swapped float array has the same length, and each element is the swap of the element at the same index |
| ByteOrder.WordsOfWordBytes | telemac-loader.c:230-233 | reading back the memory image of an integer array gives the array |
| ByteOrder.DecodeDiskWords | telemac-loader.c:316-319 | integers written big-endian, read on the host and swapped, are the integers written |
| ByteOrder.DecodeDiskFloats | telemac-loader.c:362-364 | floats written big-endian, read and swapped, are the bit patterns written |
| FloatOrder.KeyRange | telemac-loader.c:357-360 | the infinities are not NaN, and every non-NaN float lies between them in the order of `<` |
| FloatOrder.LessIsStrictOrder | telemac-loader.c:365-371 | `<` on floats is irreflexive, asymmetric and transitive, and total on non-NaN values up to equal keys |
| FloatOrder.RunningMinIsLowerBound | telemac-loader.c:363-368 | the running minimum is not NaN, is at most the start and every non-NaN element, and is the start or an element |
| FloatOrder.RunningMaxIsUpperBound | telemac-loader.c:369-372 | the running maximum is not NaN, is at least the start and every non-NaN element, and is the start or an element |
| FloatOrder.RunningMinAttained | telemac-loader.c:357-368 | starting from +INFINITY, when some element is not NaN, some element equals the minimum |
| FloatOrder.RunningMaxAttained | telemac-loader.c:357-372 | starting from -INFINITY, when some element is not NaN, some element equals the maximum |
| FloatOrder.AllNaNKeepsStart | telemac-loader.c:363-374 | when every element is NaN, no comparison succeeds and both bounds keep their start values |
| Records.State.Code | telemac-loader.h:110 | the state code is 0, 1 or 2; 1 exactly for headers set, 2 exactly for mesh set |
| Records.EmptyHeader | telemac-loader.h:84-112 | a fresh handle has ten IPARAM entries and no variable names |
| Records.DecodeR1 | telemac-loader.h:44-47 | an 80-byte R1 payload is a 72-byte title followed by an 8-byte tag, and their concatenation is the payload |
| Records.EncodeR1 | telemac-loader.h:44-47 | R1 occupies 80 bytes |
| Records.EncodeR2 | telemac-loader.h:50-53 | R2 occupies 8 bytes |
| Records.EncodeR5 | telemac-loader.h:56-63 | R5 occupies 24 bytes |
| Records.EncodeR6 | telemac-loader.h:69-74 | R6 occupies 16 bytes |
| Records.RecordsRoundTrip | telemac-loader.h:44-74 | decoding the encoding of R1, R2, R5 and R6 gives each record back |
| Records.CString | telemac-loader.c:175-176 | the copied string is the prefix of the buffer up to its first NUL, at most `limit` characters, and holds no NUL |
| Records.FormatAcceptedIff | telemac-loader.c:175-188 | the format check passes if and only if the first seven bytes of the tag spell SERAFIN |
| Records.TagsAccepted | telemac-loader.c:175-188 | the tags "SERAFIN ", "SERAFIND" and "SERAFIN2" all pass |
| Records.ShortTagRefused | telemac-loader.c:185-188 | a tag with a NUL before its seventh byte fails |
| Framing.Avail | telemac-loader.c:73-102 | a read returns at most n bytes, never past the end of the file, and nothing at or beyond it |
| Framing.AvailIsSlice | telemac-loader.c:89-93 | from inside the file, a read returns the file's own bytes from the cursor on: n of them when the file holds them, all that remain otherwise |
| Framing.Stream.constructor | telemac-loader.h:122 | an opened file is positioned at offset 0 |
| Framing.Stream.Seek | telemac-loader.c:167-171 | an absolute seek succeeds if and only if the offset is not negative, and only then moves the cursor |
| Framing.Stream.Read | telemac-loader.c:135-137 | a read returns the available bytes and advances the cursor by their number |
| Framing.MarkerValuesDiffer | telemac-loader.c:95-101 | comparing the markers as integers is the same as comparing their bytes |
| Framing.FortranRecord | telemac-loader.c:73-102 | the result is -1 or the number of whole items read; the payload is at most csize*num bytes; at end of file the result is 0 and the cursor stays |
| Framing.CompleteRecord | telemac-loader.c:73-102 | for a record wholly inside the file, the payload is the csize*num bytes after the start marker; the result is -1 exactly when the markers differ and num otherwise; the marker value never sets the length |
| Framing.MismatchRefused | telemac-loader.c:95-101 | differing markers always give -1 |
| Framing.FullCountFullPayload | telemac-loader.c:73-102 | a result equal to num means the whole payload was read |
| Framing.FortranRead | telemac-loader.c:73-102 | the method returns the result and payload and leaves the cursor where `FortranRecord` says |
| Framing.Framed | telemac-loader.c:73-102 | a framed payload is 8 bytes longer than the payload |
| Framing.ReadFramed | telemac-loader.c:73-102 | reading a record that a writer framed gives num, the payload, and the cursor just after the end marker |
| Decoder.Unsigned | telemac-loader.c:316 | the unsigned conversion lies below 2^32 and keeps values that already fit |
| Decoder.VarCount | telemac-loader.c:490 | `nbv_1 + nbv_2` is below 2^32 and is the true sum when that does not wrap |
| Decoder.IkleCount | telemac-loader.c:310-316 | `nelem * ndp` is below 2^32 |
| Decoder.DataSize | telemac-loader.c:429 | a timestep is at least 12 bytes |
| Decoder.CountsAsProducts | telemac-loader.c:429 | `datasize = 12 + (nbv_1 + nbv_2) * (4 * npoin + 8)`, and `nelem * ndp` is the product when it does not wrap |
| Decoder.TimesIsProduct | telemac-loader.c:429 | the stride product used by the layout is ordinary multiplication |
| Decoder.QuotientIsDiv | telemac-loader.c:430 | the timestep count is ordinary truncating division |
| Decoder.NameBuffer | telemac-loader.c:215-221 | a name buffer is 32 bytes and its last byte is NUL |
| Decoder.ReadNames | telemac-loader.c:214-225 | the name loop yields exactly nbv_1 names of 32 bytes, each ending in NUL, and stays inside the file |
| Decoder.ReadHeader | telemac-loader.c:147-282 | the header result is 0, -1, -2, -4, -5 or -6; on success the format is SERAFIN and the title has fewer than 72 characters, none NUL |
| Decoder.ReadTitle | telemac-loader.c:173-188 | R1 gives 0 or -1; on 0 the format is SERAFIN and the title is bounded and NUL-free |
| Decoder.AfterTitle | telemac-loader.c:190-281 | the records after R1 give 0, -2, -4, -5 or -6 and leave the title and format alone |
| Decoder.AfterNames | telemac-loader.c:230-281 | the records after the names give 0, -4, -5 or -6 |
| Decoder.AfterIparam | telemac-loader.c:242-281 | the records after IPARAM give 0, -5 or -6 |
| Decoder.ReadCounts | telemac-loader.c:190-201 | R2 gives 0 or -2; every header field other than nbv_1 and nbv_2 is kept, and on -2 the header is unchanged |
| Decoder.CountsAreBigEndian | telemac-loader.c:190-201 | on 0, R2 was read whole, and nbv_1 and nbv_2 are the big-endian values of its two four-byte words |
| Decoder.ReadVarNames | telemac-loader.c:214-225 | the name loop always succeeds; its reads are not checked |
| Decoder.ReadIparam | telemac-loader.c:230-240 | IPARAM gives 0 or -4 and keeps ten entries |
| Decoder.ReadDate | telemac-loader.c:242-258 | R5 gives 0 or -5 |
| Decoder.ReadR6 | telemac-loader.c:260-277 | R6 gives 0 or -6 and advances the cursor within the file; `one` other than 1 is not an error |
| Decoder.HeaderNeedsSerafin | telemac-loader.c:173-188 | a successful header read R1 whole, and its tag passes the format check |
| Decoder.LayoutAt | telemac-loader.c:429-442 | the layout's stride is `DataSize` and its data start is the cursor after Y |
| Decoder.LayoutAtQuotient | telemac-loader.c:430 | `nt = ((size - datastart) / datasize) mod 2^32` |
| Decoder.RawWords | telemac-loader.c:310-316 | a zeroed array of n integers after a read holds n integers |
| Decoder.RawFloats | telemac-loader.c:350-362 | a zeroed array of n floats after a read holds n floats |
| Decoder.ReadMesh | telemac-loader.c:286-302 | outside state 1 the mesh step returns -1 and changes nothing; it returns 0 or -1 to -4, and succeeds exactly when it fixes a layout |
| Decoder.ReadIkle | telemac-loader.c:304-329 | the step from IKLE on returns 0 or -1 to -4, and succeeds exactly when it fixes a layout |
| Decoder.ReadBoundary | telemac-loader.c:331-348 | the step from IPOBO on returns 0, -2, -3 or -4, and succeeds exactly when it fixes a layout |
| Decoder.ReadX | telemac-loader.c:350-382 | the step from X on returns 0, -3 or -4, and succeeds exactly when it fixes a layout |
| Decoder.ReadY | telemac-loader.c:384-442 | the step from Y on returns 0 or -4, and succeeds exactly when it fixes a layout |
| Decoder.MeshShaped | telemac-loader.c:284-444 | the mesh step returns 0 to -4; every array it allocates has its declared length (`nelem*ndp` or `npoin`); on success XYrange holds the running bounds of X and Y and the layout is the one at the cursor |
| Decoder.BoundaryShaped | telemac-loader.c:331-444 | the same from IPOBO on, with IKLE kept |
| Decoder.XShaped | telemac-loader.c:350-444 | the same from X on, with IKLE and IPOBO kept |
| Decoder.YShaped | telemac-loader.c:384-444 | the same from Y on, with IKLE, IPOBO and X kept |
| Decoder.CountAccepted | telemac-loader.c:316 | a `fortran_read` result equal to the unsigned count n means all n items were read and the payload is exactly their bytes, except for the -1 of differing markers when n is 0xFFFFFFFF |
| Decoder.IkleAccepted | telemac-loader.c:310-329 | the mesh step gets past IKLE only when all nelem*ndp integers were read (or in the 0xFFFFFFFF case); IKLE is then the swapped record contents and the step goes on with IPOBO after the record |
| Decoder.BoundaryAccepted | telemac-loader.c:331-348 | the step gets past IPOBO only when all npoin integers were read (or in the 0xFFFFFFFF case); IPOBO is the swapped record contents and the step goes on with X after it |
| Decoder.XAccepted | telemac-loader.c:350-382 | the step gets past X only when all npoin floats were read (or in the 0xFFFFFFFF case); X is the swapped record contents and the step goes on with Y after it |
| Decoder.YAccepted | telemac-loader.c:384-442 | the step succeeds only when all npoin floats of Y were read (or in the 0xFFFFFFFF case); Y is the swapped record contents and the layout is taken right after the record |
| Decoder.IkleMismatchPasses | telemac-loader.c:316 | with nelem*ndp equal to 0xFFFFFFFF, an IKLE record whose markers differ is not refused, and the step goes on with IPOBO after it |
| Decoder.AxisBounds | telemac-loader.c:357-408 | the running bounds enclose every non-NaN coordinate and are attained when one exists; with only NaNs they stay at +INFINITY and -INFINITY |
| Decoder.MeshBoundingBox | telemac-loader.c:357-408 | after a successful mesh step every non-NaN X lies in [XYrange[0], XYrange[1]] and every non-NaN Y in [XYrange[2], XYrange[3]]; each bound is attained |
| Decoder.TimestepsFit | telemac-loader.c:429-430 | the nt timesteps end within the file; when nt does not wrap, fewer than datasize bytes follow them |
| Decoder.TrailingIffRemainder | telemac-loader.c:128-142 | when nt does not wrap, bytes remain after the last timestep exactly when datasize does not divide the data length |
| Decoder.ReadFields | telemac-loader.c:490-502 | a timestep yields nbv_1 + nbv_2 arrays of npoin values |
| Decoder.TimestepOffset | telemac-loader.c:471 | timestep t starts at or after datastart |
| Decoder.ReadTimestep | telemac-loader.c:471-502 | one timestep gives nvars arrays of npoin floats |
| Decoder.UncheckedSlotWrite | telemac-loader.c:466-478 | for a file that ends after its mesh, nt is 0, yet the source's guards let it write timestamp[0], and timestamp[-1] for t = nt - 1 |
| Loader.SwapIntsInPlace | telemac-loader.c:317-319 | the array afterwards is the element-wise swap of the array before |
| Loader.SwapFloatsInPlace | telemac-loader.c:499-501 | the float array afterwards is the element-wise swap of the array before |
| Loader.SwapTrackRange | telemac-loader.c:363-374 | the coordinates are swapped in place; XYrange[k] and XYrange[k+1] become the running minimum and maximum of the swapped values; the other entries stay |
| Loader.ReadNameRecords | telemac-loader.c:214-222 | the names and cursor are those of `ReadNames` |
| Loader.ResetRange | telemac-loader.c:357-360 | XYrange becomes {INFINITY, -INFINITY, INFINITY, -INFINITY} |
| Loader.ReadWordArray | telemac-loader.c:310-316 | a new zeroed array with one record read into it, together with the `fortran_read` result and cursor |
| Loader.ReadFloatArray | telemac-loader.c:350-362 | the same for floats |
| Loader.ReadValues | telemac-loader.c:492-501 | one field array is the swapped contents of a zeroed buffer after the read |
| Loader.ReadStamp | telemac-loader.c:477-478 | the timestamp is read over its old value and swapped |
| Loader.ReadFieldRecords | telemac-loader.c:490-502 | the field arrays and cursor are those of `ReadFields` |
| Loader.ProbeTrailing | telemac-loader.c:128-142 | the probe reports a byte exactly when the file extends past `datastart + datasize*nt` |
| Loader.ResFile.constructor | telemac-loader.h:121-127 | a new handle is in state 0, its header fields are zero, its offsets are 0, and the file is at offset 0 |
| Loader.ResFile.GetTelemacHeader | telemac-loader.c:147-282 | the return code, header fields and cursor are those of `ReadHeader`; on 0 the state becomes 1 and meshstart the cursor; the mesh arrays, nt, timestamps and data offsets are left alone |
| Loader.ResFile.MarkHeadersSet | telemac-loader.c:279-280 | the state becomes 1 and meshstart the cursor |
| Loader.ResFile.ReadRecordsAfterTitle | telemac-loader.c:190-281 | the fields and cursor are as `AfterTitle` computes |
| Loader.ResFile.ReadRecordsAfterNames | telemac-loader.c:230-281 | the fields and cursor are as `AfterNames` computes |
| Loader.ResFile.ReadRecordsAfterIparam | telemac-loader.c:242-281 | the date record is read only when iparam[9] == 1, then R6, as `AfterIparam` computes |
| Loader.ResFile.ReadTitleRecord | telemac-loader.c:173-188 | the title, format and result are as `ReadTitle` computes |
| Loader.ResFile.ReadCountRecords | telemac-loader.c:190-201 | the counts and result are as `ReadCounts` computes |
| Loader.ResFile.ReadVarNameRecords | telemac-loader.c:214-225 | the names are as `ReadVarNames` computes |
| Loader.ResFile.ReadIparamRecord | telemac-loader.c:230-240 | IPARAM is filled and swapped in place as `ReadIparam` computes |
| Loader.ResFile.ReadDateRecord | telemac-loader.c:242-258 | the date and result are as `ReadDate` computes |
| Loader.ResFile.ReadR6Record | telemac-loader.c:260-277 | nelem, npoin, ndp and the result are as `ReadR6` computes |
| Loader.ResFile.GetTelemacMesh | telemac-loader.c:284-444 | the return code, cursor, every array reached (newly allocated), XYrange, and on success state 2, the layout and a zeroed timestamp array are as `ReadMesh` computes; header fields and meshstart stay |
| Loader.ResFile.ReadIkleRecords | telemac-loader.c:304-329 | from meshstart, the mesh outcome is as `ReadIkle` computes |
| Loader.ResFile.SwapIkleThenReadBoundary | telemac-loader.c:317-348 | IKLE is swapped in place and the rest is as `ReadBoundary` computes |
| Loader.ResFile.ReadBoundaryRecords | telemac-loader.c:331-348 | the outcome is as `ReadBoundary` computes |
| Loader.ResFile.SwapIpoboThenReadX | telemac-loader.c:338-382 | IPOBO is swapped in place and the rest is as `ReadX` computes |
| Loader.ResFile.ReadXRecords | telemac-loader.c:350-382 | the outcome is as `ReadX` computes |
| Loader.ResFile.SwapXThenReadY | telemac-loader.c:363-408 | X is swapped with its bounds tracked and the rest is as `ReadY` computes |
| Loader.ResFile.ReadYRecords | telemac-loader.c:384-442 | the outcome is as `ReadY` computes |
| Loader.ResFile.SetLayout | telemac-loader.c:429-442 | datasize and nt are those of `LayoutAt` at the cursor; timestamp is a new zeroed array; state 2; datastart the cursor |
| Loader.ResFile.GetTelemacData | telemac-loader.c:446-504 | outside state 2 or for t outside [0, nt) nothing changes and no data is returned; otherwise it reads at `datastart + t*datasize`, whatever the cursor was, writes only timestamp[t], and returns the nbv_1 + nbv_2 arrays of `ReadTimestep` |
| Loader.ResFile.OpenTelemac | telemac-loader.c:104-145 | the header fields are those of `ReadHeader`, and the result is -1 exactly when it fails, with the state, meshstart, the mesh arrays, XYrange, timestamp, nt, datasize and datastart unchanged; otherwise meshstart is the cursor after the header, the handle holds what `ReadMesh` leaves (the arrays it reached, XYrange, and on success state 2, the layout and a zeroed timestamp array of nt entries) and leaves alone what it did not reach, and the result is -2 exactly when the mesh fails, with the state still 1; otherwise 3 exactly when bytes follow the last whole timestep and 0 exactly when none do |
| Loader.ResFile.MeshThenProbe | telemac-loader.c:123-144 | header fields and meshstart stay; the handle holds what `ReadMesh` leaves, and what it did not reach (arrays, XYrange, and on failure timestamp, nt, datasize and datastart) is left alone; -2 exactly when the mesh fails, with the state still 1; otherwise 3 or 0 as the trailing-data probe says |
| Loader.ResFile.ProbeAfterMesh | telemac-loader.c:128-142 | after a successful mesh step only the cursor moves; 3 exactly when bytes follow the last whole timestep, 0 exactly when none do |
| WellFormed.ReadRecordAt | telemac-loader.c:73-102 | a record a writer framed reads back as num items with its payload |
| WellFormed.WordsDecoded | telemac-loader.c:316-319 | integers written to disk, read into a zeroed array and swapped, are the integers written |
| WellFormed.FloatsDecoded | telemac-loader.c:362-364 | floats written to disk, read and swapped, are the floats written |
| WellFormed.ReadWordsAt | telemac-loader.c:316-319 | a framed integer record in the file decodes to its integers |
| WellFormed.ReadFloatsAt | telemac-loader.c:362-364 | a framed float record in the file decodes to its floats |
| WellFormed.NameBuffersKeepNames | telemac-loader.c:220-221 | a stored name is the written 32 bytes with the last one set to NUL |
| WellFormed.ReadNamesAt | telemac-loader.c:214-225 | written names read back as their NUL-terminated buffers, and the cursor ends after them |
| WellFormed.ReadTitleOf | telemac-loader.c:173-188 | a written R1 gives the bounded title and tag, and 0 exactly when the tag passes the check |
| WellFormed.ReadCountsOf | telemac-loader.c:190-225 | written counts and names read back as written |
| WellFormed.ReadIparamOf | telemac-loader.c:230-277 | written IPARAM, date and R6 read back; the date is taken only when iparam[9] == 1 |
| WellFormed.HeaderChain | telemac-loader.c:147-282 | successful stages compose into a successful header read |
| WellFormed.HeaderRoundTrip | telemac-loader.c:147-282 | the header of a well-formed file with an accepted tag decodes to what was written, ending where the mesh begins |
| WellFormed.HeaderTagRefused | telemac-loader.c:185-188 | a well-formed file whose tag fails the check is refused with -1 |
| WellFormed.IkleStep | telemac-loader.c:310-329 | a written IKLE record moves the mesh step on to IPOBO with the written values |
| WellFormed.BoundaryStep | telemac-loader.c:331-348 | a written IPOBO record moves the mesh step on to X |
| WellFormed.XStep | telemac-loader.c:350-382 | a written X record moves the mesh step on to Y |
| WellFormed.YStep | telemac-loader.c:384-442 | a written Y record ends the mesh step with the written arrays, their bounds and the layout |
| WellFormed.MeshRecordsHold | telemac-loader.c:310-408 | the four mesh records of a written mesh each hold their written values |
| WellFormed.MeshChain | telemac-loader.c:304-442 | four records in a row decode to the written mesh |
| WellFormed.MeshRoundTrip | telemac-loader.c:284-444 | a written mesh decodes to its IKLE, IPOBO, X and Y with their bounds, and the layout at its end |
| WellFormed.FieldsStep | telemac-loader.c:490-502 | one more written field array extends the decoded fields by that array |
| WellFormed.ReadFieldsAt | telemac-loader.c:490-502 | written field arrays decode to themselves, in declared order |
| WellFormed.StepRoundTrip | telemac-loader.c:471-502 | a written timestep decodes to its timestamp and fields and ends one stride later |
| WellFormed.FieldsBytesLength | telemac-loader.c:429 | the fields of a timestep take `nvars * (4*npoin + 8)` bytes |
| WellFormed.StepsLength | telemac-loader.c:429-430 | k written timesteps take k strides |
| WellFormed.DataSizeIsStepSize | telemac-loader.c:429 | the computed datasize is the size of a written timestep |
| WellFormed.LayoutOfLength | telemac-loader.c:429-430 | a file whose data is exactly n strides has nt = n mod 2^32 |
| WellFormed.TrailingOfLength | telemac-loader.c:128-142 | such a file has no trailing bytes exactly when n fits in nt |
| WellFormed.FileLayoutIs | telemac-loader.c:429-442 | the layout decoded from a well-formed file is the one it was written with |
| WellFormed.FileTrailing | telemac-loader.c:128-142 | a well-formed file is reported with trailing data only when its timestep count overflows `uint32_t` |
| WellFormed.FileRoundTrip | telemac-loader.c:104-145 | opening a well-formed file decodes its header and mesh as written and fixes its layout; trailing data only on nt overflow |
| WellFormed.StepInFile | telemac-loader.c:471 | timestep t of a written file starts at `datastart + t*datasize` |
| WellFormed.TimestepAt | telemac-loader.c:471-502 | reading timestep t of written data gives the timestep written at t |
| WellFormed.FileTimestep | telemac-loader.c:446-504 | in a well-formed file, timestep t read at its computed offset is the timestep written, whatever was read before |

## Left out

- `free_telemac_data` (telemac-loader.c:506-523) only releases memory. It has no counterpart in the model.
- Failures of `calloc`, `fstat`, `ftello` and the negative-offset case of `fseeko` are not modelled. `calloc` failure gives header code -3 and mesh codes -1 to -5; the model assumes allocation succeeds.
- Diagnostics are not modelled: `perror`, `fprintf` and the verbose printing.
- The file is a fixed byte sequence. Nothing else writes to it while it is open.
- Floats are bit patterns. `<` is modelled on those patterns with IEEE ordering, NaN compares false, and ±INFINITY are the usual patterns. No arithmetic is done on floats.
- The host is assumed little-endian, as the swaps in the code also assume.
- Decoder.DataSize: the `off_t` product is taken as exact, so a 64-bit overflow of `datasize` is not modelled.
- Framing.FortranRecord: fread counts are ints in the code, and a count of 2^31 items or more would truncate. The model takes the count as exact.
- `snprintf` in the title copy computes the length of its source string even past the 72 bytes. That over-read is not modelled; the copy itself is.
- Loader.ResFile.GetTelemacData: the source does not compare t with nt (see Findings). The model checks `0 <= t < nt` before it writes the timestamp slot. Inside that range it behaves as the source does.
- Timestep reads keep the code's behaviour and do not check the `fortran_read` results at telemac-loader.c:477 and :498. The variable-name reads at :220 are unchecked in the same way. None of these is claimed as checked.

## Findings

| source | as written | input that shows it | evidently intended | confidence | as-written member | corrected member |
|---|---|---|---|---|---|---|
| telemac-loader.c:466-478 | `get_telemac_data` checks only the state and the seek before it writes `timestamp[timestep]`. It never compares the index with `nt`. | A file that ends right after Y: the mesh step gives nt = 0 and a zero-length timestamp array. A call for timestep 0, or for nt - 1 = -1 as an int, still writes a slot. | Write and read only when `0 <= t < nt`, and return NULL otherwise. | not executed | Decoder.UncheckedSlotWrite | Loader.ResFile.GetTelemacData |
