# Verification of the encoder libraries' bit-level and bookkeeping logic

A Dafny model of the parts of this repository that compute something: the H.264
parameter-set codec and header rewriter, the strict bitrate window and key-frame
deferral, the chunk allocator, the reference ring addressing, the hardware
encoder's state machine, and the strided input copies. Run
`dafny verify dfyconfig.toml` to check it.

How the files build on each other:

- `CArithmetic` (C's division, shifts and widths), `Bits` (byte buffers as bit
  strings), `ByteAccess` (whole bytes as fields), `ExpGolomb` (the codes),
  `Syntax` (runs of syntax elements).
- `ScalingLists`, `Vui`, `Sps`, `Pps`: for each syntax structure the record, the
  elements its writer sends, the pure reader, and the round trip. `Unwritable` and
  `UnwritablePps` hold the other direction: which records do not come back.
- `SyntaxTables` takes the syntax tables of section 7.3.2 and Annex E.1 of H.264 to
  the pure readers: which bits of any bit string each field comes from, in numbers.
  The round trips carry this over to the writers.
- `BitStream` is the bit cursor as a class over a byte array; `ParameterSets`
  holds the readers and writers as methods over it. Each method is proved
  against the pure functions, so the round trips hold for the loops.
- `Rbsp`, `Emulation`: payload bytes and emulation prevention.
- `SpsEdit`, `HeaderRewrite`, `HeaderMeaning`: the edits, the in-place pipeline,
  and what its result means. `PpsEscapes` says which picture parameter sets need
  no escape byte and are kept; `EscapedPps` works out one that is not.
- `MultiEncoder`, `EncoderRuns`: the encoder handle as a class, and theorems over
  all runs of calls on it.
- `MemoryPool`, `ReferenceRing`, `HwEncoder`, `CanvasCopy`: one component each.

A record is called canonical when its absent fields hold what the reader leaves
there and the entries of its scaling lists are in 1..255. An element is called writable when a write followed by a read preserves it.

What the code does where that is not what its comments or the standard say:

- `bs_write_ue` shifts a 32-bit word by up to 62 places. The model takes the shift
  count modulo 32, as AArch64 and x86 do. Values above 65534 then survive only if
  v + 1 has enough trailing zeros; `UeRoundTrip` gives the exact set.
- The reader accepts deltas that make list entries below 0, which the writer cannot
  send (`ReaderNormalises`, `SpsRoundTripExactly`).
- The SPS writer sends 8 scaling lists where the reader expects 12 for
  chroma_format_idc 3 (`SpsRoundTripExactly`).
- The PPS writer drops an all-zero extension, which can change the inferred second
  chroma QP offset (`RewriteKeepsSecondOffset`, `ZeroExtensionIsDropped`).
- The header rewriter reads and writes the PPS without unescaping and escaping it.
  Units without a place for an escape byte are kept (`PpsKeepsMeaning`), small records
  among them; a PPS with an escape byte can come out as another one
  (`EscapedPpsIsNotKept`).
- The strict bitrate check counts skipped pictures as size 0 and stops draining when
  the sum is used up, which leaves a wrong sum until a reset or a full history
  (`DrainExactly`, `SkippedPicturesUpsetTheSum`, `SumStaysShort`); the documentation's
  "last number of frames" is not what is used after the window grew late
  (`DecisionExactly`, `GrownWindowForgets`).
- `vl_multi_encoder_generate_header` takes the header for received whatever the
  hardware answers.
- A request for 0 bytes is given an address but no block
  (`ZeroSizeReservesNothing`).
- jpegenc.c copies an interleaved chroma plane of odd height by whole rows, or in one
  go with half a row more (`HalfOfRows`).
- An IDR frame that is dropped resets the GOP counter all the same, so that the
  spacing of IDR frames breaks exactly then (`LostIdrExactly`,
  `DroppedIdrBreaksSpacing`).

## Model

| member | source | states |
|---|---|---|
| `BitStreams.BitStream.constructor` | multiEnc/amvenc_lib/include/bs.h:76-83 | A new cursor stands at the first bit of its part of the buffer, with nothing written yet. |
| `BitStreams.BitStream.Clone` | multiEnc/amvenc_lib/include/bs.h:97-104 | A clone stands at the same bit of the same buffer; its bits are those from the current byte on. |
| `BitStreams.BitStream.AtEof` | multiEnc/amvenc_lib/include/bs.h:111 | End of file is reached exactly when the bit position is at or behind the last bit. |
| `BitStreams.BitStream.ReadU1` | multiEnc/amvenc_lib/include/bs.h:119-151 | Reads the bit at the cursor, 0 past the end, moves on by one and leaves the buffer as it is. |
| `BitStreams.BitStream.ReadBits` | multiEnc/amvenc_lib/include/bs.h:153-162 | Or-ing bits into place from the top yields the u(n) value of section 7.2 of H.264. |
| `BitStreams.BitStream.ReadU8` | multiEnc/amvenc_lib/include/bs.h:175-186 | The optional one-byte short cut at a byte boundary (FAST_U8, compiled in if `_OPTIMIZE_BS_` is not 0) gives the u(8) value that the bit loop gives. |
| `BitStreams.BitStream.ReadUeCode` | multiEnc/amvenc_lib/include/bs.h:188-200 | The counting loop and the suffix read compute the pure ue(v) reader, in value and position, on every bit string. |
| `BitStreams.BitStream.WriteU1` | multiEnc/amvenc_lib/include/bs.h:217-231 | Sets exactly one bit of the buffer, none past the end, and changes no byte outside the cursor's part. |
| `BitStreams.BitStream.WriteBits` | multiEnc/amvenc_lib/include/bs.h:233-240 | Overwrites the next n bits with the digits that the shifts pick, the shift count taken modulo 32. |
| `BitStreams.BitStream.WriteU8` | multiEnc/amvenc_lib/include/bs.h:244-255 | The optional one-byte short cut at a byte boundary (FAST_U8) writes the same bits as the bit loop. |
| `BitStreams.BitStream.WriteUeCode` | multiEnc/amvenc_lib/include/bs.h:257-312 | Overwrites the next bits with what the length table and the bit loop make of v. |
| `BitStreams.BitStream.Put` | multiEnc/amvenc_lib/include/bs.h:217-324 | Writing one syntax element appends it to what was written before and touches nothing else. |
| `BitStreams.BitStream.GetAll` | multiEnc/amvenc_lib/include/bs.h:153-214 | Reading a run of descriptors one by one gives the values and the position of the pure run reader. |
| `ByteAccess.LowByteIsRemainder` | multiEnc/amvenc_lib/include/bs.h:244-251 | The byte that is stored for v is v modulo 256. |
| `ByteAccess.ReadOfByte` | multiEnc/amvenc_lib/include/bs.h:175-183 | A byte of the buffer, as a number, is the u(8) field at its place. |
| `ByteAccess.WriteOfByte` | multiEnc/amvenc_lib/include/bs.h:244-251 | Storing the low byte of v changes the bits as writing v as a u(8) field does. |
| `ExpGolomb.ReadUWritten` | multiEnc/amvenc_lib/include/bs.h:153-240 | A u(n) field of at most 32 bits that holds v reads back as v. |
| `ExpGolomb.UeBitsAreTheCode` | multiEnc/amvenc_lib/include/bs.h:257-312 | bs_write_ue emits the ue(v) code of section 9.1 of H.264 if and only if v + 1 has at most 16 digits or enough trailing zeros; other values lose bits to the 32-bit shift. |
| `ExpGolomb.ReadUeOfCode` | multiEnc/amvenc_lib/include/bs.h:188-200 | The ue(v) code of any v below 2^32 - 1 reads back as v, with the cursor right behind it. |
| `ExpGolomb.UeRoundTrip` | multiEnc/amvenc_lib/include/bs.h:188-312 | bs_write_ue followed by bs_read_ue gives v and the writer's end position if and only if v is one of those values. |
| `ExpGolomb.SmallUeIsWritable` | multiEnc/amvenc_lib/include/bs.h:257-312 | Every v below 65535 is one of those values. |
| `ExpGolomb.UeFailsAt65536` | multiEnc/amvenc_lib/include/bs.h:257-312 | 65536 is the first value that fails: it reads back as 0. |
| `ExpGolomb.EarlyOneFails` | multiEnc/amvenc_lib/include/bs.h:188-312 | Any other v below 2^32 - 1 reads back smaller, and the cursor ends too early. |
| `ExpGolomb.LateReadIsSmaller` | multiEnc/amvenc_lib/include/bs.h:188-312 | Started behind some of the zeros that are written in front of v, the reader finds a value below v, whether v was written right or not. |
| `ExpGolomb.SeMappingInverse` | multiEnc/amvenc_lib/include/bs.h:202-324 | The signed mapping of bs_read_se takes back that of bs_write_se for all values whose code number fits an int. |
| `SyntaxTables.SignedTable` | multiEnc/amvenc_lib/include/bs.h:202-214 | Code number 2k - 1 stands for k and 2k for -k, for every k of at least 1, and 0 for 0. |
| `Syntax.ElementRoundTrip` | multiEnc/amvenc_lib/include/bs.h:153-324 | A u(n), ue(v) or se(v) element reads back as itself, cursor included, for exactly the writable elements. |
| `Syntax.ReadAllWritten` | multiEnc/amvenc_lib/h264bitstream.c:268-367 | A run of writable elements at any bit position reads back as its values and leaves the cursor behind the run. |
| `Syntax.RunExactly` | multiEnc/amvenc_lib/h264bitstream.c:268-367 | Of a run of values that do not wrap around (no ue(v) of 2^32 - 1), all read back if and only if all are writable. |
| `Syntax.GroupRoundTrip` | multiEnc/amvenc_lib/h264bitstream.c:354-361 | A presence flag and its fields read back unchanged, whether set or not. |
| `ParameterSets.ReadScalingList` | multiEnc/amvenc_lib/h264bitstream.c:88-121 | The loop over lastScale and nextScale computes the pure list reader: entries, default flag and position. |
| `ParameterSets.WriteScalingList` | multiEnc/amvenc_lib/h264bitstream.c:123-154 | The loop sends exactly the delta_scale elements of the list. |
| `ScalingLists.ScalingListRoundTrip` | multiEnc/amvenc_lib/h264bitstream.c:88-154 | A list that is written and read back comes back unchanged, with or without regard to the cursor, if and only if its entries are in 1..255, or all 8 under the default flag. |
| `ScalingLists.ReaderNormalises` | multiEnc/amvenc_lib/h264bitstream.c:88-121 | On every bit string the reader yields entries in 1..255, or the default flag with all 8s, if and only if at each delta it meets lastScale + delta + 256 is not negative or is a multiple of 256. |
| `ScalingLists.StandardStepsStay` | multiEnc/amvenc_lib/h264bitstream.c:88-121 | All deltas in the -128..127 of section 7.4.2.1.1.1 of H.264 are such steps. |
| `ScalingLists.RewriteIsStable` | multiEnc/amvenc_lib/h264bitstream.c:88-154 | Writing what was read and reading it again gives the same list, even when the bits differ, if and only if all deltas are such steps. |
| `ScalingLists.WildDeltaIsNotNormalised` | multiEnc/amvenc_lib/h264bitstream.c:88-121 | Every first delta below -264 that is not 248 modulo 256 makes a negative first entry: the reader does not check the delta. |
| `ParameterSets.ReadTrailingBits` | multiEnc/amvenc_lib/h264bitstream.c:21-30 | The cursor ends at the first byte boundary behind the stop bit. |
| `ParameterSets.WriteTrailingBits` | multiEnc/amvenc_lib/h264bitstream.c:32-41 | A one and then zeros up to the byte boundary are written. |
| `ParameterSets.MoreData` | multiEnc/amvenc_lib/h264bitstream.c:60-82 | more_rbsp_data, with its look-ahead on a cloned cursor, is true exactly when the rest is not just a stop bit and zeros. |
| `PictureParameterSet.IntLog2` | multiEnc/amvenc_lib/h264bitstream.c:47-58 | The shifting loop gives the least n with 2^n >= x, 0 for x <= 0. |
| `ParameterSets.ReadHrd` | multiEnc/amvenc_lib/h264bitstream.c:158-175 | The reader's loops compute the pure HRD reader. |
| `ParameterSets.WriteHrd` | multiEnc/amvenc_lib/h264bitstream.c:177-194 | The writer sends exactly the HRD elements, in order. |
| `VuiParameters.HrdRoundTrip` | multiEnc/amvenc_lib/h264bitstream.c:158-194 | HRD parameters with any number of schedules read back unchanged. |
| `VuiParameters.BigBitRateIsMisread` | multiEnc/amvenc_lib/h264bitstream.c:158-194 | An HRD schedule with bit_rate_value_minus1 65536 reads back with 0. |
| `ParameterSets.ReadVui` | multiEnc/amvenc_lib/h264bitstream.c:196-265 | The reader computes the pure VUI reader, whose fields the SyntaxTables rows place. |
| `ParameterSets.WriteVui` | multiEnc/amvenc_lib/h264bitstream.c:610-681 | The writer sends exactly the VUI elements, in order. |
| `VuiParameters.VuiRoundTrip` | multiEnc/amvenc_lib/h264bitstream.c:196-265 | VUI parameters with both HRDs read back unchanged at any position, cursor included. |
| `ParameterSets.ReadSps` | multiEnc/amvenc_lib/h264bitstream.c:268-367 | The reader, with its loops over lists and the POC cycle, computes the pure SPS reader and leaves the buffer as it is; the SyntaxTables rows say which bits each field of that reader comes from. |
| `ParameterSets.WriteSps` | multiEnc/amvenc_lib/h264bitstream.c:683-782 | The writer sends exactly the SPS elements, in order, and touches nothing else; by `SpsRoundTripExactly` they are what that reader, and so the syntax table, takes for the record. |
| `SequenceParameterSet.ListsRoundTrip` | multiEnc/amvenc_lib/h264bitstream.c:306-325 | The flags and lists of a scaling matrix read back unchanged. |
| `SequenceParameterSet.ChromaRoundTrip` | multiEnc/amvenc_lib/h264bitstream.c:289-326 | The high-profile fields read back unchanged unless chroma_format_idc is 3 with a matrix. |
| `SequenceParameterSet.PocRoundTrip` | multiEnc/amvenc_lib/h264bitstream.c:327-343 | All three POC types read back unchanged, the cycle of any length included. |
| `SequenceParameterSet.SpsRoundTrip` | multiEnc/amvenc_lib/h264bitstream.c:268-367 | Reading a written SPS at any bit position gives the same record and leaves the cursor where the writer stopped, for every canonical record of writable values but chroma_format_idc 3 with a matrix. |
| `SequenceParameterSet.ParsedIsCanonical` | multiEnc/amvenc_lib/h264bitstream.c:268-367 | On any bits at all the reader yields a record whose absent fields are the defaults; it is canonical if and only if the lists it met are in range, unless it met one of lists 8 to 11. |
| `SequenceParameterSet.TwelveListsEatFourZeros` | multiEnc/amvenc_lib/h264bitstream.c:306-325 | With chroma_format_idc 3 and a matrix the chroma part comes out right only if the four bits behind the eight lists are zeros, and the cursor is then behind them. |
| `UnwritableRecords.MisreadSps` | multiEnc/amvenc_lib/h264bitstream.c:306-327 | An SPS with chroma_format_idc 3 and a matrix never reads back as it was, whatever its list entries: the chroma part is wrong, or log2_max_frame_num_minus4 is. |
| `UnwritableRecords.SpsRoundTripExactly` | multiEnc/amvenc_lib/h264bitstream.c:683-782 | An SPS whose absent fields are defaults and whose values do not wrap around reads back as the same record, at any bit position, if and only if all values are writable, its list entries are in range and it is not that case; the cursor then ends where the writer stopped. |
| `UnwritableRecords.LastListsAreNotSent` | multiEnc/amvenc_lib/h264bitstream.c:721-741 | Records that differ only in lists 8 to 11 have the same elements. |
| `SyntaxTables.SpsOrder` | multiEnc/amvenc_lib/h264bitstream.c:268-367 | On every bit string the SPS is the 24-bit header and id, the chroma part, the frame number and POC part, the picture, the cropping, the VUI flag and the VUI, each right behind the one before. |
| `SyntaxTables.HeaderTable` | multiEnc/amvenc_lib/h264bitstream.c:278-288 | profile_idc is bits 0 to 7, the six constraint flags bits 8 to 13, level_idc bits 16 to 23, and the id the ue(v) code behind them. |
| `SyntaxTables.ChromaTable` | multiEnc/amvenc_lib/h264bitstream.c:289-326 | The chroma part is read for profiles 44, 83, 86, 100, 110, 118, 122, 128, 134, 138, 139 and 244 only; format, colour plane flag, the two bit depths, the bypass flag and the matrix come in this order, with 8 lists, or 12 if the format is 3. |
| `SyntaxTables.SlotTable` | multiEnc/amvenc_lib/h264bitstream.c:306-325 | Each slot has its flag; of the lists the first six have 16 entries and the others 64. |
| `SyntaxTables.ScalingTable` | multiEnc/amvenc_lib/h264bitstream.c:88-121 | Entry k is 8 plus the first k + 1 deltas modulo 256, as long as no sum is 0; the first sum that is 0 ends the deltas, and the entries stay what they were, or are the default if it is the very first. |
| `SyntaxTables.PocTable` | multiEnc/amvenc_lib/h264bitstream.c:327-343 | Behind log2_max_frame_num_minus4 and the type, type 0 has one ue(v) code, type 1 a flag, two se(v) codes and a counted run of them, any other type nothing. |
| `SyntaxTables.PictureTable` | multiEnc/amvenc_lib/h264bitstream.c:344-353 | num_ref_frames, the gaps flag, the width in macroblocks, the height in map units, frame_mbs_only, the field flag only if that is not set, and direct_8x8 are read in this order. |
| `SyntaxTables.CroppingTable` | multiEnc/amvenc_lib/h264bitstream.c:354-361 | Behind the cropping flag come the left, right, top and bottom offsets in this order. |
| `SyntaxTables.DisplayOrder` | multiEnc/amvenc_lib/h264bitstream.c:196-238 | Aspect ratio, overscan, signal, chroma location and timing of the VUI follow each other. |
| `SyntaxTables.BufferOrder` | multiEnc/amvenc_lib/h264bitstream.c:239-265 | Behind them come the NAL HRD, the VCL HRD, low_delay only if there is an HRD, pic_struct_present and the restriction. |
| `SyntaxTables.AspectTable` | multiEnc/amvenc_lib/h264bitstream.c:198-207 | Only aspect_ratio_idc 255 is followed by the two 16-bit sizes, width first. |
| `SyntaxTables.OverscanTable` | multiEnc/amvenc_lib/h264bitstream.c:208-212 | Only the flag is followed by overscan_appropriate_flag. |
| `SyntaxTables.SignalTable` | multiEnc/amvenc_lib/h264bitstream.c:213-225 | A 3-bit format, the full-range flag and, behind a flag, primaries, transfer and matrix of 8 bits each. |
| `SyntaxTables.ChromaLocTable` | multiEnc/amvenc_lib/h264bitstream.c:226-231 | The type of the top field comes before that of the bottom field. |
| `SyntaxTables.TimingTable` | multiEnc/amvenc_lib/h264bitstream.c:232-238 | Two 32-bit numbers, units in the tick first, and the fixed-rate flag. |
| `SyntaxTables.RestrictionTable` | multiEnc/amvenc_lib/h264bitstream.c:254-264 | A flag and six ue(v) codes in the order of the fields. |
| `SyntaxTables.HrdTable` | multiEnc/amvenc_lib/h264bitstream.c:158-175 | cpb_cnt_minus1, two 4-bit scales, cpb_cnt_minus1 + 1 schedules and four 5-bit lengths; schedule i has bit rate, buffer size and flag in this order. |
| `ParameterSets.ReadPps` | multiEnc/amvenc_lib/h264bitstream.c:404-508 | The reader, look-ahead included, computes the pure PPS reader, whose fields the SyntaxTables rows place. |
| `ParameterSets.WritePps` | multiEnc/amvenc_lib/h264bitstream.c:512-605 | The writer sends exactly the PPS elements, in order. |
| `PictureParameterSet.GroupIdsFit` | multiEnc/amvenc_lib/h264bitstream.c:453-459 | Fields of ceil(log2(n + 1)) bits lose no slice_group_id of 0..n, and one bit less would not do. |
| `PictureParameterSet.GroupsRoundTrip` | multiEnc/amvenc_lib/h264bitstream.c:418-461 | All slice group map types read back unchanged. |
| `PictureParameterSet.LookaheadAgrees` | multiEnc/amvenc_lib/h264bitstream.c:474-481 | Behind written elements and a stop bit the reader's look-ahead finds an extension if and only if the writer's test sent one. |
| `PictureParameterSet.PpsRoundTrip` | multiEnc/amvenc_lib/h264bitstream.c:404-605 | A PPS written at any position with trailing bits behind it reads back as the same record. |
| `UnwritablePps.PpsRoundTripExactly` | multiEnc/amvenc_lib/h264bitstream.c:404-605 | For every PPS whose absent fields are cleared and whose values do not wrap around it reads back as the same record if and only if all values are writable and its list entries are in range. |
| `UnwritablePps.ParsedPpsIsShaped` | multiEnc/amvenc_lib/h264bitstream.c:404-508 | On any bits at all the reader yields a record whose absent fields are cleared. |
| `UnwritablePps.LongRunIsLost` | multiEnc/amvenc_lib/h264bitstream.c:424-430 | A PPS with a run_length_minus1 of 65536 does not read back. |
| `SyntaxTables.PpsOrder` | multiEnc/amvenc_lib/h264bitstream.c:404-508 | On every bit string the PPS is its ids, the slice groups, the coding part, and the extension if more data follows. |
| `SyntaxTables.IdentityTable` | multiEnc/amvenc_lib/h264bitstream.c:412-416 | The PPS id comes before the SPS id, then entropy mode and pic_order_present. |
| `SyntaxTables.GroupsTable` | multiEnc/amvenc_lib/h264bitstream.c:418-461 | The map type comes first and selects what follows; types 1 and above 6 have nothing. |
| `SyntaxTables.RunsTable` | multiEnc/amvenc_lib/h264bitstream.c:422-439 | n + 1 run lengths for map type 0; for type 2 n pairs of corners, top left first. |
| `SyntaxTables.EvolvingTable` | multiEnc/amvenc_lib/h264bitstream.c:440-448 | Map types 3, 4 and 5 have the direction flag and the change rate. |
| `SyntaxTables.ExplicitTable` | multiEnc/amvenc_lib/h264bitstream.c:449-460 | Map type 6 has a count less one and that many ids, each in the least number of bits that holds num_slice_groups_minus1. |
| `SyntaxTables.CodingTable` | multiEnc/amvenc_lib/h264bitstream.c:463-472 | Both reference counts, the weighted flag, two bits, three se(v) codes and three flags are read in this order. |
| `SyntaxTables.ExtensionTable` | multiEnc/amvenc_lib/h264bitstream.c:474-507 | The transform flag, the matrix with 6 slots, and 2 more if that flag is set, and the second chroma offset. |
| `PictureParameterSet.RewriteKeepsSecondOffset` | multiEnc/amvenc_lib/h264bitstream.c:572-604 | Reading and writing again keeps the second chroma QP offset of section 7.4.2.2 of H.264 if and only if no all-zero extension came with a nonzero chroma_qp_index_offset: that extension is dropped. |
| `PictureParameterSet.ZeroExtensionIsDropped` | multiEnc/amvenc_lib/h264bitstream.c:572-604 | For every record without an extension, sent with an all-zero one: the same record is read and its second offset is 0, but written again and read it has chroma_qp_index_offset as its second offset. |
| `Rbsp.PayloadHolds` | multiEnc/amvenc_lib/h264bitstream.c:32-41 | A written payload holds its elements from the first bit, then the stop bit and zeros, and ends in a nonzero byte. |
| `Rbsp.PackOfBits` | multiEnc/amvenc_lib/include/bs.h:217-231 | Packing the bits of a byte string gives the byte string back. |
| `Emulation.EbspToRbsp` | amvenc_264/bjunion_enc/libvpcodec.cpp:74-98 | Unescaping in place equals the pure unescaper on the old bytes; the write index never passes the read index. |
| `Emulation.RbspToEbsp` | amvenc_264/bjunion_enc/libvpcodec.cpp:41-71 | The copy and the escaping loop put exactly the escaped payload and the stuffing words into the buffer. |
| `Emulation.UnescapeEscape` | amvenc_264/bjunion_enc/libvpcodec.cpp:41-98 | Unescaping takes back escaping, for every payload. |
| `Emulation.EscapeIsLegal` | amvenc_264/bjunion_enc/libvpcodec.cpp:48-64 | An escaped payload never has 00 00 before 00, 01, 02, nor a 03 there without need. |
| `Emulation.EscapeUnescape` | amvenc_264/bjunion_enc/libvpcodec.cpp:41-98 | Escaping takes back unescaping for exactly the legal payloads of section 7.4.1 of H.264: a bijection. |
| `Emulation.EscapeGrowth` | amvenc_264/bjunion_enc/libvpcodec.cpp:48-64 | n bytes grow by at most (n - 1) / 2. |
| `Emulation.ZerosGrowMost` | amvenc_264/bjunion_enc/libvpcodec.cpp:48-64 | The all-zero payload of every length reaches that bound. |
| `Emulation.EscapeKeepsLast` | amvenc_264/bjunion_enc/libvpcodec.cpp:48-64 | The last byte stays the last byte. |
| `Emulation.LegalStandsAlone` | amvenc_264/bjunion_enc/libvpcodec.cpp:74-98 | For a legal payload the unescaper never reads the byte behind the end. |
| `Emulation.EscapeLeavesAlone` | amvenc_264/bjunion_enc/libvpcodec.cpp:48-64 | A payload is escaped to itself if and only if no byte below 4 follows two zeros. |
| `Emulation.EscapeAtFirst` | amvenc_264/bjunion_enc/libvpcodec.cpp:41-98 | Behind the first two zero bytes that a byte of at most 3 follows, a 3 is put in and the zeros are counted anew; the unescaper takes a 3 out there. |
| `SpsEdit.EditSps` | multiEnc/amvenc_lib/libvpmulti_codec.c:506-561 | The assignments, in order, make the edited record, whose fields are the numbers that the next row names. |
| `SpsEdit.EditAssigns` | multiEnc/amvenc_lib/libvpmulti_codec.c:506-561 | A record is the edited one if and only if: the level is that of the handle, or the old one for 0; the left and top offsets are half the crop origin and the right and bottom ones half of what the coded size has more than the picture, or of what separates it from the crop values; the restriction fields are 1, 0, 0, 16, 16, 0, 2; primaries, transfer and matrix are those of the handle if none is 0; the rest is unchanged. |
| `SpsEdit.ShownSize` | multiEnc/amvenc_lib/libvpmulti_codec.c:544-561 | Without crop values a picture of even size is shown in the size of the handle. |
| `SpsEdit.EditTouchesOnly` | multiEnc/amvenc_lib/libvpmulti_codec.c:506-561 | Nothing but level, cropping, restriction and signal is touched, and each only when asked for. |
| `SpsEdit.EditIsIdempotent` | multiEnc/amvenc_lib/libvpmulti_codec.c:506-561 | A second edit changes nothing. |
| `SpsEdit.EditKeepsCanonical` | multiEnc/amvenc_lib/libvpmulti_codec.c:506-561 | The edit fills absent fields only together with their flags. |
| `SpsEdit.EditWritable` | multiEnc/amvenc_lib/libvpmulti_codec.c:506-561 | If the record that was read can be written and level and crop offsets fit their codes, the edited record can be written. |
| `HeaderRewrite.AdjustSps` | multiEnc/amvenc_lib/libvpmulti_codec.c:488-574 | The in-place pipeline leaves the unit with the escaped payload of the edited record of what it unescaped and parsed. |
| `HeaderRewrite.RewrittenIfAsked` | multiEnc/amvenc_lib/libvpmulti_codec.c:494-500 | The payload stays as it is unless there are VUI values, or idr_period is not 1 and the GOP preset is none, IP or SVC-5. |
| `HeaderRewrite.AdjustPps` | multiEnc/amvenc_lib/libvpmulti_codec.c:576-592 | The unit ends with the payload of the record that was read from its raw bytes. |
| `HeaderRewrite.FindNal` | multiEnc/amvenc_lib/libvpmulti_codec.c:622-638 | The scan finds the first start code with that unit type that it looks at, or none. |
| `HeaderRewrite.AdjustHeader` | multiEnc/amvenc_lib/libvpmulti_codec.c:596-678 | Split, rewrite and join leave the bytes before the SPS, the new SPS unit and the new PPS unit, and give their length, for any byte behind the SPS and any bytes behind what fits of the PPS. |
| `HeaderRewrite.JoinedIsRewritten` | multiEnc/amvenc_lib/libvpmulti_codec.c:596-678 | Those bytes do not matter if the SPS payload does not end inside an escape sequence and the new PPS is not longer than the old one. |
| `HeaderMeaning.RewriteKeepsMeaning` | multiEnc/amvenc_lib/libvpmulti_codec.c:488-574 | Unescaping and parsing the rewritten payload gives the old record with exactly those fields assigned to those numbers; the payload is legal, ends in a nonzero byte, and a second rewriting gives the same bytes. |
| `HeaderMeaning.RewriteKeepsMeaningExactly` | multiEnc/amvenc_lib/libvpmulti_codec.c:488-574 | Whatever bytes were read, without lists 8 to 11 and with edited values that do not wrap around: the meaning is kept if and only if the edited record is writable, the lists that were read are in range and it is not chroma_format_idc 3 with a matrix. |
| `HeaderMeaning.NoStartInside` | multiEnc/amvenc_lib/libvpmulti_codec.c:622-638 | No four-byte start code begins inside a unit with a legal payload that ends in a nonzero byte. |
| `HeaderMeaning.SplitsExactly` | multiEnc/amvenc_lib/libvpmulti_codec.c:622-653 | The two scans stop exactly at the two units if and only if the PPS unit is longer than five bytes. |
| `HeaderMeaning.HeaderKeepsMeaning` | multiEnc/amvenc_lib/libvpmulti_codec.c:596-678 | The rewritten header is again two units that the scans split at the right place; its SPS means the old one but for the assigned fields, and its PPS means the old one if neither has a place for an escape byte and its record is writable. |
| `HeaderMeaning.HeaderIsAccepted` | multiEnc/amvenc_lib/libvpmulti_codec.c:596-678 | A header of two legal units meets what the rewriter demands, if the result has room. |
| `HeaderMeaning.HeaderIsDetermined` | multiEnc/amvenc_lib/libvpmulti_codec.c:596-678 | For such a header nothing of the result is left to bytes that were never written. |
| `PpsEscapes.PpsPayloadIsKept` | multiEnc/amvenc_lib/libvpmulti_codec.c:576-592 | A PPS payload that the writer made is rewritten to itself. |
| `PpsEscapes.PpsRewriteKeepsRecord` | multiEnc/amvenc_lib/libvpmulti_codec.c:576-592 | Whatever bytes were read, the new ones read back as the same record, and a second rewriting changes nothing. |
| `PpsEscapes.PpsRecordExactly` | multiEnc/amvenc_lib/libvpmulti_codec.c:576-592 | Whatever bytes were read, the new ones read back as the same record if and only if its values are writable and its list entries in range. |
| `PpsEscapes.SmallNeedsNoEscape` | multiEnc/amvenc_lib/h264bitstream.c:512-605 | The payload of a PPS without slice group ids, with ue(v) code numbers up to 510 (126 for the last behind a matrix), needs no escape byte: no 22 zero bits come in a row. |
| `PpsEscapes.SmallPpsIsKept` | multiEnc/amvenc_lib/libvpmulti_codec.c:576-592 | The escaped unit of such a record is kept byte for byte and means the record to a decoder. |
| `PpsEscapes.PpsKeepsMeaning` | multiEnc/amvenc_lib/libvpmulti_codec.c:576-592 | Whoever wrote the unit, with any slice groups: if neither the old nor the new bytes have a place for an escape byte, a decoder reads the same record before and after if and only if it is writable with list entries in range. |
| `PpsEscapes.SmallIsKeepable` | multiEnc/amvenc_lib/libvpmulti_codec.c:576-592 | For small records the old bytes decide: the new ones then have no such place either. |
| `EscapedPps.EscapedPpsIsNotKept` | multiEnc/amvenc_lib/libvpmulti_codec.c:576-592 | A concrete PPS with one escape byte among 25 zero slice group ids: a decoder of the rewritten unit, which is as long as the old one, reads constrained_intra_pred_flag flipped. |
| `MultiEncoders.DrainExactly` | multiEnc/amvenc_lib/libvpmulti_codec.c:371-382 | The draining loop leaves at most the window exactly when no more was there or the newest window has a positive sum; it then leaves the newest sizes and their sum, and if not, a wrong sum unless the oldest size is 0. |
| `MultiEncoders.OverTargetExactly` | multiEnc/amvenc_lib/libvpmulti_codec.c:383-394 | For all inputs a skip is called for if and only if the rate sum * 8 * frame rate / window, taken modulo 2^32 and as a signed int, exceeds bitrate * threshold / 100 taken so. |
| `MultiEncoders.OverTargetByQuotients` | multiEnc/amvenc_lib/libvpmulti_codec.c:383-394 | Below 2^31 that is the comparison of the two rounded-down quotients, given by the products on either side of them. |
| `MultiEncoders.MultiEncoder.StrictRcCheck` | multiEnc/amvenc_lib/libvpmulti_codec.c:367-395 | The loop over the circular slots drains the history and decides on a skip as the sequence model does, which the two rows above give in numbers. |
| `MultiEncoders.MultiEncoder.StrictRcFilled` | multiEnc/amvenc_lib/libvpmulti_codec.c:397-415 | Filling a slot appends to the history; with 127 slots in use the history would look empty. |
| `MultiEncoders.MultiEncoder.ChangeStrictRc` | multiEnc/amvenc_lib/libvpmulti_codec.c:1425-1446 | The window is clipped to 0..120, and 0 resets the history. |
| `MultiEncoders.MultiEncoder.ChangeBitrate` | multiEnc/amvenc_lib/libvpmulti_codec.c:1293-1309 | An accepted change resets the history and sets the rate, modulo 2^32; a refused one changes nothing. |
| `MultiEncoders.MultiEncoder.Encode` | multiEnc/amvenc_lib/libvpmulti_codec.c:907-1227 | One encode call in every outcome: what is handed to the hardware, the new history, flags and count. |
| `EncoderRuns.RunTracks` | multiEnc/amvenc_lib/libvpmulti_codec.c:367-415 | In every run whose checks drain, the running sum is the sum of the history, at most 121 of 128 slots are used, and they hold the newest sizes since the last reset. |
| `EncoderRuns.PositiveRunsDrain` | multiEnc/amvenc_lib/libvpmulti_codec.c:367-415 | Checks drain in every run whose returned frames all have a positive length. |
| `EncoderRuns.DecisionExactly` | multiEnc/amvenc_lib/libvpmulti_codec.c:383-394 | A check decides as the rate rule on the last window sizes since the reset would if and only if the history has kept them, they would not skip, or a skip is pending. |
| `EncoderRuns.RunsDecideNaively` | multiEnc/amvenc_lib/libvpmulti_codec.c:367-415 | In every run in which the window grows only while no more sizes have come than the old one holds, each check decides by the rate rule on the last window sizes. |
| `EncoderRuns.GrownWindowForgets` | multiEnc/amvenc_lib/libvpmulti_codec.c:1425-1446 | A concrete run: behind two frames and a failed encode, a window of 1 that grew to 2 misses a skip that the last two sizes call for. |
| `EncoderRuns.SkippedPicturesUpsetTheSum` | multiEnc/amvenc_lib/libvpmulti_codec.c:371-382 | A concrete run: behind a frame and a skipped picture of length 0 the loop breaks with the running sum off by the old size. |
| `EncoderRuns.SumStaysShort` | multiEnc/amvenc_lib/libvpmulti_codec.c:371-415 | What a drain that stopped early took too much from the sum stays missing in every run, until a reset or until all slots are in use. |
| `EncoderRuns.SkippedPicturesFillTheHistory` | multiEnc/amvenc_lib/libvpmulti_codec.c:371-415 | Nothing bounds the history then: behind a frame of 5 bytes, skipped pictures fill all slots, and the 127th makes the full history look empty. |
| `EncoderRuns.KeyFramesStartGroups` | multiEnc/amvenc_lib/libvpmulti_codec.c:1114-1127 | Inputs are numbered in order and a key frame is forced only at a number divisible by the group size, which is 2, 3, 4, 5 and 4 for the presets with groups and 1 for the others. |
| `EncoderRuns.PendingKeyIsForced` | multiEnc/amvenc_lib/libvpmulti_codec.c:1114-1147 | A pending request is forced at the first input whose number is divisible by the group size and at none before, across failing calls. |
| `EncoderRuns.RequestsAreKept` | multiEnc/amvenc_lib/libvpmulti_codec.c:977-1209 | A wanted key frame is coded in its call or pending behind it if and only if the call does not fail before the request is noted and its forced input is not refused; a timeout leaves a request pending. |
| `EncoderRuns.NoRequestNoKey` | multiEnc/amvenc_lib/libvpmulti_codec.c:1204-1209 | Without a request or a timeout no key frame is forced. |
| `EncoderRuns.FirstInputIsZero` | multiEnc/amvenc_lib/libvpmulti_codec.c:1114-1127 | The input that the first call submits has number 0 and carries every request for a key frame. |
| `EncoderRuns.StepSkip` | multiEnc/amvenc_lib/libvpmulti_codec.c:1128-1133 | Every call that submits an input hands over the pending skip, that of its own check included, and clears it; every other call keeps it and adds what it asks for. |
| `EncoderRuns.SkipGoesWithNextInput` | multiEnc/amvenc_lib/libvpmulti_codec.c:1128-1133 | Across any calls that submit nothing, the next input carries the skip flag if and only if one was pending, was asked for in between, or is asked for by its own check; nothing is pending behind it. |
| `MemoryPools.Need` | mini_venc/mini_enc_sample/mini_memory_pool.c:146 | The number of chunks covers the size and is least, except that 0 and the sizes that wrap around need none. |
| `MemoryPools.MemoryPool.constructor` | mini_venc/mini_enc_sample/mini_memory_pool.c:104-130 | A new pool is the reset table at its base address. |
| `MemoryPools.MemoryPool.FindRun` | mini_venc/mini_enc_sample/mini_memory_pool.c:151-187 | The search that skips whole blocks finds what the plain search over all places finds, and ends. |
| `MemoryPools.MemoryPool.AllocMemory` | mini_venc/mini_enc_sample/mini_memory_pool.c:139-196 | The lowest free run is marked at its head and its address returned; on failure nothing changes. |
| `MemoryPools.MemoryPool.FreeMemory` | mini_venc/mini_enc_sample/mini_memory_pool.c:199-219 | The first chunk with that address is cleared if the owner matches, and nothing else. |
| `MemoryPools.MemoryPool.Release` | mini_venc/mini_enc_sample/mini_memory_pool.c:67-82 | Exactly the chunks of that owner are cleared. |
| `MemoryPools.LowestRunIsLowest` | mini_venc/mini_enc_sample/mini_memory_pool.c:139-196 | The search fails only if there is no free run of that length, and otherwise gives the lowest. |
| `MemoryPools.SkipBlock` | mini_venc/mini_enc_sample/mini_memory_pool.c:160-186 | No free run can start between a free chunk and the end of the block it would run into. |
| `MemoryPools.BlocksAreApart` | mini_venc/mini_enc_sample/mini_memory_pool.c:139-196 | Blocks in use lie inside the pool and apart. |
| `MemoryPools.AllocationIsExact` | mini_venc/mini_enc_sample/mini_memory_pool.c:139-196 | An allocation adds one block, apart from all others and as low as possible, and leaves the rest. |
| `MemoryPools.FreeingIsExact` | mini_venc/mini_enc_sample/mini_memory_pool.c:199-219 | Freeing removes the caller's block at that address and no other, in every table with its addresses in order. |
| `MemoryPools.ReleasingIsExact` | mini_venc/mini_enc_sample/mini_memory_pool.c:67-82 | A release removes exactly that owner's blocks, in every table. |
| `MemoryPools.AllocThenFree` | mini_venc/mini_enc_sample/mini_memory_pool.c:139-219 | Freeing what was just allocated restores the exact table. |
| `MemoryPools.RunFromReset` | mini_venc/mini_enc_sample/mini_memory_pool.c:67-231 | After every sequence of operations from a reset, requests for size 0 included, the table parses as free chunks and heads with unmarked interiors, and the blocks in use are apart and inside; without such requests unmarked chunks have no owner. |
| `MemoryPools.ZeroSizeReservesNothing` | mini_venc/mini_enc_sample/mini_memory_pool.c:146-180 | A request for size 0 is given an address that the next one-chunk request is given too. |
| `ReferenceRings.GetSizes` | mini_venc/mini_enc_sample/mini_test_reg.c:639-674 | The luma plane is the frame aligned to 64, chroma half of it, the 4N plane a sixteenth; the internal image is luma and 4N without padding between them. |
| `ReferenceRings.AlignIsLeast` | mini_venc/mini_enc_sample/mini_test_reg.c:138-139 | An aligned size is the least multiple of the alignment that is not smaller. |
| `ReferenceRings.RingBuffer.constructor` | mini_venc/mini_enc_sample/mini_test_reg.c:885-944 | Every ring is larger than its frame by the gap: 128 luma rows, 64 chroma rows and 32 rows of the 4N plane. |
| `ReferenceRings.RingBuffer.UpdateIntra` | mini_venc/mini_enc_sample/mini_test_reg.c:484-496 | An intra frame puts all planes at the start of their rings. |
| `ReferenceRings.RingBuffer.UpdateInter` | mini_venc/mini_enc_sample/mini_test_reg.c:497-549 | The n-th frame is written at (initial + n * size) mod ring size in every plane, and read where the one before was written. |
| `ReferenceRings.MovedIsNextPlace` | mini_venc/mini_enc_sample/mini_test_reg.c:522-541 | The two-branch address update is addition modulo the ring size. |
| `ReferenceRings.OverwritesOnlyBehind` | mini_venc/mini_enc_sample/mini_test_reg.c:497-549 | Byte k of a new frame lies on byte j of its reference if and only if j = k - gap. |
| `ReferenceRings.FrameStep` | mini_venc/mini_enc_sample/mini_test_reg.c:497-549 | When c bytes of a frame are written, byte j of its reference is still there if c is at most j plus the gap, and is byte j plus gap of the new frame otherwise; at the end the ring holds the new frame. |
| `ReferenceRings.RunHoldsLastFrame` | mini_venc/mini_enc_sample/mini_test_reg.c:469-549 | After any number of frames the ring holds the last one at its place. |
| `ReferenceRings.CrFollowsCb` | mini_venc/mini_enc_sample/mini_test_reg.c:484-541 | The Cr half always lies right behind the Cb half. |
| `HwEncoders.HwEncoder.DetermineFrameNum` | amvenc_264/bjunion_enc/AML_HWEncoder.cpp:27-117 | An input is marked as the transition model says, which the next rows give in words. |
| `HwEncoders.InputMarks` | amvenc_264/bjunion_enc/AML_HWEncoder.cpp:27-117 | An accepted input is marked an IDR, and the counter set to 0, if and only if it is the first, the period is over, it is forced, or the hardware answers with a new IDR; an input that is not on time, or with a bad pitch, changes nothing. |
| `HwEncoders.WaitingInputMarks` | amvenc_264/bjunion_enc/AML_HWEncoder.cpp:242-313 | An input that is given again after a full buffer keeps its mark. |
| `HwEncoders.ForcedInputIsIdr` | amvenc_264/bjunion_enc/AML_HWEncoder.cpp:101-113 | Behind a forced input that is taken, whatever is committed before the next input is an IDR. |
| `HwEncoders.CommittedFlag` | amvenc_264/bjunion_enc/AML_HWEncoder.cpp:332-436 | A committed frame is an IDR if and only if it was marked or the hardware made it one, in the first or the second coding. |
| `HwEncoders.HwEncoder.SetInput` | amvenc_264/bjunion_enc/AML_HWEncoder.cpp:242-313 | One input in every phase and for every answer of the hardware. |
| `HwEncoders.HwEncoder.EncodeSlice` | amvenc_264/bjunion_enc/AML_HWEncoder.cpp:362-425 | One slice call for every answer of the hardware and the rate control, re-encoding included. |
| `HwEncoders.HwEncoder.EncodeNal` | amvenc_264/bjunion_enc/AML_HWEncoder.cpp:332-432 | One call for the next piece of the stream, in every phase. |
| `HwEncoders.CounterStaysInRange` | amvenc_264/bjunion_enc/AML_HWEncoder.cpp:101-113 | The GOP counter never exceeds the period in any reachable state, drops included. |
| `HwEncoders.SetsComeFirstAndOnce` | amvenc_264/bjunion_enc/AML_HWEncoder.cpp:224-227 | With out-of-band sets, the first output of every run is the parameter sets, and they come once. |
| `HwEncoders.SetsFollowNewIdr` | amvenc_264/bjunion_enc/AML_HWEncoder.cpp:300-314 | With in-band sets, an input that became an IDR is followed at once by the parameter sets. |
| `HwEncoders.InputBetweenCommits` | amvenc_264/bjunion_enc/AML_HWEncoder.cpp:343-424 | At least one accepted input lies between any two commits. |
| `HwEncoders.CommitNeedsInput` | amvenc_264/bjunion_enc/AML_HWEncoder.cpp:252-257 | Before a commit comes an accepted input. |
| `HwEncoders.IdrSpacing` | amvenc_264/bjunion_enc/AML_HWEncoder.cpp:101-113 | In every run that loses no frame marked as an IDR, the first committed frame is an IDR and so is one of any idrPeriod in a row, whatever is forced, raised or dropped besides. |
| `HwEncoders.GivesUpExactly` | amvenc_264/bjunion_enc/AML_HWEncoder.cpp:332-436 | A slice call gives its frame up, behind the first picture, exactly for these answers: cancelled or late, rate control skips, or the commit fails, in the first coding or the second. |
| `HwEncoders.LostIdrExactly` | amvenc_264/bjunion_enc/AML_HWEncoder.cpp:252-424 | Behind any such run, every continuation that loses no marked IDR keeps that spacing if and only if the next call loses none: a frame marked as an IDR, behind the first, that is dropped or refused by the hardware. |
| `HwEncoders.DroppedIdrBreaksSpacing` | amvenc_264/bjunion_enc/AML_HWEncoder.cpp:377-381 | For every period and with sets in or out of band, a run that loses an IDR frame to a timeout commits 2 * idrPeriod frames of which only the first is an IDR. |
| `HwEncoders.SliceOutcome` | h264/bjunion_enc/AML_HWEncoder.cpp:349-411 | In both builds a slice call commits the frame, drops it or keeps it. |
| `CanvasCopies.CopyRows` | jpeg/jpeg_enc/jpegenc.c:370-380 | The row loop places packed rows at stride distance. |
| `CanvasCopies.CopyPlane` | jpeg/jpeg_enc/jpegenc.c:370-380 | The single copy and the row loop give the same plane. |
| `CanvasCopies.OneCopyIsAllRows` | jpeg/jpeg_enc/jpegenc.c:370-380 | One copy of all the rows equals the row loop where the stride is the width. |
| `CanvasCopies.HalfOfRows` | jpeg/jpeg_enc/jpegenc.c:388-399 | The single copy of the chroma plane has the bytes of the row loop if and only if the height is even or the width at most 1; otherwise it takes half a row more. |
| `CanvasCopies.JpegInput.CopyToLocal` | jpeg/jpeg_enc/jpegenc.c:341-465 | The buffer ends with all planes of the format in place, given in numbers per format, and every other byte as it was; strides and returned size are the source's, 24 or 12 bits a sample. |
| `CanvasCopies.PlanesFit` | jpeg/jpeg_enc/jpegenc.c:341-465 | For strides no smaller than the dimensions, odd ones included, the planes are inside the returned size, in order and apart, and the source is large enough. |
| `CanvasCopies.SamplesLieInPlace` | jpeg/jpeg_enc/jpegenc.c:370-380 | Sample (r, c) of a plane lies at offset + r * stride + c. |
| `CanvasCopies.OtherBytesStay` | jpeg/jpeg_enc/jpegenc.c:370-380 | Bytes that are no sample, between rows too, stay as they were. |
| `CanvasCopies.PictureLayout` | jpeg/jpeg_enc/jpegenc.c:341-465 | Every sample of NV12, NV21, YUV420 and planar YUV444, odd dimensions included, lies at its place, that half row too, and all other bytes are untouched. |
| `CanvasCopies.LayoutInNumbers` | jpeg/jpeg_enc/jpegenc.c:341-465 | For each format by itself and in numbers: luma sample (r, c) at r * stride + c; interleaved chroma behind the luma; U of YUV420 from width * height and V from width * height * 5 / 4 of the source, V behind U in the buffer; both full planes of YUV444 likewise. No other byte changes. |
| `CanvasCopies.PackedToCanvas` | jpeg/jpeg_enc/jpegenc.c:274-316 | RGB24 and YUV422 rows are placed at a stride aligned to 32. |
| `CanvasCopies.Rgb32To24` | jpeg/jpeg_enc/jpegenc.c:241-250 | The pointer loop drops every fourth byte. |
| `CanvasCopies.PackedAt` | jpeg/jpeg_enc/jpegenc.c:241-250 | Byte j of pixel k, for j below 3, comes from byte 4 * k + j. |
| `CanvasCopies.RgbaToCanvas` | jpeg/jpeg_enc/jpegenc.c:252-272 | The RGBA copy, by rows or in one go, equals the RGB24 copy of the picture without its fourth bytes. |

## Left out

- BitStreams.BitStream.WriteBits: a shift by 32 or more is undefined in C; the model takes the count modulo 32.
- VuiParameters.VuiRoundTrip: flag fields are booleans and other fields unbounded integers; the fixed array capacities of the C records (32 HRD schedules, 256 POC offsets, 8 slice groups) and what happens beyond them are not modelled.
- HeaderRewrite.AdjustHeader: states the result only when both units are found in order, the new SPS fits the 1024 bytes of the escape buffer and a buffer of the old length, the new PPS such a buffer, and both the header; the source demands all of this of its input without checking it.
- HeaderRewrite.AdjustPps: what is printed past the end of the old unit is dropped, as the cursor drops it; the bytes that the source then copies from there are unspecified, as malloc leaves them.
- PpsEscapes.PpsKeepsMeaning: for units without a place for an escape byte. A PPS with one is kept too where the raw reader and the writer happen to give its bytes back; `EscapedPpsIsNotKept` is one where they do not.
- UnwritableRecords.SpsRoundTripExactly: for records in which lists 8 to 11 are absent. The writer never sends those lists (`LastListsAreNotSent`); a record with one of them comes back only if the bits behind the eight lists happen to spell it.
- HeaderMeaning.RewriteKeepsMeaningExactly: for the same reason not for an SPS that was received with one of lists 8 to 11: it loses the list, unless the new bits happen to spell it.
- MultiEncoders.MultiEncoder.constructor: a negative initial window, which vl_multi_encoder_init does not clip, is not modelled.
- MultiEncoders.MultiEncoder.Encode: the hardware's answers are inputs; pixel formats, timestamps, QP and long-term reference requests, and the copy of the saved header in front of the first frame are left out.
- EncoderRuns.RunTracks: 32-bit overflow of the running sum is not modelled; the rate comparison is in 32-bit arithmetic.
- MemoryPools.MemoryPool.constructor: the table has the fixed 8192 chunks and addresses that do not wrap around; phy_mem_size, which the source does not use for the count, and addr_transl, which is 0, are left out.
- ReferenceRings.RingBuffer.constructor: 32-bit overflow of sizes and addresses is not modelled; the hardware is taken to wrap at the programmed size.
- HwEncoders.HwEncoder.DetermineFrameNum: the floating-point clock is an input that says whether the frame is on time; with no_skip set, as in amvenc_264, it always is.
- CanvasCopies.JpegInput.CopyToLocal: FMT_RGB888_PLANE, whose other planes the source never copies, strides below the dimensions, and the simulation build are left out.
- malloc failure, logging, dump files and configuration parsing: plumbing.
- H.265 header rewriting: the h265bitstream parser is not part of this model.
- vl_video_encode_modifyheader of amvenc_264: the same parser and printer without unescaping first; the multiEnc pipeline is modelled instead.
- Hardware, ioctl, DMA and dlopen layers: foreign calls.
- RGB_to_YUV, the NAL merge loop and the compress-table choice: easy or external.
