# PIM-JPEG baseline decoder: a verified model

This project is a Dafny model of the core of PIM-JPEG. PIM-JPEG is a baseline JPEG decoder (ITU-T T.81) written once for the host CPU and once for UPMEM DPUs, where the work of one picture is split among tasklets. Around the decoder sit the BMP writer, an older header reader, the `penji` bitstream tools and the Python script that scores decoded pictures against reference pictures. Each part of the source becomes a module. Every method is proved against a specification function, and lemmas state what those functions mean.

- **Reading the compressed file**
  - `Bytes`, `Stream`, `Bits`, `Cursor`: the byte cursor `JpegDecompressor` and its reads, and the scans for markers.
  - Byte destuffing, RST skipping and the 32-bit MSB-aligned bit buffer of `get_num_bits`.
- **Marker segments**
  - `JpegInfo`, `Segments`, `Parser`, `Headers`: the parsers of DQT, DHT, SOF0, DRI and SOS segments. The model covers all three copies: src/jpeg-cpu.c, src/dpu/dpu-jpeg-marker.c and the split files under src/dpu/markers.
  - One parser class is parametrised by the copy it follows.
  - The `read_next_marker` dispatcher and the header phase of `jpeg_cpu_scale` are modelled too.
- **Huffman codes**
  - `Huffman`: canonical code generation (T.81 Figure C.2).
  - `ZigZag`: the coefficient order of T.81 Figure A.6.
- **Entropy decoding and reconstruction**
  - `Entropy`: `huff_decode` and `decode_mcu` of both decoders.
  - `Idct`: the integer AAN inverse DCT.
  - `Colour`: the in-place YCbCr to RGB conversion.
  - `Scanline`, `Decode`: `decompress_scanline` of the CPU decoder.
- **DPU specifics**
  - `DpuLayout`: the block index arithmetic of `decode_bitstream` and `inverse_dct_convert`, seen from one tasklet.
  - `DpuReader`: the 1024-byte prefetch reader over MRAM. It is proved to move its position exactly as the CPU cursor does. While its cache mirrors MRAM, it is proved to read the bytes of the file. `is_eof` is the predicate `PrefetchReader.IsEof`: the position is at or past the tasklet's length.
- **Output**
  - `Bmp`: the output file name, the two packed headers, and the body rows written bottom-up as blue, green, red.
- **Older header reader**
  - `Legacy`: the older header reader of jpeg-cpu.c.
- **penji tools**
  - `PenjiUtil`: the shared reader (`read_1_byte` with byte destuffing, `next_marker`) and the tree-walking Huffman table builder. The builder is proved to assign the canonical codes of `Huffman`.
  - `ScanBits`, `McuCounter`: the bit cursor and MCU counter of mcu_block_counter.c.
  - `RemoveMcu`: remove_mcu.c, which drops every odd MCU column of a single-component scan.
- **Scoring script**
  - `ImgQuality`: metrics/img_quality.py, with PSNR, SSIM, picture decoding, the directory walk and the pattern search as parameters.

Conventions:
- C's fixed-width stores are written out: `U8`, `U16`, `U32` and `Int16` in `Bytes`.
- A C `>>` on a signed value is floor division by a power of two.
- A read past the end of the data yields 0.
- A store outside a declared array is not applied. It sets an `overflow` flag in the record instead.
- `ZIGZAG_ORDER` has the values listed in the comment at src/jpeg-cpu.c:54-57. The header that defines it is not part of this model.
- `MAX_HUFFMAN_TABLES` is 2 and `MAX_QUANT_TABLES` is 4. These are the array sizes of include/jpeg-common.h.

The third column of the table below states what the member's contract says. "(meaning in X)" names the lemma that states what the specification function behind a method's contract means.

## Model

| member | source | states |
|---|---|---|
| Bytes.Int16 | src/jpeg-cpu.c:608 | a value stored into a `short` lies in [-32768, 32768) and differs from the value by a multiple of 2^16 (two's-complement truncation) |
| Bytes.U16 | src/jpeg-cpu.c:69-75 | a value stored into a `uint16_t` is below 2^16 and congruent to the value modulo 2^16 |
| Bytes.U32 | src/jpeg-cpu.c:481-518 | a value stored into a `uint32_t` is below 2^32 and congruent to the value modulo 2^32 |
| Bytes.NibblesRecombine | src/jpeg-cpu.c:261-262 | the high nibble `b >> 4` and the low nibble `b & 0x0F` of a byte recombine to the byte |
| Bytes.BigEndian16 | src/jpeg-cpu.c:69-75 | `(b1 << 8) \| b2` is below 2^16, its high byte is b1 and its low byte is b2 |
| ZigZag.ZigZagFollowsFigureA6 | src/jpeg-cpu.c:54-57 | the `ZIGZAG_ORDER` table walks the 8x8 block along the anti-diagonals, alternating direction, as in Figure A.6 of ITU-T T.81 |
| ZigZag.ZigZagIsBlockOrder | src/jpeg-cpu.c:54-57 | the 64 entries of `ZIGZAG_ORDER` are distinct block positions in 0..63, so every coefficient is stored exactly once |
| ZigZag.ZigZagInverseUndoes | src/jpeg-cpu.c:54-57 | the zig-zag table is onto the 64 block positions: for every position q, `ZIGZAG_ORDER` at the inverse table's entry for q is q |
| Huffman.EmptyTable | src/jpeg-cpu.c:1125-1153 | a zero-initialised Huffman table is well formed and not present |
| Huffman.GenerateCodes | src/jpeg-cpu.c:381-390 | `generate_codes` gives a well-formed table whose codes fit in 32 bits |
| Huffman.CodeRange | src/jpeg-cpu.c:381-390 | for offsets of a table whose counts did not wrap, the running code within each length group stays below 2^31, so the `uint32_t` code never wraps |
| Huffman.GroupEffect | src/jpeg-cpu.c:383-386 | the inner loop gives codes code, code+1, ... to slots j to end-1, leaves every other slot alone and ends with code + (end - j) |
| Huffman.CodesFromEffect | src/jpeg-cpu.c:381-390 | the outer loop from length i on gives slot k of group g the code FirstCode(g) + (k - valoffset[g]) and leaves the slots outside the groups alone |
| Huffman.GeneratedCodesAreCanonical | src/jpeg-cpu.c:381-390 | for counts that did not wrap, `generate_codes` assigns the canonical codes of Figure C.2 of ITU-T T.81: consecutive within a length, the first code of each length twice the code after the previous length's last; slots past the last symbol keep their old codes |
| Huffman.GenerateCodesInPlace | src/jpeg-cpu.c:381-390 | the nested loops writing `codes` in place leave the array equal to the spec function CodesFrom from length 0 with code 0 |
| Huffman.GenerateTableCodes | src/jpeg-cpu.c:381-390 | `generate_codes` on one table yields the table GenerateCodes specifies (meaning in Huffman.GeneratedCodesAreCanonical) |
| Stream.CountNonMarkerMeaning | src/jpeg-cpu.c:98-109 | `count_and_skip_non_marker_bytes` returns the number of non-0xFF bytes before the first 0xFF and leaves the cursor just past that 0xFF, or returns -1 with every byte up to the end of the data not 0xFF |
| Stream.MarkerAfterFFMeaning | src/jpeg-cpu.c:111-120 | `get_marker_and_ignore_ff_bytes` skips a run of 0xFF bytes and returns the first other byte (and the cursor after it), or -1 when the data ends first |
| Stream.NextMarkerMeaning | src/jpeg-cpu.c:122-131 | `skip_to_next_marker` returns a byte other than 0xFF that follows a 0xFF, with the cursor just after it, or -1 once the end of the data is reached |
| Stream.DestuffMeaning | src/jpeg-cpu.c:489-508 | the inner loop of `get_num_bits` yields a plain byte as itself, 0xFF 0x00 as a 0xFF data byte and skips an RSTm marker to the byte after it, always moving the cursor forward |
| Stream.ShortAt | src/jpeg-cpu.c:69-75 | a 16-bit big-endian value is below 2^16 |
| Stream.MarkerAfterFF | src/jpeg-cpu.c:111-120 | the result is -1 or a byte read before the end of the data, and the cursor never moves back |
| Stream.NextMarker | src/jpeg-cpu.c:122-131 | the cursor always moves forward; a marker found is a byte read before the end of the data |
| Stream.NonMarkerScanMeaning | src/jpeg-cpu.c:98-109 | the non-marker loop returns the count of bytes it passed before a 0xFF, with the cursor just after that 0xFF and no 0xFF before it; or -1 at the end of the data with no 0xFF passed |
| Bits.Load | src/jpeg-cpu.c:510-511 | appending byte a below the pending bits keeps the buffer MSB-aligned, adds 8 to `bits_left` and makes the pending bits the old ones followed by a |
| Bits.Fill | src/jpeg-cpu.c:489-512 | the refill loop ends MSB-aligned with at least n bits available |
| Bits.Take | src/jpeg-cpu.c:514-516 | `bit_buffer >> (32 - n)` then `bit_buffer <<= n` keeps the buffer aligned, leaves the cursor and removes exactly n from `bits_left` |
| Bits.TakeMeaning | src/jpeg-cpu.c:514-517 | the n bits taken are a number below 2^n formed by the leading pending bits, and the bits that stay pending are exactly the ones after them |
| Bits.FillLoads | src/jpeg-cpu.c:489-512 | the refill loads exactly BytesNeeded destuffed bytes: `bits_left` grows by 8 for each and the cursor ends after the last one |
| Bits.FillValue | src/jpeg-cpu.c:489-512 | after the refill the pending bits are the old pending bits followed by the bits of the loaded destuffed bytes, MSB first |
| Bits.GetNumBitsMeaning | src/jpeg-cpu.c:481-518 | `get_num_bits(d, n)` returns the next n bits of the destuffed stream: a number below 2^n that, followed by the bits still pending, equals the old pending bits followed by the loaded bytes; the cursor ends after those bytes and `bits_left` is the old count plus 8 per byte minus n |
| Bits.AlignToByte | src/jpeg-cpu.c:934-939 | dropping `bits_left % 8` bits keeps the buffer aligned, reaches a byte boundary and never moves the cursor |
| Cursor.Decompressor.constructor | src/jpeg-cpu.c:1155-1158 | a fresh reader is at byte 0 of the data with an empty bit buffer |
| Cursor.Decompressor.ReadByte | src/jpeg-cpu.c:63-67 | `read_byte` returns the byte under the cursor and advances it by one, without an end-of-data check |
| Cursor.Decompressor.ReadShort | src/jpeg-cpu.c:69-75 | `read_short` returns the big-endian 16-bit value at the cursor and advances it by two |
| Cursor.Decompressor.SkipBytes | src/jpeg-cpu.c:77-82 | `skip_bytes` moves the cursor to the position the spec function SkipTarget gives (n on, clamped at the end of the data) |
| Cursor.Decompressor.SkipMarker | src/jpeg-cpu.c:84-96 | `skip_marker` reads the segment length and skips the segment, with the outcome and cursor of SkipMarkerSpec |
| Cursor.Decompressor.CountAndSkipNonMarkerBytes | src/jpeg-cpu.c:98-109 | the loop returns the count and cursor of CountNonMarker (whose meaning Stream.CountNonMarkerMeaning states) |
| Cursor.Decompressor.GetMarkerAndIgnoreFFBytes | src/jpeg-cpu.c:111-120 | the loop returns the marker and cursor of MarkerAfterFF (meaning in Stream.MarkerAfterFFMeaning) |
| Cursor.Decompressor.SkipToNextMarker | src/jpeg-cpu.c:122-131 | returns the marker and cursor of NextMarker (meaning in Stream.NextMarkerMeaning) |
| Cursor.Decompressor.ReadDestuffedByte | src/jpeg-cpu.c:490-507 | one byte of the refill with stuffing and RSTm markers removed, as Destuff (meaning in Stream.DestuffMeaning) |
| Cursor.Decompressor.Refill | src/jpeg-cpu.c:489-512 | the refill loop leaves the bit state Fill gives (meaning in Bits.FillLoads and Bits.FillValue) |
| Cursor.Decompressor.GetNumBits | src/jpeg-cpu.c:481-518 | returns the bits and leaves the bit state of GetBits (meaning in Bits.GetNumBitsMeaning) |
| Cursor.Decompressor.AlignBits | src/jpeg-cpu.c:934-939 | drops the bits up to the next byte boundary, as AlignToByte |
| JpegInfo.ZeroInfo | src/jpeg-cpu.c:1125-1153 | the zero-initialised global header record is well formed and not yet valid |
| JpegInfo.InitInfo | src/jpeg-cpu.c:1125-1153 | `init_jpeg_info` marks the record valid, clears every `exists` flag of the 4 quantisation tables, 3 components and 2+2 Huffman tables and the scalar header fields, and keeps table contents, the grey-scale flag and the sampling maxima of the previous record |
| Segments.QuantValues | src/jpeg-cpu.c:146-158 | `form_low_precision_DQT` / `form_high_precision_DQT` read 64 values, one byte each for Pq = 0 and two bytes (big-endian) otherwise |
| Segments.ScatterFromEffect | src/jpeg-cpu.c:146-158 | the stores `table[zz[i]] = value i` from i on put every value at its zig-zag position and leave positions no later index addresses untouched |
| Segments.ScatterPlacesInZigZagOrder | src/jpeg-cpu.c:146-158 | value i of a DQT table lands at block position `ZIGZAG_ORDER[i]` (section A.3.6 of ITU-T T.81), so the stored table is the values in row-major order, whatever the table held before |
| Segments.DqtTableKeeps | src/jpeg-cpu.c:160-180 | one table of a DQT segment consumes 65 or 129 bytes when accepted, changes only the quantisation tables, and on rejection clears the validity flag only in the CPU parser |
| Segments.DqtTablesEffect | src/jpeg-cpu.c:183-198 | the table loop of `process_DQT` ends exactly at the segment end when every table is accepted, changes only the quantisation tables, and never moves the cursor back |
| Segments.DqtAccounting | src/jpeg-cpu.c:183-198 | an accepted DQT segment (section B.2.4.1 of ITU-T T.81) is consumed exactly, Lq bytes from the length field; only the quantisation tables change; a rejected one clears the validity flag in the CPU parser only |
| Segments.DqtTableMeaning | src/jpeg-cpu.c:160-180 | Tq above 3 is the only rejection (after one byte, with the failure state); otherwise table Tq becomes present, holds the 64 values (bytes for Pq = 0, 16-bit otherwise) in zig-zag order, and 65 or 129 bytes are consumed |
| Segments.DriMeaning | src/jpeg-cpu.c:200-209 | a DRI segment (section B.2.4.4 of ITU-T T.81) is accepted exactly when Lr is 4; then the restart interval is the next 16-bit value and 4 bytes are consumed; otherwise only the failure state is recorded |
| Segments.StartOfImageMeaning | src/jpeg-cpu.c:133-144 | `check_start_of_image` accepts exactly the data whose first two bytes are FF D8 (the SOI marker of section B.2.1 of ITU-T T.81) |
| Segments.PutComponent | src/jpeg-cpu.c:237-284 | a component stored in slot 0..2 is stored there and changes nothing else; a slot past the array only records an overflow |
| Segments.SofMetadata | src/jpeg-cpu.c:211-235 | `read_SOF_metadata` stores height, width and component count before checking them and changes nothing else; when accepted it consumed 6 bytes and the count is 1 to 3; the CPU parser clears the validity flag on rejection |
| Segments.SofComponent | src/jpeg-cpu.c:237-284 | one frame component descriptor changes only the component records, never clears the greyscale flag, consumes 3 bytes when accepted and is then a descriptor the variant accepts |
| Segments.SofComponentAccepted | src/jpeg-cpu.c:237-284 | a frame component descriptor is accepted exactly when its id selects a slot and its sampling factors are allowed (1 or 2 each for component 1, exactly 1 for the others), and then it consumed 3 bytes |
| Segments.SofComponents | src/jpeg-cpu.c:316-321 | the component loop of `process_SOFn` changes only the component records, consumes 3 bytes per component and accepts every descriptor when it succeeds |
| Segments.McuGeometryMeaning | src/jpeg-cpu.c:286-298 | the MCU geometry (section A.2 of ITU-T T.81): each plain count is the least number of 8-pixel blocks covering the dimension; the real count adds at most one block, to make it even when the maximum factor is 2 |
| Segments.SofRestAccepted | src/jpeg-cpu.c:316-328 | an accepted rest of the frame header keeps the dimensions and the component count, accepted every descriptor, consumed 3 bytes per component, matched Lf = 8 + 3 Nf and stored the MCU geometry |
| Segments.SofAccepted | src/jpeg-cpu.c:301-329 | a second SOF0 is rejected without moving; an accepted one (section B.2.2 of ITU-T T.81) has P = 8, nonzero Y and X stored as height and width, 1 to 3 accepted component descriptors, Lf = 8 + 3 Nf, and is consumed exactly |
| Segments.IntendedMaxInRange | src/jpeg-cpu.c:263-274 | the corrected maximum factors, the largest Hi (or Vi) of all accepted descriptors whatever their ids, are 1 or 2 and no descriptor's factor exceeds them |
| Segments.CountsTotal | src/jpeg-cpu.c:346-350 | the number of codes of length at most k is at most 255 k |
| Segments.LoadedOffsets | src/jpeg-cpu.c:345-350 | the offsets stored by `read_DHT` are 17 bytes wide (`uint8_t` values) |
| Segments.LoadedTableMeaning | src/jpeg-cpu.c:331-360 | the table `read_DHT` fills is present, holds the running totals of the counts modulo 256 (the `uint8_t` store) and the symbols that follow them, and keeps its codes |
| Segments.DhtTableKeeps | src/jpeg-cpu.c:331-360 | one DHT table changes only the Huffman tables, consumes at least one byte, and on rejection records only the failure state |
| Segments.DhtTablesEffect | src/jpeg-cpu.c:363-379 | the table loop of `process_DHT` ends exactly at the segment end when every table is accepted and changes only the Huffman tables |
| Segments.DhtAccounting | src/jpeg-cpu.c:363-379 | an accepted DHT segment (section B.2.4.2 of ITU-T T.81) is consumed exactly, Lh bytes from the length field; only the Huffman tables change; a rejected one clears the validity flag in the CPU parser only |
| Segments.DhtTableMeaning | src/jpeg-cpu.c:331-360 | a table id above 3 is the only error; otherwise the segment moves on by 17 plus the code count, and table Th of class Tc (0 or 1) is loaded with the counts and symbols; ids 2 and 3 record an overflow instead of a store |
| Segments.LoadedOffsetsExact | src/jpeg-cpu.c:345-350 | when the code counts add up to less than 256, the loaded offsets are the exact running totals and never decrease, as the canonical code generation requires |
| Segments.SosComponent | src/jpeg-cpu.c:403-426 | one scan component selector changes only the component records (not the frame's sampling maxima, DC or AC tables) and never revalidates the picture |
| Segments.SosComponents | src/jpeg-cpu.c:462-467 | the component loop of `process_SOS` consumes 2 bytes per component when accepted and changes only the component records |
| Segments.SosMetadata | src/jpeg-cpu.c:428-447 | `read_SOS_metadata` stores Ss, Se, Ah, Al before checking them, consumes 3 bytes, and accepts exactly Ss = 0, Se = 63, Ah = Al = 0 (baseline) |
| Segments.BuildTables | src/jpeg-cpu.c:392-401 | `build_huffman_tables` keeps the record well formed |
| Segments.SosFinishAccepted | src/jpeg-cpu.c:469-478 | an accepted rest of the scan header has the baseline scan parameters and Ls = 6 + 2 Ns, ends 3 bytes on and generated the codes of every present table |
| Segments.SosAccepted | src/jpeg-cpu.c:450-479 | an accepted scan header (section B.2.3 of ITU-T T.81) names as many components as the frame, at least one, has Ls = 6 + 2 Ns and the baseline Ss, Se, Ah, Al, is consumed exactly and generated the Huffman codes |
| Segments.SofFactors | src/jpeg-cpu.c:260-281 | the Hi/Vi byte and the Tqi byte of a frame component change only the component records and never the greyscale flag or the component count; an accepted descriptor consumes 2 bytes and keeps the validity flag, and a rejected one clears it in the CPU parser |
| Segments.BlocksCover | src/jpeg-cpu.c:287-288 | `(x + 7) / 8` is the least number of 8-pixel blocks that covers x pixels |
| Segments.QuantValue | src/jpeg-cpu.c:146-158 | a quantisation value, one byte or a big-endian 16-bit pair, is below 65536 |
| Segments.ScatterByInverse | src/jpeg-cpu.c:146-158 | storing value k at `zz[k]` for every k gives the table whose position q holds the value with zig-zag index `inv[q]` |
| Segments.CountsTotalMonotone | src/jpeg-cpu.c:346-350 | the running totals of the code counts never decrease with the code length |
| Parser.JpegParser.FormDqt | src/jpeg-cpu.c:146-158 | reading 64 values in zig-zag order stores value i at `zz[i]` of the table and advances 64 or 128 bytes |
| Parser.JpegParser.ReadAndFormDqt | src/jpeg-cpu.c:160-180 | `read_and_form_DQT` has the outcome, record, cursor and remaining length of DqtTable (meaning in Segments.DqtTableMeaning); DPU forms in src/dpu/dpu-jpeg-marker.c:41-60 and src/dpu/markers/dqt.c:28-47 |
| Parser.JpegParser.ProcessDqt | src/jpeg-cpu.c:183-198 | `process_DQT` has the outcome of Dqt (meaning in Segments.DqtAccounting); DPU forms in src/dpu/dpu-jpeg-marker.c:63-79 and src/dpu/markers/dqt.c:10-26 |
| Parser.JpegParser.ProcessDri | src/jpeg-cpu.c:200-209 | `process_DRI` has the outcome of Dri (meaning in Segments.DriMeaning); DPU forms in src/dpu/dpu-jpeg-marker.c:81-90 and src/dpu/markers/dri.c:5-15 |
| Parser.JpegParser.ReadSofMetadata | src/jpeg-cpu.c:211-235 | `read_SOF_metadata` has the outcome of SofMetadata; DPU forms in src/dpu/dpu-jpeg-marker.c:92-113 and src/dpu/markers/sof.c:40-61 |
| Parser.JpegParser.SelectComponent | src/jpeg-cpu.c:237-260 | id 0, or any id once the greyscale flag is set, selects slot id and sets the flag; ids 1 to 3 select slot id - 1; other ids fail (the DPU marker parser has only the 1 to 3 branch and does not clear the validity flag) |
| Parser.JpegParser.ReadSofComponent | src/jpeg-cpu.c:237-284 | `read_SOF_color_component_info` has the outcome of SofComponent (meaning in Segments.SofComponentAccepted); DPU forms in src/dpu/dpu-jpeg-marker.c:115-148 and src/dpu/markers/sof.c:63-108 |
| Parser.JpegParser.ReadSofFactors | src/jpeg-cpu.c:261-283 | the sampling factor and table bytes of a frame descriptor have the outcome of SofFactors |
| Parser.JpegParser.InitializeMcuHeightWidth | src/jpeg-cpu.c:286-298 | `initialize_MCU_height_width` stores the geometry of McuGeometry (meaning in Segments.McuGeometryMeaning); DPU forms in src/dpu/dpu-jpeg-marker.c:150-163 and src/dpu/markers/sof.c:110-123 |
| Parser.JpegParser.ReadSofComponents | src/jpeg-cpu.c:316-321 | the component loop has the outcome of SofComponents from component 0 |
| Parser.JpegParser.FinishSof | src/jpeg-cpu.c:316-328 | components, geometry and length check have the outcome of SofRest (meaning in Segments.SofRestAccepted) |
| Parser.JpegParser.ProcessSof | src/jpeg-cpu.c:301-329 | `process_SOFn` has the outcome of Sof (meaning in Segments.SofAccepted); DPU forms in src/dpu/dpu-jpeg-marker.c:166-194 and src/dpu/markers/sof.c:10-38 |
| Parser.JpegParser.ReadDht | src/jpeg-cpu.c:331-360 | `read_DHT` has the outcome, record, cursor and remaining length of DhtTable (meaning in Segments.DhtTableMeaning); DPU forms in src/dpu/dpu-jpeg-marker.c:196-224 and src/dpu/markers/dht.c:27-55 |
| Parser.JpegParser.ReadCounts | src/jpeg-cpu.c:345-351 | the Li loop stores the running totals LoadedOffsets, returns the code count and advances 16 bytes |
| Parser.JpegParser.ReadSymbols | src/jpeg-cpu.c:353-356 | the Vij loop stores the symbols LoadedValues, advances by the code count and reports an overflow exactly when more than 256 symbols are read |
| Parser.JpegParser.ProcessDht | src/jpeg-cpu.c:363-379 | `process_DHT` has the outcome of Dht (meaning in Segments.DhtAccounting); DPU forms in src/dpu/dpu-jpeg-marker.c:227-244 and src/dpu/markers/dht.c:8-25 |
| Parser.JpegParser.ReadSosComponent | src/jpeg-cpu.c:403-426 | `read_SOS_color_component_info` has the outcome of SosComponent; DPU forms in src/dpu/dpu-jpeg-marker.c:268-281 and src/dpu/markers/sos.c:43-68 |
| Parser.JpegParser.ReadSosMetadata | src/jpeg-cpu.c:428-447 | `read_SOS_metadata` has the outcome of SosMetadata; DPU forms in src/dpu/dpu-jpeg-marker.c:283-300 and src/dpu/markers/sos.c:70-87 |
| Parser.JpegParser.BuildHuffmanTables | src/jpeg-cpu.c:392-401 | `build_huffman_tables` leaves the record BuildTables gives: generated codes for every present table (Huffman.GeneratedCodesAreCanonical); DPU forms in src/dpu/dpu-jpeg-marker.c:257-266 and src/dpu/markers/sos.c:89-98 |
| Parser.JpegParser.ReadSosComponents | src/jpeg-cpu.c:462-467 | the component loop of `process_SOS` has the outcome of SosComponents |
| Parser.JpegParser.FinishSos | src/jpeg-cpu.c:469-478 | scan parameters, length check and code generation have the outcome of SosFinish (meaning in Segments.SosFinishAccepted) |
| Parser.JpegParser.ProcessSos | src/jpeg-cpu.c:450-479 | `process_SOS` has the outcome of Sos (meaning in Segments.SosAccepted); DPU forms in src/dpu/dpu-jpeg-marker.c:303-333 and src/dpu/markers/sos.c:11-41 |
| Parser.JpegParser.CheckStartOfImage | src/jpeg-cpu.c:133-144 | `check_start_of_image` has the outcome of StartOfImage (meaning in Segments.StartOfImageMeaning); only the CPU parser clears the validity flag itself; DPU form in src/dpu/dpu-jpeg-marker.c:13-25 |
| Parser.JpegParser.ReadNextMarker | src/jpeg-cpu.c:988-1045 | `read_next_marker` has the outcome of Headers.ReadNextMarker (meaning in Headers.ReadNextMarkerMeaning); DPU form in src/dpu/dpu-jpeg-marker.c:342-398 |
| Parser.JpegParser.ParseHeaders | src/jpeg-cpu.c:1167-1189 | `init_jpeg_info`, the SOI check and the marker loop of `jpeg_cpu_scale` give the record and cursor of CpuParse (meaning in Headers.CpuParseAccepted) |
| Headers.ReadNextMarkerMeaning | src/jpeg-cpu.c:988-1045 | `read_next_marker` reports the end of the headers exactly for SOS; the end of the data or a marker without a parser (SOF2 among them) clears the validity flag; a rejected DQT, DRI, SOF0 or DHT clears it too |
| Headers.DpuScanErrorIgnored | src/dpu/dpu-jpeg-marker.c:342-398 | for the bytes FF DA 00 08 01 01 00 00 3F 00 after `init_jpeg_info`, the DPU scan parser rejects the header (component count 1 against 0) yet the dispatcher ends the headers with the picture still valid |
| Headers.StepKeepsInvariant | src/jpeg-cpu.c:988-1045 | one dispatcher step keeps the header invariant and moves the cursor forward; a step that leaves the picture valid started inside the data; in the CPU parser a valid end of the headers has an accepted frame and scan header |
| Headers.CpuHeadersAccepted | src/jpeg-cpu.c:1182-1185 | the header loop of `jpeg_cpu_scale` ends with a valid picture only after an accepted frame header and an accepted scan header, past where it started |
| Headers.CpuParseAccepted | src/jpeg-cpu.c:1167-1189 | a file the CPU decoder accepts for decoding starts with SOI and has an accepted frame header (section B.2.2 of ITU-T T.81) and a baseline scan header (section B.2.3), and the scan data starts after byte 2 |
| Headers.SettleKeeps | src/jpeg-cpu.c:988-1045 | a segment parser that leaves the frame alone keeps the header invariant |
| Headers.NextMarkerAdvances | src/jpeg-cpu.c:122-131 | the marker search always moves the cursor forward, and when it finds a marker the cursor is not past the end of the data |
| Entropy.FindCode | src/jpeg-cpu.c:526-530 | the inner search of `huff_decode` returns the first index in [j, valoffset[i + 1]) whose code equals `code`, or none when no index there matches |
| Entropy.HuffDecodeFrom | src/jpeg-cpu.c:520-534 | `huff_decode` from a code length on yields a byte (0xFF when no code matches within 16 bits) and keeps the bit buffer aligned |
| Entropy.FindCodeCanonical | src/jpeg-cpu.c:526-530 | on the canonical codes of `generate_codes`, the linear search at one length finds the code exactly when it lies between the first code of that length and the count of its codes, at index VALPTR + CODE - MINCODE |
| Entropy.LengthSearch | src/jpeg-cpu.c:526-530 | the search at one length on canonical codes is the MAXCODE test of DECODE (Figure F.16 of ITU-T T.81): a code up to MAXCODE is found at VALPTR + CODE - MINCODE, none otherwise |
| Entropy.HuffDecodeIsDecode | src/jpeg-cpu.c:520-534 | on tables whose codes `generate_codes` produced from counts that did not overflow, `huff_decode` from any length agrees with DECODE of Figure F.16: the same symbol after the same bits, 0xFF where DECODE finds no code |
| Entropy.HuffDecodeAgreesWithDecode | src/jpeg-cpu.c:520-534 | started at the first bit of a code, `huff_decode` leaves the reader where DECODE (Figure F.16 of ITU-T T.81) does and returns its symbol, or 0xFF when DECODE finds none |
| Entropy.SearchLength | src/jpeg-cpu.c:526-530 | the inner loop returns the index FindCode specifies |
| Entropy.HuffDecodeBit | src/jpeg-cpu.c:523-531 | one code length of `huff_decode`: after one bit is read, a matching code returns its symbol, otherwise the search goes on at the next length with the extended code |
| Entropy.HuffDecode | src/jpeg-cpu.c:520-534 | the method reading one bit per length through `get_num_bits` returns the symbol and bit state of HuffDecodeFrom from length 0 (meaning in Entropy.HuffDecodeAgreesWithDecode) |
| Entropy.ExtendIsDecoding | src/jpeg-cpu.c:552-556 | the sign extension of `decode_mcu` is EXTEND of Figure F.12 of ITU-T T.81: any t bits decode to a coefficient of magnitude category t whose amplitude bits they are |
| Entropy.AmplitudeRoundTrip | src/jpeg-cpu.c:601-606 | every coefficient of category t comes back from its t amplitude bits, which are below 2^t |
| Entropy.AcCoefficients | src/jpeg-cpu.c:563-611 | the AC loop extends the values written so far, ends with status 0 and all 64 positions written or with status -1, and every value it writes fits in a `short` |
| Entropy.AcStep | src/jpeg-cpu.c:565-610 | one pass of the AC loop either ends the block (64 positions), fails, or goes on having written at least one more position, every new value a `short` |
| Entropy.AcSymbol | src/jpeg-cpu.c:566-610 | once the symbol is known: 0xFF is an error, EOB (0x00) fills the block, a run past position 63 or a size above 10 is an error, otherwise the run of zeros and the coefficient are written |
| Entropy.AcValue | src/jpeg-cpu.c:602-608 | an AC coefficient is EXTENDed and dequantised, and the stored value fits in a `short` |
| Entropy.DcValue | src/jpeg-cpu.c:542-558 | a DC symbol of 0xFF or a size above 11 fails and keeps the predictor; otherwise the new predictor is the `short` sum of the difference and the old predictor |
| Entropy.DcDifference | src/jpeg-cpu.c:552-558 | the DC difference added to the predictor is stored as a `short` |
| Entropy.Coefficients | src/jpeg-cpu.c:536-614 | `decode_mcu` ends with status 0 or -1; on success it wrote 64 values whose first is the dequantised predictor `(short)(dc * Q[0])`; every value written fits in a `short` |
| Entropy.PlaceEffect | src/jpeg-cpu.c:574-608 | the stores `buffer[ZIGZAG_ORDER[i]] = v` put each value at its zig-zag position and touch nothing else |
| Entropy.PlacedBlock | src/jpeg-cpu.c:557-608 | with all 64 values stored through an order whose inverse is inv, block position q holds value inv[q] and nothing outside the block changes |
| Entropy.DecodedBlockIsUnzigzag | src/jpeg-cpu.c:557-608 | a block decoded without error holds, at every position of the 8x8 block, the coefficient the zig-zag sequence puts there (every position written once), and nothing outside the block changes |
| Entropy.WriteZeros | src/jpeg-cpu.c:573-575 | the zero-fill writes n zeros at the next n zig-zag positions |
| Entropy.DecodeAcStep | src/jpeg-cpu.c:565-610 | one pass of the AC loop has the outcome of AcStep and leaves the buffer with the values placed in zig-zag order |
| Entropy.ReceiveAc | src/jpeg-cpu.c:602-608 | reading, EXTENDing and dequantising one AC coefficient has the outcome of AcValue |
| Entropy.DecodeAc | src/jpeg-cpu.c:563-611 | the AC loop has the outcome of AcCoefficients and leaves the values placed in zig-zag order |
| Entropy.DecodeDc | src/jpeg-cpu.c:542-558 | the DC part has the outcome of DcValue |
| Entropy.ReceiveDc | src/jpeg-cpu.c:552-558 | reading and EXTENDing the DC difference and adding the predictor has the outcome of DcDifference |
| Entropy.DecodeCoefficients | src/jpeg-cpu.c:536-614 | the body of `decode_mcu` once the tables are chosen has the outcome of Coefficients and writes the block at `buffer[0..64]` in zig-zag order |
| Entropy.CpuDecodeMcu | src/jpeg-cpu.c:536-614 | `decode_mcu` of the CPU decoder, with the component's table ids naming existing tables, has the outcome of Coefficients with `ZIGZAG_ORDER` (meaning in Entropy.DecodedBlockIsUnzigzag) |
| Entropy.DpuDecodeMcu | src/dpu/dpu-jpeg-decode.c:248-356 | `decode_mcu` of the DPU decoder has the outcome of DpuBlock and writes the tasklet's cache block in zig-zag order |
| Entropy.DpuBlockMeaning | src/dpu/dpu-jpeg-decode.c:248-356 | the DPU reports -2 exactly for a quantisation table id of 4 or more and -3 exactly for a DC or AC table id of 2 or more (with a good quantisation id), before anything is read or written; a block decoded without error covers 64 positions |
| Entropy.ZigZagIsCoefficientOrder | src/jpeg-cpu.c:54-57 | `ZIGZAG_ORDER` is an order of the 64 block positions that starts with the DC position 0, the order the entropy decoder places coefficients in |
| Idct.Idct | src/jpeg-cpu.c:724-868 | every entry `inverse_dct_component` leaves in a block is a `short` |
| Idct.StoreColumn | src/jpeg-cpu.c:788-795 | the eight stores of the first loop put output r at row r of column i, as a `short`, and change nothing else |
| Idct.StoreRow | src/jpeg-cpu.c:798-868 | the eight stores of the second loop put output k at column k of row i, as a `short`, and change nothing else |
| Idct.TransformColumns | src/jpeg-cpu.c:727-796 | the first loop leaves the block transformed column by column (ColumnPass) and touches nothing outside the block |
| Idct.TransformRows | src/jpeg-cpu.c:798-868 | the second loop leaves the block transformed row by row (RowPass) and touches nothing outside the block |
| Idct.InverseDctComponent | src/jpeg-cpu.c:724-868 | `inverse_dct_component` leaves Idct of the block in place and touches nothing outside it; the DPU form at src/dpu/dpu-jpeg-decode.c:479-623 is the same transform |
| Idct.ButterflyDcOnly | src/jpeg-cpu.c:729-795 | the butterfly sends a line whose only nonzero sample is the first one to the constant line `((v * 181) >> 5) >> 4` |
| Idct.ColumnPassDcOnly | src/jpeg-cpu.c:727-796 | the first pass over a block that is zero but for its DC entry makes column 0 constant and leaves every other column zero |
| Idct.RowPassDcOnly | src/jpeg-cpu.c:798-868 | the second pass over a block whose only nonzero column is a constant column 0 makes every entry the same value |
| Idct.DcLevel | src/jpeg-cpu.c:724-868 | the level of a DC-only block after both passes is a `short` |
| Idct.DcOnlyBlockIsConstant | src/jpeg-cpu.c:724-868 | a block that is zero except for its DC entry becomes a constant block, as the 2-D inverse DCT (section A.3.3 of ITU-T T.81) of a DC-only block is |
| Idct.ZeroBlockStaysZero | src/jpeg-cpu.c:724-868 | an all-zero block stays all-zero |
| Colour.Clamp | src/jpeg-cpu.c:902-913 | the clamping leaves a value in 0..255 unchanged and sends values below 0 to 0 and above 255 to 255 |
| Colour.NearReference | src/jpeg-cpu.c:897-899 | for samples in the range the inverse DCT gives an 8-bit image, the `short` stores change nothing and the integer coefficients 45/32, 11/32 and 23/32, 113/64 stay within 2 of the JFIF reference 1.402, 0.344136 and 0.714136, 1.772 |
| Colour.ChromaAt | src/jpeg-cpu.c:880-882 | the chroma sample of pixel (y, x) of the block at (v, h) of the MCU, row `y / maxV + 4v` and column `x / maxH + 4h`, lies within the plane |
| Colour.ChromaAtOrBefore | src/jpeg-cpu.c:876-882 | the first block of an MCU reads its own chroma samples at or before the pixel being converted, which is why the loops run backwards |
| Colour.PixelStepAt | src/jpeg-cpu.c:897-917 | converting one pixel stores red, green and blue, computed from its luma and chroma, at `pixel`, `64 + pixel` and `128 + pixel`, and changes nothing else |
| Colour.CpuAfterMeaning | src/jpeg-cpu.c:872-920 | after k steps of the loops, the last k pixels carry the colour computed from the ORIGINAL luma and chroma samples and every other cell is unchanged: no chroma sample is overwritten before it is read |
| Colour.ConvertPixel | src/jpeg-cpu.c:879-917 | the loop body converts one pixel as PixelStep |
| Colour.CpuYcbcrToRgb | src/jpeg-cpu.c:872-920 | `ycbcr_to_rgb_pixel` of the CPU decoder leaves the memory CpuAfter gives after all 64 pixels (meaning in Colour.CpuAfterMeaning) |
| Colour.CpuRow | src/jpeg-cpu.c:878-918 | the inner loop converts row y of the block, pixel 8y + 7 first, after the rows below it |
| Colour.DpuPixelAt | src/dpu/dpu-jpeg-decode.c:636 | the `uint8_t pixel = cache_index + 8 * y + x` is the cache offset modulo 256 plus the pixel index |
| Colour.DpuYcbcrToRgb | src/dpu/dpu-jpeg-decode.c:626-669 | `ycbcr_to_rgb_pixel` of the DPU decoder performs the CPU conversion with the luma plane at the wrapped offset `cache_index % 256` |
| Colour.DpuRows | src/dpu/dpu-jpeg-decode.c:632-668 | the outer loop of the DPU conversion performs the 64 steps of CpuAfter |
| Colour.DpuRow | src/dpu/dpu-jpeg-decode.c:634-667 | the inner loop converts row y of the block |
| Colour.DpuPixelWraps | src/dpu/dpu-jpeg-decode.c:636 | for the lower-left block of a 2x2 MCU (`cache_index` 384) the 8-bit pixel wraps to 128, so the block is converted over the first block's red plane instead of in its own planes |
| Colour.DpuIntendedLayout | src/dpu/dpu-jpeg-decode.c:636 | with `pixel` an `int`, every block (v, h) of a 4-block MCU is converted at its own cache offset, a layout the conversion handles (meaning in Colour.CpuAfterMeaning) |
| Scanline.BlockOffsetBound | src/jpeg-cpu.c:947 | every plane of every block position of an `h x w` grid lies inside the `h * w * 3 * 64` entries of the buffer |
| Scanline.BlocksApart | src/jpeg-cpu.c:947 | two different block positions of the grid lie 192 entries or more apart |
| Scanline.RowInFrame | src/jpeg-cpu.c:927-947 | the rows the loops visit plus a block offset below maxV stay below `mcu_height_real`, which rounds up to the sampling factor |
| Scanline.PositionsDistinct | src/jpeg-cpu.c:969-974 | the conversion loops visit each block of the MCU once |
| Scanline.FirstBlockLast | src/jpeg-cpu.c:969-974 | the first block of the MCU, whose chroma every block reads, is converted last |
| Scanline.McuBlockApart | src/jpeg-cpu.c:968-973 | each block the loops convert and the first block are the same block or do not overlap |
| Scanline.McuAfterMeaning | src/jpeg-cpu.c:967-974 | after the first n conversions of the MCU, each of the n blocks holds, pixel by pixel, the colour computed from the ORIGINAL luma of that block and the ORIGINAL chroma of the first block, and every other cell is unchanged |
| Scanline.ConvertMcu | src/jpeg-cpu.c:967-974 | the colour loops of `decompress_scanline` leave the memory McuAfter gives for all blocks of the MCU (meaning in Scanline.McuAfterMeaning) |
| Decode.DecodeBlock | src/jpeg-cpu.c:947-962 | one block of the MCU: `decode_mcu` and, when it succeeds, the inverse DCT; the method succeeds exactly when the spec step BlockStep does and then leaves its buffer, bit state and DC predictions |
| Decode.RowBlocksNone | src/jpeg-cpu.c:950-955 | once a block fails every later prefix of the block loops fails too: the error is not recovered from |
| Decode.BlockInMcu | src/jpeg-cpu.c:947 | the block of colour ci at (y, x) of an MCU that fits lies inside the buffer of `mcu_height_real * mcu_width_real * 3 * 64` entries |
| Decode.DecodeBlockRow | src/jpeg-cpu.c:944-963 | the x loop decodes the blocks of one block row of a colour and succeeds exactly when RowBlocks does, leaving its state |
| Decode.DecodeComponent | src/jpeg-cpu.c:943-964 | the y loop decodes the blocks of one colour of the MCU and succeeds exactly when ComponentBlocks does, leaving its state |
| Decode.DecodeMcuBlocks | src/jpeg-cpu.c:942-965 | the colour loop decodes every block of every colour of the MCU, stopping at the first `decode_mcu` error, and succeeds exactly when McuBlocks does |
| Decode.LoopStep | src/jpeg-cpu.c:927-928 | a loop `v += f` below n over a range rounded up to a multiple nr of f: each step stays within nr and the loop ends after nr / f steps |
| Decode.CountIsProduct | src/jpeg-cpu.c:925 | the restart period `restart_interval * max_h * max_v` of the source is the interval times the number of blocks of an MCU |
| Decode.McuInBuffer | src/jpeg-cpu.c:923 | the MCU at (row, col) of the loops lies in the buffer of `mcu_height_real * mcu_width_real` block positions |
| Decode.RestartIfDue | src/jpeg-cpu.c:929-940 | when the restart period divides the block position the DC predictions are cleared and the reader dropped to a byte boundary; otherwise nothing changes |
| Decode.RestartDueIs | src/jpeg-cpu.c:929 | the restart test of the model is the test of the source: a nonzero period dividing `row * mcu_width_real + col` |
| Decode.DecodeMcu | src/jpeg-cpu.c:929-974 | one iteration of the column loop (restart check, blocks, colour conversion) succeeds exactly when the spec step McuStep does and then leaves its buffer, bit state and predictions |
| Decode.DecodeMcuRow | src/jpeg-cpu.c:928-975 | the column loop decodes every MCU of a row, stopping at the first error, with the outcome of RowScan |
| Decode.DecompressScanline | src/jpeg-cpu.c:922-979 | `decompress_scanline` returns a fresh buffer holding the decoded picture exactly when the scan decodes without error (the spec Decompressed), and otherwise returns null and clears the validity flag |
| Decode.DecodeScan | src/jpeg-cpu.c:927-976 | the row loop decodes every MCU row in turn, stopping at the first error, with the outcome of Decompressed |
| Decode.GreyFrameKeepsMaxima | src/jpeg-cpu.c:237-279 | the CPU parser accepts an 8 x 8 frame with one component of id 0 (factors 1, 1) from any record without a frame, leaving the maximum factors as they were: `max_h_samp_factor` and `max_v_samp_factor` are set for id 1 only |
| Decode.GreyFrameStalls | src/jpeg-cpu.c:263-274 | from a record whose maxima are 0, as the zero-initialised global's are, that greyscale frame is accepted with both maxima 0, so the geometry the row and column loops need fails and `row += max_v_samp_factor` never moves |
| Decode.IntendedMaximaFitScan | src/jpeg-cpu.c:926-928 | with the maxima taken over every descriptor of an accepted frame, the block counts stay the same and the geometry the loops of `decompress_scanline` need holds |
| DpuLayout.RowMajorUnique | src/dpu/dpu-jpeg-decode.c:442 | `row * mcu_count_h_real + col` names each block position of the row-major grid once |
| DpuLayout.BlockIndexUnique | src/dpu/dpu-jpeg-decode.c:442 | different blocks of the picture have different `mcu_index` values and equal indices mean equal blocks: the layout of `MCU_buffer` is one-to-one |
| DpuLayout.BlocksApart | src/dpu/dpu-jpeg-decode.c:442-443 | every block of the picture lies inside `h * w * 192` shorts and the 64 shorts of two different blocks do not overlap |
| DpuLayout.DecodeIndexExact | src/dpu/dpu-jpeg-decode.c:59-63 | the `uint16_t mcu_index` of `decode_bitstream` is the block index while the picture has at most 65536 block planes |
| DpuLayout.DecodeIndexWraps | src/dpu/dpu-jpeg-decode.c:59-63 | in a picture 4096 blocks wide the Cb plane of block (5, 1365) has block index 65536 and gets the 16-bit index of the first block |
| DpuLayout.CacheIndexLayout | src/dpu/dpu-jpeg-decode.c:447-449 | `cache_index` is 384y + 192x + 64p: the blocks of an MCU of at most 2 x 2 positions take 768 shorts without overlapping |
| DpuLayout.CacheIndexOverflow | src/dpu/dpu-jpeg-decode.c:17 | a tasklet's row of `MCU_cache` holds 192 shorts, so a block lies inside it exactly when it is at position (0, 0) of its MCU |
| DpuLayout.EvenRowIs | src/dpu/dpu-jpeg-decode.c:415-422 | below 65535 the `uint16_t` row moved up to an even value is the least even number at or above it |
| DpuLayout.StartsMonotone | src/dpu/dpu-jpeg-decode.c:415 | the first rows of the tasklets do not decrease with the tasklet id |
| DpuLayout.OwnerStarts | src/dpu/dpu-jpeg-decode.c:415-428 | the tasklet chosen for a row starts at or before it and every later tasklet starts after it |
| DpuLayout.StartsEven | src/dpu/dpu-jpeg-decode.c:415-419 | every tasklet starts on an even MCU row |
| DpuLayout.OwnerOwns | src/dpu/dpu-jpeg-decode.c:415-428 | every MCU row of the picture lies in the rows of exactly one tasklet |
| DpuLayout.TaskletsTile | src/dpu/dpu-jpeg-decode.c:413-430 | the row ranges of `inverse_dct_convert` start on even rows and tile the MCU rows: each row is converted by exactly one tasklet |
| DpuReader.Window | src/dpu/dpu-jpeg-reader.c:42 | an `mram_read` copies 1024 bytes of the file |
| DpuReader.TaskletEnd | src/dpu/dpu-jpeg-reader.c:26-29 | the length of a tasklet is the end of its share of the data or the file length, whichever is smaller |
| DpuReader.PrefetchReader.constructor | src/dpu/dpu-jpeg-reader.c:6-9 | a reader over the MRAM file starts at position 0 with an empty cache |
| DpuReader.PrefetchReader.InitFileReaderIndex | src/dpu/dpu-jpeg-reader.c:15-18 | the reader is at position 0 with the cache used up, so the first read loads MRAM address 0 |
| DpuReader.PrefetchReader.InitJpegDecompressor | src/dpu/dpu-jpeg-reader.c:20-33 | the tasklet starts at `image_data_start + size_per_tasklet * tasklet_id` with the next load 8-byte aligned, its length is TaskletEnd and its bit buffer is empty |
| DpuReader.PrefetchReader.LoadCache | src/dpu/dpu-jpeg-reader.c:42 | the cache then holds the 1024 bytes of the file at `file_index` |
| DpuReader.PrefetchReader.ReadByte | src/dpu/dpu-jpeg-reader.c:39-48 | the position moves by one, the block reloaded is the next one, and the byte returned is the file's byte at the old position whenever the cache mirrors MRAM or the position is before the end |
| DpuReader.PrefetchReader.ReadShort | src/dpu/dpu-jpeg-reader.c:50-56 | two bytes are read and the big-endian value of the file at the old position is returned |
| DpuReader.PrefetchReader.SkipBytes | src/dpu/dpu-jpeg-reader.c:82-97 | the position moves as the CPU cursor's `skip_bytes` does (`Stream.SkipTarget`), being put at the end when it passes it |
| DpuReader.PrefetchReader.SkipMarker | src/dpu/dpu-jpeg-reader.c:58-69 | status and new position are those of the CPU `skip_marker` (`Stream.SkipMarkerSpec`), an invalid status for a length below 2 |
| DpuReader.PrefetchReader.CountAndSkipNonMarkerBytes | src/dpu/dpu-jpeg-reader.c:99-110 | the count and the new position are those of the CPU scan (`Stream.CountNonMarker`), -1 at the end of the tasklet's data |
| DpuReader.PrefetchReader.GetMarkerAndIgnoreFFBytes | src/dpu/dpu-jpeg-reader.c:112-121 | the marker code and new position are those of `Stream.MarkerAfterFF`: the first byte after the 0xFF run, or -1 at the end |
| DpuReader.PrefetchReader.SkipToNextMarker | src/dpu/dpu-jpeg-reader.c:71-80 | the result and new position are those of the CPU `skip_to_next_marker` (`Stream.NextMarker`) |
| Bmp.LastDot | src/bmp.c:9 | `strrchr` finds a '.' of the name when it finds anything |
| Bmp.LastDotMeaning | src/bmp.c:9 | `strrchr` finds nothing exactly when the name has no '.', and otherwise no '.' follows the one it finds |
| Bmp.BmpFilenameMeaning | src/bmp.c:6-17 | the output name is the input name up to its last '.' (the whole name when it has none) followed by "-dpu.bmp", and fits the `strlen + 9` bytes allocated for it |
| Bmp.WindowInfoHeader | src/bmp.c:19-33 | the info header holds the width and height, 40 as its size, one plane, 24 bits per pixel, BI_RGB, and `width * height * 3` truncated to 32 bits as the data length |
| Bmp.FileHeader | src/bmp.c:35-40 | the data offset is 14 + 40 and the file size is that offset plus the data length, truncated to 32 bits |
| Bmp.LE16RoundTrip | src/bmp.c:76-77 | a 16-bit field written little-endian reads back as itself |
| Bmp.LE32RoundTrip | src/bmp.c:76-77 | a 32-bit field written little-endian reads back as itself |
| Bmp.HeaderBytes | src/bmp.c:76 | the packed `BmpHeader` is 14 bytes |
| Bmp.InfoBytes | src/bmp.c:77 | the packed `WindowsInfoheader` is 40 bytes |
| Bmp.HeaderRoundTrip | src/bmp.c:76 | reading the 14 bytes written for a header, whatever follows them, gives the header back |
| Bmp.SampleInBuffer | src/bmp.c:47-57 | for a buffer covering `mcu_width` MCUs per row and the picture's rows, every sample `(mcu_index * 3 + p) * 64 + pixel_index` the body reads lies inside it |
| Bmp.RowPixels | src/bmp.c:50-59 | a row of n pixels is 3n bytes |
| Bmp.RowBytes | src/bmp.c:50-64 | a written row is `3 * width + padding` bytes |
| Bmp.RowsWritten | src/bmp.c:46-65 | k written rows take k strides |
| Bmp.Body | src/bmp.c:43 | the body is `height * (3 * width + padding)` bytes, the size allocated |
| Bmp.RowPixelsPrefix | src/bmp.c:50-59 | the pixels of a row are written left to right: a longer row extends a shorter one |
| Bmp.RowsWrittenPrefix | src/bmp.c:46 | the rows are written one after the other: writing more rows extends the body written so far |
| Bmp.RowPixelAt | src/bmp.c:55-57 | byte 3x + c of a row is channel c of pixel x, blue, green, red from planes 2, 1, 0 |
| Bmp.RowWrittenAt | src/bmp.c:46 | the k-th row written is picture row `height - 1 - k`: rows go bottom-up |
| Bmp.RowsWrittenByPosition | src/bmp.c:46-65 | every byte of the rows written is the byte its position names: row, pixel, channel or padding |
| Bmp.BodyIsByPosition | src/bmp.c:42-66 | every byte of the body is blue, green, red of the pixel its position names, rows bottom-up, with zero padding |
| Bmp.InitializeBmpBody | src/bmp.c:42-66 | `initialize_bmp_body` returns a buffer holding Body (meaning in Bmp.BodyIsByPosition) |
| Bmp.FillRows | src/bmp.c:46-65 | the outer loop writes all rows of the picture, bottom row first |
| Bmp.FillRow | src/bmp.c:47-64 | one pass writes row y and its padding after what was written before, leaving that unchanged |
| Bmp.PictureShown | src/bmp.c:53-57 | a buffer that covers the picture lets every row of it be read |
| Bmp.FillPixels | src/bmp.c:50-59 | the inner loop writes the width pixels of row y after what was written before |
| Bmp.StorePixel | src/bmp.c:55-58 | one pixel is written as blue, green, red at `ptr`, which moves by 3 |
| Bmp.FillPadding | src/bmp.c:61-64 | the padding loop writes `image_padding` zeros |
| Bmp.PaddingAligns | src/jpeg-cpu.c:289 | the padding `image_width % 4` makes every row a multiple of four bytes, and no smaller padding does |
| Bmp.BmpFileTruncated | src/bmp.c:27-28 | for a 1 x 1 picture the header counts 3 data bytes but the body has 4, so the written file lacks the last padding byte and its size field is one short |
| Bmp.WrittenWhole | src/bmp.c:76-78 | a body whose length the info header states is written whole, after the 54 header bytes |
| Bmp.IntendedBmpFileComplete | src/bmp.c:27-28 | with the data length counting the padded rows, the file is written whole, its size field is its length, its data offset is where the body starts and its header reads back |
| Legacy.LegacySkipBounded | jpeg-cpu.c:134-141 | `skip_bytes` never moves the cursor backwards or past the end, and moves it exactly as the newer decoder's `skip_bytes` does |
| Legacy.SkipVariableAgrees | jpeg-cpu.c:144-158 | `skip_variable` returns 0 or -1, moves the cursor as the newer `skip_marker` does, and returns -1 exactly when that one reports an invalid length (below 2) |
| Legacy.HFactorIsLowNibble | jpeg-cpu.c:222-224 | the horizontal factor as stored, `factor << 4` in a byte, is the vertical factor times 16: for H = 2, V = 1 (0x21) it is 16, not 2 |
| Legacy.IntendedFactorsSplit | jpeg-cpu.c:222-224 | with H taken as `factor >> 4`, H and V are the two nibbles and together give back the byte |
| Legacy.SofCompsMeaning | jpeg-cpu.c:219-230 | after k passes of the SOF component loop, slot i holds component record i for i < k and is unchanged otherwise; stores past the table set the overflow flag, exactly when k exceeds it |
| Legacy.ScanCompsMeaning | jpeg-cpu.c:266-277 | after k passes of the SOS component loop, slot i holds the selector and the DC and AC table numbers (`Td >> 4`, `Ta & 0xF`) of entry i for i < k and is unchanged otherwise; overflow exactly when k exceeds the table |
| Legacy.MaxFactors | jpeg-cpu.c:288-295 | both maximum factors are at least 1 |
| Legacy.MaxFactorsMeaning | jpeg-cpu.c:288-295 | each maximum is `max(1, factors of the first k components)`: at least 1 and every factor, and equal to 1 or one of them |
| Legacy.McusPerRowWrong | jpeg-cpu.c:300 | a picture 64 pixels wide with factor 1 needs 8 MCU columns, but `image_width / max_h_samp_factor * DCTSIZE` gives 512, stored as 0 |
| Legacy.IntendedMcusPerRowCovers | jpeg-cpu.c:300 | the corrected count `ceil(width / (8 * maxH))` is the least number of MCU columns that covers the width |
| Legacy.ScanSpecMeaning | jpeg-cpu.c:255-328 | after a scan header the first-scan flag is clear, both maxima are at least 1 and on the first scan are those of the frame's first `comps_in_scan` components (kept otherwise), Ah and Al are the two nibbles of the byte read, and the cursor is after the `7 + 2n` bytes read and the byte `decode_ecs` reads |
| Legacy.SofMarkers | jpeg-cpu.c:345-366 | the frame markers taken are 0xC0-0xCF other than DHT (0xC4), JPG (0xC8) and DAC (0xCC) |
| Legacy.FrameSearchOutcome | jpeg-cpu.c:330-384 | `find_frame` returns 0 or -1, touches neither the first-scan flag nor the scan components, and at the end of the data returns -1 at once |
| Legacy.FrameSearchAtSof | jpeg-cpu.c:345-349 | a frame marker at the cursor is processed by `process_SOFn` and the search stops with 0 |
| Legacy.FrameSearchAtDri | jpeg-cpu.c:373-376 | a DRI segment at the cursor sets the restart interval and the search continues after its 6 bytes |
| Legacy.ScanSearchOutcome | jpeg-cpu.c:386-425 | `find_scan` returns 0 or -1, 0 exactly when it processed SOS (which clears the first-scan flag); on -1 the decoder state is unchanged and at the end of the data it is -1 |
| Legacy.Decoder.constructor | jpeg-cpu.c:429-433 | the decoder holds the cursor over the file and the state record |
| Legacy.Decoder.SkipBytes | jpeg-cpu.c:134-141 | `skip_bytes` moves the cursor as LegacySkip (meaning in Legacy.LegacySkipBounded) |
| Legacy.Decoder.SkipVariable | jpeg-cpu.c:144-158 | `skip_variable` returns and moves as SkipVariableSpec (meaning in Legacy.SkipVariableAgrees) |
| Legacy.Decoder.NextMarker | jpeg-cpu.c:160-189 | `next_marker` returns the marker after the next 0xFF run and moves as the newer decoder's `Stream.NextMarker` |
| Legacy.Decoder.ReadJpegHeader | jpeg-cpu.c:191-206 | `read_jpeg_header` always returns 0, reads two bytes when not at the end, and the file counts as JPEG exactly when they are 0xFF, SOI |
| Legacy.Decoder.ProcessSofn | jpeg-cpu.c:208-231 | `process_SOFn` leaves the state and cursor SofSpec gives (meaning in Legacy.SofCompsMeaning) |
| Legacy.Decoder.ReadSofComponents | jpeg-cpu.c:219-230 | the component loop reads 3 bytes per component and stores the records as SofComps says |
| Legacy.Decoder.ProcessResetInterval | jpeg-cpu.c:233-245 | `process_reset_interval` always returns 0, warns exactly when the length field is not 4, and stores the 16-bit interval |
| Legacy.Decoder.ProcessScan | jpeg-cpu.c:255-328 | `process_scan` returns 0 with the state and cursor of ScanSpec (meaning in Legacy.ScanSpecMeaning) |
| Legacy.Decoder.ReadScanHeader | jpeg-cpu.c:260-283 | the header reads up to Ah/Al leave the state ScanHeader gives |
| Legacy.Decoder.FinishScanHeader | jpeg-cpu.c:285-303 | the first-scan block and the MCU counts leave the state FinishScan gives |
| Legacy.Decoder.ReadScanComponents | jpeg-cpu.c:266-277 | the component loop reads 2 bytes per component and stores them as ScanComps says |
| Legacy.Decoder.FindMaxFactors | jpeg-cpu.c:285-296 | the first-scan block clears the flag and sets the maxima MaxFactors gives |
| Legacy.Decoder.FindFrame | jpeg-cpu.c:330-384 | `find_frame` returns and leaves what FrameSearch gives (meaning in Legacy.FrameSearchOutcome) |
| Legacy.Decoder.FindScan | jpeg-cpu.c:386-425 | `find_scan` returns and leaves what ScanSearch gives (meaning in Legacy.ScanSearchOutcome) |
| Legacy.JpegCpuScale | jpeg-cpu.c:427-448 | `jpeg_cpu_scale` leaves the record CpuScale gives: header check, frame search, then the first scan with the first-scan flag set |
| PenjiUtil.Read1 | penji/util.h:31-51 | `read_1_byte` moves the file forward and returns the byte it ends on, or exits the program at the end of the file leaving the reader as it was; an exited program reads 0 and stays exited |
| PenjiUtil.ReadBytes | penji/util.h:31-51 | n calls of `read_1_byte` return n bytes, and nothing after the program has exited |
| PenjiUtil.ReadBytesSplit | penji/util.h:31-51 | reading a + b bytes is reading a bytes and then b more |
| PenjiUtil.StuffedParts | penji/util.h:38-43 | the stuffed form of a byte sequence (section F.1.2.3 of ITU-T T.81) starts with its first byte, has a 0x00 after a 0xFF, and continues with the stuffed rest |
| PenjiUtil.ReadStuffedStep | penji/util.h:31-51 | one read over stuffed data returns the first data byte and leaves the reader before the stuffed rest |
| PenjiUtil.ReadUnstuffs | penji/util.h:31-51 | `read_1_byte` undoes byte stuffing: reading \|bs\| bytes from the stuffed form of bs (placed after a byte that is not 0xFF) returns bs without a premature exit |
| PenjiUtil.Read2 | penji/util.h:53-63 | `read_2_bytes` is a 16-bit value `(c1 << 8) + c2` and moves the file forward within the data unless the program exits |
| PenjiUtil.CountStaysAsWritten | penji/util.h:43-48 | reading 0xFF 0x00 0x12 returns 0xFF and 0x12 from three file bytes, but `*bytes_read++` leaves the count at 0 where the intended count is 3 |
| PenjiUtil.IntendedCountIsConsumed | penji/util.h:31-51 | with `(*bytes_read)++` once per `getc` that returned a byte, the count after any number of reads has grown by exactly the file bytes consumed, stuffed 0x00 bytes included |
| PenjiUtil.IntendedCountUnstuffs | penji/util.h:31-51 | the corrected count over byte-stuffed data: reading the \|bs\| data bytes of the stuffed form of bs returns bs and raises the count by the length of the stuffed form, plus a 0x00 owed at the start (last byte read 0xFF) and less a 0x00 still owed at the end |
| PenjiUtil.SeekFF | penji/util.h:83-86 | the first loop of `next_marker` reads until the byte read is 0xFF, never moving back |
| PenjiUtil.SkipFill | penji/util.h:89-91 | the do-while loop reads past fill bytes 0xFF and ends on a byte that is not 0xFF, at least one byte on |
| PenjiUtil.NextMarkerRead | penji/util.h:78-95 | `next_marker` returns `(0xFF << 8) + c2`, a code 0xFF00 to 0xFFFE whose low byte is the last byte read, at least two bytes on, unless the file ends first |
| PenjiUtil.SeekMarker | penji/mcu_block_counter.c:202-204 | the loop `while (marker != target) next_marker(...)` ends with the marker found unless the file ends, never moving back |
| PenjiUtil.AddLayerLeaves | penji/util.h:127-156 | after `tree_node_add_layer` the leaves are, in order, the two new children of each old leaf (codes 2c and 2c + 1, one bit longer), and inner nodes keep their fields |
| PenjiUtil.LayeredAddLayer | penji/util.h:127-156 | a new layer doubles the codes of the free leaves and the first free code, one level down |
| PenjiUtil.LeftMostFinds | penji/util.h:158-178 | `get_available_left_most_node` finds the unassigned leaf with the least code, and returns NULL exactly when no leaf is free |
| PenjiUtil.AssignStep | penji/util.h:234-235 | assigning the node found uses up exactly the first free code |
| PenjiUtil.SymbolsOfLengthShape | penji/util.h:233-257 | the inner loop stops where `read_1_byte` ends the program at the end of the file; it crashes (NULL dereference) exactly when the codes of its length run past the layer and the file did not end first; it changes only the chain of its length, and otherwise gives it the consecutive codes from the first free one |
| PenjiUtil.SymbolsOfLengthValues | penji/util.h:233-257 | without a crash the file is where reading the symbol bytes leaves it, and, unless the program exited, the chain of the length gets, in order, the values of the bytes the loop reads |
| PenjiUtil.LayerStep | penji/util.h:229-257 | one turn of the outer loop: a new layer, then the symbols of length i + 1, which crash exactly when the codes used reach past 2^(i + 1) and the file did not end first |
| PenjiUtil.LayersShape | penji/util.h:229-258 | the outer loop stops at an exit at the end of the file; it crashes exactly when some later length has more codes than room in its layer and the file did not end first, and otherwise completes every chain |
| PenjiUtil.LayersValues | penji/util.h:229-258 | without a crash the file is where reading all the symbol bytes leaves it, and, unless the program exited, the chains hold, in order, the values of the bytes read |
| PenjiUtil.ParseTableMeaning | penji/util.h:204-262 | `parse_huffman_table` reads the length, the class and destination byte and the 16 counts, then crashes exactly when the counts overfill the code tree and the file did not end first (a file that ends within the table ends the program in `read_1_byte`); otherwise every chain of length i + 1 holds the canonical codes 2 Used(i), 2 Used(i) + 1, ... with the symbol values read in order |
| PenjiUtil.UsedIsFirstCode | penji/util.h:229-258 | the first free code at each length is the first code `generate_codes` of the decoder gives that length |
| PenjiUtil.GeneratedCodesMatchTree | penji/util.h:204-262 | the tree of `parse_huffman_table` and `generate_codes` of the decoder agree: given the counts as `valoffset`, the j-th symbol of length i + 1 gets code 2 Used(i) + j from both |
| PenjiUtil.JpegFile.ReadOneByte | penji/util.h:31-51 | `read_1_byte` returns the byte and state of Read1 and leaves the count as written |
| PenjiUtil.JpegFile.ReadOneByteCounted | penji/util.h:31-51 | `read_1_byte` with the increments corrected returns the byte and state of Read1 and raises the count by IntendedCount over one read: the file bytes it consumed |
| PenjiUtil.JpegFile.ReadTwoBytes | penji/util.h:53-63 | `read_2_bytes` returns the value and state of Read2 |
| PenjiUtil.JpegFile.NextMarker | penji/util.h:78-95 | `next_marker` returns the marker and state of NextMarkerRead |
| PenjiUtil.JpegFile.FindMarker | penji/mcu_block_counter.c:202-204 | the marker loop ends as SeekMarker specifies |
| PenjiUtil.JpegFile.ReadFrequencies | penji/util.h:223-226 | the 16 counts are the next 16 bytes read |
| PenjiUtil.JpegFile.ReadSymbolGroup | penji/util.h:233-257 | the inner loop, which returns at once once `read_1_byte` has exited, leaves the state of SymbolsOfLength (meaning in PenjiUtil.SymbolsOfLengthShape) |
| PenjiUtil.JpegFile.ReadLayers | penji/util.h:229-258 | the outer loop, which stops at a crash or an exit, leaves the state of Layers (meaning in PenjiUtil.LayersShape) |
| PenjiUtil.JpegFile.ParseHuffmanTable | penji/util.h:204-262 | `parse_huffman_table` returns the table, file state and crash flag of ParseTable: no crash where the file ended first (meaning in PenjiUtil.ParseTableMeaning) |
| ScanBits.Bit | penji/mcu_block_counter.c:51 | `(input_data >> (7 - index)) & 0x01` is 0 or 1 |
| ScanBits.AddBit | penji/mcu_block_counter.c:49-58 | `add_bit_to_scan_buf` keeps the index below 8 and the counters in their `unsigned char` / `unsigned short` ranges, counts one more valid bit when there was room, and never moves the file back |
| ScanBits.SkipLoop | penji/mcu_block_counter.c:70-86 | the trailing loop of `input_data_skip_bits` ends with an index below 8, never moves the file back, and reads at least one byte when bits are left and the program does not exit |
| ScanBits.AddBitAdvances | penji/mcu_block_counter.c:49-58 | `add_bit_to_scan_buf` shifts the bit under the cursor into `scan_buf` (modulo 2^16), counts it (modulo 2^8), and moves the cursor exactly one bit on, loading the next byte after bit 7 |
| ScanBits.AddBitWindow | penji/mcu_block_counter.c:49-58 | with room left, the scan buffer keeps holding exactly the bits before the cursor, one more, the newest the least significant |
| ScanBits.SkipLoopReads | penji/mcu_block_counter.c:70-86 | the trailing loop reads n / 8 whole bytes and, when n % 8 bits are left over, one more byte into which the index then points |
| ScanBits.ExactSkipAdvances | penji/remove_mcu.c:60-95 | a skip that counts the 8 - index bits left in the current byte moves the cursor exactly n bits on |
| McuCounter.FirstMatchMeaning | penji/mcu_block_counter.c:38-46 | the walk along the chain finds a symbol exactly when one has the bitstring, and then the first such symbol |
| McuCounter.FindEntryAsWritten | penji/mcu_block_counter.c:26-47 | `find_hufftable_entry` reads outside the 16 counts exactly when the valid bit count is not 1 to 16 (`len_index` is an `unsigned char`, so 0 bits gives index 255) |
| McuCounter.FindEntryMeaning | penji/mcu_block_counter.c:26-47 | the lookup finds a symbol of the buffered length whose bitstring is the buffer, and misses only when that length has no such symbol |
| McuCounter.FindEntryAsWrittenAgrees | penji/mcu_block_counter.c:26-47 | for 1 to 16 valid bits the lookup as written is the intended one; for 0 bits it reads outside the table |
| McuCounter.FindEntryCanonical | penji/mcu_block_counter.c:26-47 | with the chains `parse_huffman_table` builds (codes 2 Used(i), 2 Used(i) + 1, ...), the lookup finds a symbol exactly for the buffered values in that range, the one at that rank, of the buffered length |
| McuCounter.FindHufftableEntry | penji/mcu_block_counter.c:26-47 | the method walking `available_codes` nodes returns the result of FindEntryAsWritten |
| McuCounter.SkipBits | penji/mcu_block_counter.c:60-87 | `input_data_skip_bits` leaves the scan buffer and its count alone, keeps the index below 8 and moves the cursor forward for a nonzero skip |
| McuCounter.SkipBitsLands | penji/mcu_block_counter.c:60-87 | where the skip as written lands: a skip within the byte lands 8 - index + n bits on (the loop runs on the unreset count), a longer one n + 1 bits on, or on a zeroed `input_data` when the remainder is a whole number of bytes |
| McuCounter.NextSymbol | penji/mcu_block_counter.c:94-111 | the symbol loop ends with a match, which clears the buffer, or with more than 16 bits and no match; a loop that starts with room moves the cursor forward |
| McuCounter.DcPart | penji/mcu_block_counter.c:93-111 | the DC part of `process_mcu` leaves a cleared buffer or an overrun one that moved on; an overrun buffer is left alone |
| McuCounter.AcPart | penji/mcu_block_counter.c:113-139 | the AC loop never moves the cursor back, leaves an overrun buffer alone, and from a cleared buffer moves the cursor forward |
| McuCounter.McuAfter | penji/mcu_block_counter.c:89-140 | `process_mcu` moves the cursor forward when the buffer has room and otherwise leaves the cursor unchanged, so every later call is a no-op |
| McuCounter.Match | penji/mcu_block_counter.c:94-111 | the shortest length from len on at which the stream bits from start are a code of the table, with its symbol, or 17 and none when no length up to 16 matches |
| McuCounter.NextSymbolDecodes | penji/mcu_block_counter.c:94-111 | the symbol loop decodes the stream: from a buffer holding the bits before the cursor it stops at the shortest code that matches the stream bits from the buffer's start, with the cursor just after that code, or overruns after 17 bits |
| McuCounter.CountMcus | penji/mcu_block_counter.c:171-178 | the counting loop never reports a bad header and never counts down |
| McuCounter.CountMcusCounts | penji/mcu_block_counter.c:171-178 | the count is the number of `process_mcu` calls that returned; a premature end of file means the next call exits the program; a cursor that overran without a match leaves the loop spinning forever |
| McuCounter.ScanHeader | penji/mcu_block_counter.c:146-152 | the SOS header read leaves the file inside the data and never moves it back |
| McuCounter.ScanCountCounts | penji/mcu_block_counter.c:142-181 | `process_scan` counts the MCUs `process_mcu` finished from the first bit of the entropy-coded data on; a bad header length is the only way to an error before the count |
| McuCounter.FrameHeaderBytes | penji/mcu_block_counter.c:188-192 | the frame header reads are eight bytes, the component count the last one |
| McuCounter.ParsedChains | penji/mcu_block_counter.c:208-231 | a table `parse_huffman_table` completes without a crash or an exit has the chain shape the lookup walks |
| McuCounter.FrameCount | penji/mcu_block_counter.c:183-243 | the counter's `process_frame` ends at the end of the file exactly where `read_1_byte` has exited, tested before each table's full-tree crash |
| McuCounter.FrameCountOtherComponents | penji/mcu_block_counter.c:192-199 | a frame whose component count is not 1 ends after its eight header bytes: no table is parsed and no marker searched for |
| McuCounter.ScanCursor.AddBitToScanBuf | penji/mcu_block_counter.c:49-58 | the method leaves the state AddBit gives (meaning in ScanBits.AddBitAdvances) |
| McuCounter.ScanCursor.InputDataSkipBits | penji/mcu_block_counter.c:60-87 | the method leaves the state SkipBits gives (meaning in McuCounter.SkipBitsLands) |
| McuCounter.ScanCursor.NextHuffSymbol | penji/mcu_block_counter.c:94-111 | the symbol loop returns the symbol and state of NextSymbol (meaning in McuCounter.NextSymbolDecodes) |
| McuCounter.ScanCursor.ProcessMcu | penji/mcu_block_counter.c:89-140 | `process_mcu` leaves the state McuAfter gives |
| McuCounter.ProcessScan | penji/mcu_block_counter.c:142-181 | `process_scan` ends as ScanCount specifies (meaning in McuCounter.ScanCountCounts) |
| McuCounter.ProcessFrame | penji/mcu_block_counter.c:183-243 | `process_frame` ends as FrameCount specifies (an exit at the end of the file is reported before a full tree), with the marker global and, unless the scan was counted, the file position it gives |
| RemoveMcu.AddBitChecked | penji/remove_mcu.c:46-57 | `add_bit_to_scan_buf` with its asserts aborts exactly when the buffer already holds 16 bits; otherwise it counts one more bit and moves the cursor forward |
| RemoveMcu.AddBitCheckedWindow | penji/remove_mcu.c:46-57 | the asserts fail exactly when the scan buffer is full; until then a buffer holding the bits before the cursor keeps holding them, one more |
| RemoveMcu.SkipRm | penji/remove_mcu.c:60-95 | `input_data_skip_bits` leaves the scan buffer and its count alone, keeps the index below 8 and never moves the file back |
| RemoveMcu.SkipRmLands | penji/remove_mcu.c:60-95 | the skip moves exactly n bits on, as the exact skip does, except when the bits past the current byte fill whole bytes: then it stops one byte short with `input_data` cleared and index 0 |
| RemoveMcu.SkipRmStopsShort | penji/remove_mcu.c:63-66 | a 10-bit skip at bit index 6 followed by two ordinary bytes leaves the cursor on a cleared byte (bit 0) where the exact skip reads a 1 bit of the data |
| RemoveMcu.NextSymbolRm | penji/remove_mcu.c:103-121 | the checked symbol loop, when it finds a symbol, leaves a cleared buffer and a cursor not behind where it started; where a read ends the program at the end of the file it stops there with the cursor as it stands |
| RemoveMcu.NextSymbolRmAgrees | penji/remove_mcu.c:103-121 | the checked loop finds the same symbol, with the cursor in the same place, as the unchecked loop of penji/mcu_block_counter.c, aborts only where that one overruns, and stops at the end of the file only where that one has exited too |
| RemoveMcu.DcRm | penji/remove_mcu.c:102-123 | the DC part of `process_mcu` stops at once where a read exits at the end of the file, before any later assert; otherwise it leaves a cleared buffer when no assert fails, and fails when the buffer had already overrun |
| RemoveMcu.DcValue | penji/remove_mcu.c:113-120 | after the DC symbol the assert `(value & 0xF0) == 0` holds exactly for values below 16, which are then skipped in bits |
| RemoveMcu.AcNext | penji/remove_mcu.c:129-172 | one pass of the AC loop ends the block, stops where a read exits at the end of the file, or moves the coefficient index on by 1 to 17, recording at most the index it ends at; an overrun buffer reads nothing |
| RemoveMcu.AcValue | penji/remove_mcu.c:140-167 | after the AC symbol: EOB ends the block, ZRL moves 16 on and halts exactly when that reaches 64, any other symbol moves by its run and records the index, or stops where skipping its bits exits at the end of the file |
| RemoveMcu.AcRmIndices | penji/remove_mcu.c:125-173 | `mcu_indices` (64 entries) never overflows: at most 63 indices are recorded, strictly increasing, extending those recorded before |
| RemoveMcu.McuRm | penji/remove_mcu.c:98-180 | `process_mcu` stops with the cursor where a read exits at the end of the file, before any later assert; without an exit or a failing assert it leaves the cursor not behind where it started and the program running; a buffer that already overran fails the assert of line 123 |
| RemoveMcu.AcRm | penji/remove_mcu.c:125-173 | the AC loop stops with the cursor where a read exits at the end of the file; run to its end it leaves the cursor not behind where it started and the program running |
| RemoveMcu.McuRmIndices | penji/remove_mcu.c:98-180 | a block that runs to its end records at most 63 strictly increasing coefficient indices |
| RemoveMcu.ModifiedSamples | penji/remove_mcu.c:364-365 | `modified_samples_per_line` is half the samples per line, rounded up |
| RemoveMcu.ExpectedMcuCountAsWritten | penji/remove_mcu.c:385 | `original_num_lines * original_samples_per_line / 64` in `int` arithmetic is defined exactly when the product is below 2^31, and then is the intended count |
| RemoveMcu.ExpectedMcuCount | penji/remove_mcu.c:385 | the intended count is the number of whole 64-sample blocks: 64 r <= lines * samples < 64 (r + 1) |
| RemoveMcu.ExpectedMcuCountOverflows | penji/remove_mcu.c:385 | 65535 by 65535 samples, which the 16-bit header fields allow, overflow the `int` product |
| RemoveMcu.FieldBytesAsWritten | penji/remove_mcu.c:381-382 | `place_byte_into_buffer(v >> 16)` and `(v & 0x0000FFFF)` store 0 and the low byte of v, which read back as v only when v is below 256 |
| RemoveMcu.FieldBytes | penji/remove_mcu.c:381-382 | the intended field bytes `v >> 8`, `v & 0xFF` read back big-endian as v |
| RemoveMcu.FieldBytesLoseHighByte | penji/remove_mcu.c:381-382 | a 512-sample-wide image gets its halved width 256 written as 00 00 instead of 01 00 |
| RemoveMcu.Spliced | penji/remove_mcu.c:251-293 | the merged buffer has the same length as before and byte i given by SplicedAt |
| RemoveMcu.SplicedBits | penji/remove_mcu.c:251-293 | the merge keeps the high 8 - append bits of the first byte and takes the next bits of the second byte below them; a middle byte takes its low bits followed by the high bits of the next; the last byte is shifted up |
| RemoveMcu.MergeAfter | penji/remove_mcu.c:240-307 | the merge of an even-column MCU keeps the buffer length or drops one byte and keeps the end index below 8; it is undefined exactly when the shift count goes negative and reads an unset start index exactly when no odd column has set it |
| RemoveMcu.PadBits | penji/remove_mcu.c:326-330 | `last_byte >> a << a` plus `0xFF >> (8 - a)` keeps the high 8 - a bits of the byte and sets its low a bits |
| RemoveMcu.PaddedAsWritten | penji/remove_mcu.c:320-334 | the padding as written sets the low 9 - prevEnd bits of the terminating byte; with prevEnd 0 the shift of 0xFF is by -1, undefined |
| RemoveMcu.Padded | penji/remove_mcu.c:320-334 | the intended padding sets the bits after the MCU's end index to 1 and keeps the prevEnd bits before it |
| RemoveMcu.PaddedAtByteBoundary | penji/remove_mcu.c:322-329 | a kept MCU ending on a byte boundary (prevEnd 0) reaches the undefined shift, which the intended padding turns into a byte of 1 bits |
| RemoveMcu.Advance | penji/remove_mcu.c:336-340 | the end of a pass counts one more MCU and moves to the next column, back to 0 after column `original_samples_per_line` |
| RemoveMcu.Turn | penji/remove_mcu.c:228-340 | one pass of the MCU loop: it ends at the end of the file exactly where `read_1_byte` exited inside the MCU, never as a failed assert; a pass that runs on advances the counter and column; an odd column leaves the output alone and records where the next MCU starts; an even column leaves one byte in the buffer |
| RemoveMcu.JoinAfter | penji/remove_mcu.c:238-334 | the even-column part writes bytes to the file and leaves one byte in the buffer with an end index below 8, or stops with undefined behaviour or an unset start index, the latter exactly when no odd column has set it |
| RemoveMcu.FlushAfter | penji/remove_mcu.c:310-334 | after the merge, all bytes but the last go to the file and the buffer restarts with the last; within the last two MCUs that byte is padded, which is undefined exactly for an end index 0 |
| RemoveMcu.ScanFrom | penji/remove_mcu.c:228-345 | the MCU loop stops at the EOI marker, after the expected count of MCUs, at the end of the file exactly when the program has exited, or on a failed assert, and never counts past the expected count |
| RemoveMcu.ScanColumns | penji/remove_mcu.c:336-340 | after k MCUs `column_index` is k modulo (samples per line + 1), a count of samples where a line holds fewer MCUs |
| RemoveMcu.McuColumns | penji/remove_mcu.c:336-340 | a line of `samples` samples holds the least number of 8-sample MCUs that covers it |
| RemoveMcu.SecondLineStartsLate | penji/remove_mcu.c:336-340 | as written, the first MCU of the second line is in column McuColumns(samples), not 0; for a line of at most 8 samples that column is odd, so that MCU is dropped |
| RemoveMcu.IntendedNextColumn | penji/remove_mcu.c:336-340 | with the intended wrap the next column stays below the MCU columns of a line, and is 0 or one more |
| RemoveMcu.IntendedColumnAfter | penji/remove_mcu.c:336-340 | the intended column after k MCUs is one of the MCU columns of a line |
| RemoveMcu.IntendedColumnsCycle | penji/remove_mcu.c:336-340 | with the intended wrap, after k MCUs the column is k modulo the MCU columns of a line |
| RemoveMcu.IntendedLinePosition | penji/remove_mcu.c:336-340 | with the intended wrap, MCU i of every line is in column i, so every line starts in column 0 |
| RemoveMcu.ScanNeverUninitialised | penji/remove_mcu.c:238-319 | with at least one sample per line the merge never reads `bit_index_of_next_mcu_start` before an odd column has set it |
| RemoveMcu.ScanCounts | penji/remove_mcu.c:228-345 | a scan that finishes has processed exactly the expected count of MCUs; every other stop is short of it or at the EOI marker |
| RemoveMcu.ScanEntry | penji/remove_mcu.c:186-221 | before the MCU loop the program runs on from column 0, counter 0, no start index and one bit in the buffer, or stops at the end of the file or an undefined header length |
| RemoveMcu.EntropyStart | penji/remove_mcu.c:209-221 | after the header the first byte of entropy-coded data is read and one bit of it added, from column 0 and counter 0 |
| RemoveMcu.HeaderRead | penji/remove_mcu.c:186-197 | the scan header read runs on, ends the file, or is undefined (a length of 2 or less); it stops at the end of the file exactly when reading the length exits |
| RemoveMcu.FrameLines | penji/remove_mcu.c:356-358 | the number of lines read is a 16-bit value and the file moves forward within the data |
| RemoveMcu.FrameSamples | penji/remove_mcu.c:363-367 | the samples per line read are a 16-bit value |
| RemoveMcu.FrameOutcome | penji/remove_mcu.c:371-385 | a frame read in full stops after its header exactly when its component count is not 1; otherwise the `int` product overflows exactly when it reaches 2^31, and the count is the number of whole 64-sample blocks |
| RemoveMcu.Remover.constructor | penji/remove_mcu.c:455-456 | `setup_output_buffer` and `set_place_bytes_into_buffer(TRUE)` start with an empty buffer, nothing written and placing on |
| RemoveMcu.Remover.ReadOneByte | penji/util.h:31-51 | `read_1_byte` returns the byte and file state of Read1 and, as assumed under Left out, appends the file bytes it took to the buffer when placing is on, changing nothing else |
| RemoveMcu.Remover.ReadTwoBytes | penji/util.h:53-63 | `read_2_bytes` returns the value and file state of Read2 and, as assumed under Left out, appends the file bytes it took to the buffer when placing is on, changing nothing else |
| RemoveMcu.Remover.WriteBufferToFile | penji/remove_mcu.c:209 | `write_buffer_to_file` appends the buffer to the output and empties it, changing nothing else |
| RemoveMcu.Remover.SetPlaceBytes | penji/remove_mcu.c:230-234 | `set_place_bytes_into_buffer` sets the placing flag and changes nothing else |
| RemoveMcu.Remover.AddBitToScanBuf | penji/remove_mcu.c:46-57 | `add_bit_to_scan_buf` fails exactly where AddBitChecked aborts, and then changes nothing, and otherwise leaves its state, placing the byte it may read |
| RemoveMcu.Remover.InputDataSkipBits | penji/remove_mcu.c:60-95 | `input_data_skip_bits` leaves the state SkipRm gives (meaning in RemoveMcu.SkipRmLands) |
| RemoveMcu.Remover.SkipTail | penji/remove_mcu.c:77-93 | the trailing loop leaves file, input byte and index as SkipLoop gives (meaning in ScanBits.SkipLoopReads), the scan buffer unchanged |
| RemoveMcu.Remover.PlaceByte | penji/remove_mcu.c:314 | `place_byte_into_buffer` appends one byte to the buffer and changes nothing else |
| RemoveMcu.Remover.NextHuffSymbol | penji/remove_mcu.c:103-121 | the symbol loop returns the outcome of NextSymbolRm (meaning in RemoveMcu.NextSymbolRmAgrees), and has exited exactly when that outcome is the end of the file |
| RemoveMcu.Remover.ProcessMcu | penji/remove_mcu.c:98-180 | `process_mcu` succeeds exactly when McuRm runs to its end and then leaves its cursor and the recorded indices (meaning in RemoveMcu.McuRmIndices); the program has exited exactly when McuRm stops at the end of the file, with the cursor there |
| RemoveMcu.Remover.DcSymbol | penji/remove_mcu.c:102-123 | the DC part succeeds exactly when DcRm runs to its end and leaves its cursor; the program has exited exactly when DcRm stops at the end of the file |
| RemoveMcu.Remover.DcBits | penji/remove_mcu.c:118-119 | the assert on the DC value and the skip of its bits have the outcome of DcValue; a failed assert changes nothing |
| RemoveMcu.Remover.AcSymbols | penji/remove_mcu.c:125-173 | the AC loop, writing `mcu_indices` within its 64 entries, succeeds exactly when AcRm runs to its end and leaves its cursor and indices; the program has exited exactly when AcRm stops at the end of the file |
| RemoveMcu.Remover.AcStep | penji/remove_mcu.c:129-172 | one pass of the AC loop has the outcome of AcNext, and has exited exactly when that outcome stops at the end of the file |
| RemoveMcu.Remover.AcSymbol | penji/remove_mcu.c:140-167 | the rest of the pass once the symbol is known has the outcome of AcValue, and has exited exactly when that outcome stops at the end of the file |
| RemoveMcu.Remover.DropLastByte | penji/remove_mcu.c:303 | `out_buf_index--` drops the last byte of the buffer and changes nothing else |
| RemoveMcu.Remover.SpliceBuffer | penji/remove_mcu.c:251-293 | the merge loop and the shift of the last byte leave the buffer Spliced gives (meaning in RemoveMcu.SplicedBits) |
| RemoveMcu.Remover.Merge | penji/remove_mcu.c:240-307 | the merge of an even column has the outcome of MergeAfter and leaves its buffer |
| RemoveMcu.Remover.PadLastByte | penji/remove_mcu.c:320-334 | the padding succeeds exactly when PaddedAsWritten is defined and then replaces the last byte by it |
| RemoveMcu.Remover.EvenColumn | penji/remove_mcu.c:238-334 | the even-column part has the outcome of JoinAfter and leaves its buffer and output |
| RemoveMcu.Remover.FlushAndPad | penji/remove_mcu.c:309-334 | flush and padding have the outcome of FlushAfter |
| RemoveMcu.Remover.Flush | penji/remove_mcu.c:310-314 | all bytes of the buffer but the last go to the output and the buffer restarts with the last byte alone |
| RemoveMcu.Remover.Pass | penji/remove_mcu.c:228-340 | one pass of the MCU loop stops as Turn does (an exit at the end of the file tested before a failed assert) and otherwise leaves its column, counter and bit indices |
| RemoveMcu.Remover.McuLoop | penji/remove_mcu.c:227-345 | the MCU loop from column 0 stops as ScanFrom does (meaning in RemoveMcu.ScanCounts; the end of the file exactly when the program exited), with its buffer and output on a clean stop |
| RemoveMcu.Remover.SkipHeader | penji/remove_mcu.c:189-197 | the header loop reads exactly h bytes, two at a time and the last odd one alone |
| RemoveMcu.Remover.ProcessScan | penji/remove_mcu.c:182-348 | `process_scan` stops as ScanRun specifies, its MCU loop as ScanFrom does (the end of the file exactly when the program exited) |
| RemoveMcu.Remover.EnterScan | penji/remove_mcu.c:186-221 | the part before the MCU loop stops or starts the loop as ScanEntry specifies |
| RemoveMcu.Remover.StartEntropy | penji/remove_mcu.c:209-221 | the buffer written out, the first byte read and its first bit added, as EntropyStart specifies |
| RemoveMcu.Remover.ReadScanHeader | penji/remove_mcu.c:186-197 | the length and the rest of the scan header are read as HeaderRead specifies and placed into the buffer |
| RemoveMcu.Remover.ProcessFrameHeader | penji/remove_mcu.c:356-385 | the frame header fields are read as FrameReads gives; the length, precision and lines go to the output; the buffer then holds the samples-per-line field as written (halved for one component) and the component count; a file that ends within the fields ends the program (Truncated), and otherwise the header ends as FrameOutcome gives |
| RemoveMcu.Remover.ExpectedCount | penji/remove_mcu.c:385 | `expected_mcu_count` has the outcome of FrameOutcome for one component (meaning in RemoveMcu.FrameOutcome) |
| RemoveMcu.Remover.FrameFields | penji/remove_mcu.c:356-367 | the reads of the header fields, with the buffer written out and placing stopped after the lines |
| RemoveMcu.Remover.ReadFrameLines | penji/remove_mcu.c:356-358 | length, precision and lines are read as FrameLines gives and placed into the buffer |
| RemoveMcu.Remover.ReadFrameSamples | penji/remove_mcu.c:363-367 | samples per line and component count are read as FrameSamples gives, nothing placed |
| RemoveMcu.Remover.PlaceFields | penji/remove_mcu.c:373-383 | placing resumes and the buffer gains the field bytes as written and the component count |
| ImgQuality.HeaderShape | metrics/img_quality.py:28-36 | the header has `PSNR column + 3` columns, 3 more with channel results; it starts with "image", "corrupted", ends with "reference path", "output path", has "PSNR" at its column and "SSIM" third, and holds "SSIM" exactly when not PSNR-only |
| ImgQuality.BuildHeader | metrics/img_quality.py:28-36 | the header built by appending is Header (meaning in ImgQuality.HeaderShape) |
| ImgQuality.CellsMatchColumns | metrics/img_quality.py:69-83 | under the SSIM and PSNR column groups the row holds the overall score first and then, per channel, the column's own name |
| ImgQuality.RowMatchesHeader | metrics/img_quality.py:68-84 | every row has the header's width, and has the reference's name under "image", the flag under "corrupted", the overall scores under "SSIM" and "PSNR", the two paths under the path columns and the column's name under every per-channel column |
| ImgQuality.RowWidth | metrics/img_quality.py:68-84 | a row has as many cells as the header has columns |
| ImgQuality.RowLeadCells | metrics/img_quality.py:68-77 | the reference's name, the flag and the overall scores sit under "image", "corrupted", "SSIM" and "PSNR" |
| ImgQuality.RowTrailCells | metrics/img_quality.py:84 | the reference path and the output path sit under the last two columns |
| ImgQuality.RowChannelCells | metrics/img_quality.py:71-83 | every per-channel column holds its own name, not a score |
| ImgQuality.BuildRow | metrics/img_quality.py:68-84 | the row built by appending is Row (meaning in ImgQuality.RowMatchesHeader) |
| ImgQuality.AppendLabels | metrics/img_quality.py:72-76 | the channel loop appends the three channel names, in order, to the row |
| ImgQuality.CandidateMeaning | metrics/img_quality.py:40 | with a non-empty format a file is a candidate exactly when its name ends in the format; with an empty format (`x[-0:]` is the whole name) only the empty name is |
| ImgQuality.Candidates | metrics/img_quality.py:40 | the candidates are names of the listing, each one a candidate, and every candidate of the listing is among them |
| ImgQuality.Stem | metrics/img_quality.py:43 | `name[:-(len(outFmt) + 4)]` is a prefix of the name, `len(outFmt) + 4` shorter, or empty when the name is not longer than that |
| ImgQuality.StemRoundTrip | metrics/img_quality.py:40-43 | a stem followed by four characters and the format is a candidate whose stem is that stem |
| ImgQuality.FindReference | metrics/img_quality.py:45-54 | no reference exactly when no entry of the listing starts with the stem and matches the pattern; otherwise the first such entry in listing order |
| ImgQuality.Matching | metrics/img_quality.py:46 | every entry kept starts with the stem |
| ImgQuality.MatchingFirst | metrics/img_quality.py:46-54 | the first match the pattern is found in is the first qualifying entry of the whole listing |
| ImgQuality.MatchingNone | metrics/img_quality.py:46-54 | when the pattern is found in no match, no entry of the listing qualifies |
| ImgQuality.FirstReferenceMeaning | metrics/img_quality.py:50-54 | the entry the loop finds is absent exactly when none qualifies, and otherwise the first qualifying entry |
| ImgQuality.SameReference | metrics/img_quality.py:45-54 | the loop's result and the filtered list's first match agree |
| ImgQuality.ChannelScores | metrics/img_quality.py:134-141 | the loop over n channels gives n PSNR scores and n SSIM scores (none when PSNR-only), unless a plane is missing |
| ImgQuality.NoPlaneStops | metrics/img_quality.py:135 | a missing plane leaves no scores for any larger channel count |
| ImgQuality.Compare | metrics/img_quality.py:90-147 | a comparison that completes reports the reference's mode and an SSIM score exactly when not PSNR-only |
| ImgQuality.CompareImg | metrics/img_quality.py:90-147 | `compare_img` returns or raises what Compare gives (meaning in ImgQuality.CompareFailures and ImgQuality.CompareAverages) |
| ImgQuality.CompareFailures | metrics/img_quality.py:97-130 | the size check raises exactly on different sizes, then an unreadable reference, then an unreadable converted output, then different shapes; a completed comparison had equal sizes and shapes, and a one-letter mode gives the metrics of the whole arrays |
| ImgQuality.CompareAverages | metrics/img_quality.py:131-145 | for a mode of several letters there is one PSNR (and SSIM) score per letter and the overall scores are their means |
| ImgQuality.SumAtLeast | metrics/img_quality.py:137 | a sum of terms each at least t is at least the count times t |
| ImgQuality.MeanAtLeast | metrics/img_quality.py:143-145 | a mean of terms each at least t is at least t |
| ImgQuality.CorruptedMeaning | metrics/img_quality.py:62-64 | scores exactly at the thresholds are not corrupted, higher scores never make a clean pair corrupted, and in PSNR-only mode only `PSNR < threshold` decides |
| ImgQuality.CleanChannelsNotCorrupted | metrics/img_quality.py:62-64 | a picture of several channels whose every channel reaches both thresholds is not flagged corrupted |
| ImgQuality.Join | metrics/img_quality.py:41 | `os.path.join(path, name)` ends with the name |
| ImgQuality.EntryRowWidth | metrics/img_quality.py:68-85 | a row written for a candidate has the header's width |
| ImgQuality.DirRowsFit | metrics/img_quality.py:40-85 | every row of the first n candidates of a directory has the header's width |
| ImgQuality.DirRowsOfFit | metrics/img_quality.py:40-85 | every row of a directory has the header's width |
| ImgQuality.ProcessEntry | metrics/img_quality.py:41-88 | the loop body gives EntryRow for the candidate, a row of the header's width when written |
| ImgQuality.AddEntry | metrics/img_quality.py:40-88 | one turn of the candidate loop takes the rows of the first i candidates to those of the first i + 1: the candidate's row, when it gets one, joins the end |
| ImgQuality.ProcessDir | metrics/img_quality.py:40-88 | the rows of a directory are those of its candidates in listing order, each of the header's width |
| ImgQuality.CollectResults | metrics/img_quality.py:26-88 | the header written first is Header, followed by the rows of every directory of the walk in walk order |
| ImgQuality.EntryRowFitsHeader | metrics/img_quality.py:45-85 | a written row has the header's width and names, under "image", an entry of the listing that starts with the candidate's stem and matches the pattern |
| ImgQuality.EntryRowWithCompareImg | metrics/img_quality.py:56-85 | with `compare_img` as the comparison, a candidate gets a row exactly when its reference is found, is a regular file, both pictures open and `compare_img` raises nothing |

## Left out

- Console and file I/O are not modelled. This covers `printf`, `fprintf`, `dbg_printf`, Python `logging`, `fopen`/`fwrite`/`fread`, `feof`, the csv writer, getopt and argparse. The bytes `write_bmp_to_file` would write are modelled (`Bmp.WrittenFile`); the file itself is not.
- The host programs (jpeg-host.c, src/jpeg-host.c) and the UPMEM SDK calls are not part of this model. They are foreign calls and transfer plumbing.
- Multi-tasklet coordination is left out because it is concurrency: `barrier_wait`, `synchronise_tasklets` (src/dpu/dpu-jpeg-decode.c:87-177), `concat_adjust_mcus` (181-243) and the mutex-guarded `find_sum_rgb` (674-702). The DPU decoder is modelled from one tasklet's view.
- The MRAM DMA copies of the block loops are commented out in the source, so they are not modelled. `mram_read` of the reader is modelled as `DpuReader.Window`.
- The `USE_FLOAT` paths of the inverse DCT and the colour conversion are left out (floating point). So are the `TIME` macros, `print_jpeg_decompressor`, `malloc`/`free` and the final `write_bmp_cpu` call.
- The `main` functions of every program are not modelled. This includes `jpeg_cpu_scale` past the header phase, the driver loop of `decode_bitstream`, and the penji `main`s.
- `read_bmp` and the test `main` of src/bmp.c:102-177 are inside a comment, so they are not code.
- The C reads past the end of a buffer (undefined behaviour there). The model returns 0 for every such read.
- A C store outside a declared array is not applied; the model records it in an `overflow` flag. This covers the greyscale component slot `color_components[component_id]`, DHT ids 2 and 3 in the two-entry DC and AC arrays, and `huffval` indices of 256 or more.
- Entropy.CpuDecodeMcu: requires table ids that name existing tables. The CPU `decode_mcu` indexes the tables without a check, and a larger id is undefined behaviour.
- The code of `huff_decode` returns 0xFF both for "no code matched" and for a genuine 0xFF symbol. The model keeps that ambiguity and does not separate the two.
- Colour.NearReference: states the distance of the integer coefficients from the JFIF (ITU-T T.871) reference coefficients. It does not bound the error of the whole conversion.
- DpuReader.PrefetchReader.ReadByte: returns the file's byte only while the cache mirrors MRAM or the position is before the tasklet's end. After `skip_bytes` has pinned the reader to its end, the cache is stale, and the model says nothing about the byte.
- Decode.DecompressScanline: requires maximum sampling factors of 1 or 2, the matching MCU geometry and component tables that exist (`ScanGeometry`, `ComponentsReady`). The CPU parser does not guarantee them: a frame without component id 1 leaves the maxima at 0 and the loops of `decompress_scanline` never end (see Findings), and table ids are not checked. The decoder is modelled only for headers that meet them.
- The penji tools are modelled as follows:
  - The Huffman tree is a value (`PenjiUtil.Tree`), not linked nodes.
  - The `exit` on a premature end of file is an outcome after which reads change nothing.
  - A loop of mcu_block_counter.c that would run forever, because the scan buffer grows past 16 bits without a match, is reported as the outcome `Spins`.
- The output-buffer helpers of remove_mcu.c (`place_byte_into_buffer`, `set_place_bytes_into_buffer`, `write_buffer_to_file`) and its `find_hufftable_entry` are defined outside the files shown. They are modelled by their evident behaviour, and the lookup is the one of mcu_block_counter.c.
- RemoveMcu.Remover.ReadOneByte and RemoveMcu.Remover.ReadTwoBytes: assume that every file byte `read_1_byte` consumes, stuffed 0x00 bytes included, is copied to `out_buf` while placing is on. The `read_1_byte` of penji/util.h touches no output buffer, and the copying version is not part of this model; the copy is inferred from the `set_place_bytes_into_buffer` toggles around the header reads of `process_frame` (penji/remove_mcu.c:356-383).
- The fixed capacity of `out_buf` in remove_mcu.c is not modelled: the buffer is an unbounded sequence.
- The part of remove_mcu.c `process_frame` after its header (penji/remove_mcu.c:389-431) is not modelled. It is the search for the Huffman tables and the scan marker, which is the work of `PenjiUtil.JpegFile.ParseHuffmanTable` and `PenjiUtil.JpegFile.NextMarker`.
- In metrics/img_quality.py, the metrics, PIL decoding and `convert`, `os.walk`, `os.listdir`, `os.path.isfile` and `re.search` are parameters.
  - The file system is a set of regular files plus a map from path to picture.
  - `compare_img` is a parameter of the main-loop specification. `ImgQuality.EntryRowWithCompareImg` ties that parameter to `ImgQuality.Compare`.
- The scores of metrics/img_quality.py are Dafny reals. The infinite PSNR of identical planes and the floating-point rounding of the mean of the channel scores are not represented.
- A separate error for an unsupported colour mode is not modelled. The code of metrics/img_quality.py has no such check. A picture whose array lacks a channel raises, or yields no scores, through the shape check.
- ImgQuality.CollectResults: states the rows of the whole walk as `WalkRows`. The width of every row is proved per directory (`ImgQuality.DirRowsOfFit`), not restated for the whole walk.

## Findings

| source | as written | input that shows it | evidently intended | confidence | as-written member | corrected member |
|---|---|---|---|---|---|---|
| penji/remove_mcu.c:63-66 | a skip past the current byte subtracts the bits left and then reads whole bytes, so a remainder that fills whole bytes leaves the cursor on a cleared `input_data` | bit index 6, skip of 10 bits, followed by two ordinary bytes | the cursor moves exactly 10 bits on, onto a bit of the data | not executed | RemoveMcu.SkipRmStopsShort | ScanBits.ExactSkipAdvances |
| penji/mcu_block_counter.c:62-86 | the short-skip branch does not clear `nbits`, and the long branch counts `7 - index` bits left in the byte | bit index 0, skip of 3 bits: the cursor lands 11 bits on | the cursor moves exactly n bits on | not executed | McuCounter.SkipBitsLands | ScanBits.ExactSkipAdvances |
| penji/remove_mcu.c:381-382 | the high byte of a 16-bit field is written as `v >> 16` (always 0) | samples per line 512, halved to 256, written as 00 00 | `v >> 8`, `v & 0xFF` | not executed | RemoveMcu.FieldBytesLoseHighByte | RemoveMcu.FieldBytes |
| penji/remove_mcu.c:385 | `lines * samples / 64` in `int` arithmetic | 65535 lines of 65535 samples: the product overflows | the number of whole 64-sample blocks | not executed | RemoveMcu.ExpectedMcuCountOverflows | RemoveMcu.ExpectedMcuCount |
| penji/remove_mcu.c:320-334 | the padding shifts 0xFF right by `8 - bits_to_append`, which is `prevEnd - 1` | a kept MCU that ends on a byte boundary (prevEnd 0): a shift by -1 | the bits after the end index set to 1 | not executed | RemoveMcu.PaddedAtByteBoundary | RemoveMcu.Padded |
| penji/util.h:43-48 | `*bytes_read++` moves the pointer, not the count | reading 0xFF 0x00 0x12 consumes three bytes and leaves the count at 0 | the count goes up by the bytes consumed | not executed | PenjiUtil.CountStaysAsWritten | PenjiUtil.IntendedCountUnstuffs |
| src/dpu/dpu-jpeg-decode.c:636 | `pixel` is a `uint8_t`, so `cache_index + 8y + x` wraps | the lower-left block of a 2x2 MCU, `cache_index` 384, is converted at offset 128 | each block converted at its own offset | not executed | Colour.DpuPixelWraps | Colour.DpuIntendedLayout |
| src/bmp.c:27-28 | the data length `width * height * 3` leaves out the row padding, and only that many bytes are written | a 1 x 1 picture: 4 body bytes, 3 written, size field one short | the length counts the padded rows | not executed | Bmp.BmpFileTruncated | Bmp.IntendedBmpFileComplete |
| penji/remove_mcu.c:336-340 | `column_index` wraps when it passes `original_samples_per_line`, a count of samples, and with `>`: after samples + 1 MCUs | a line of 8 samples: one MCU per line, and the MCU that starts the second line is in column 1 and dropped | the column wraps after the last MCU column of a line, so every line starts in column 0 | not executed | RemoveMcu.SecondLineStartsLate | RemoveMcu.IntendedLinePosition |
| jpeg-cpu.c:223 | `h_samp_factor = factor << 4` stores the low nibble shifted up | factor byte 0x21 (H 2, V 1) gives H 16 | `factor >> 4` | not executed | Legacy.HFactorIsLowNibble | Legacy.IntendedFactorsSplit |
| jpeg-cpu.c:300 | `image_width / max_h_samp_factor * DCTSIZE` multiplies where it should divide | width 64, factor 1: 512, stored as 0 instead of 8 | the least number of MCU columns that covers the width | not executed | Legacy.McusPerRowWrong | Legacy.IntendedMcusPerRowCovers |
| src/jpeg-cpu.c:263-274 | the maximum sampling factors are set only when component id 1 is read; a frame without it keeps the 0 of the zero-initialised global, and `decompress_scanline` advances `row` and `col` by them | frame header 00 0B 08 00 08 00 08 01 00 11 00 (8 x 8, one component of id 0) after `init_jpeg_info` on the zero record: accepted with both maxima 0, so the row loop never ends | the maxima taken over all the frame's components, 1 or 2 for any accepted frame | not executed | Decode.GreyFrameStalls | Decode.IntendedMaximaFitScan |
| src/dpu/dpu-jpeg-marker.c:375-377 | the dispatcher ignores the status of `process_SOS` | FF DA 00 08 01 01 00 00 3F 00 after `init_jpeg_info`: rejected (1 component against 0), yet the picture stays valid | a rejected scan header ends the headers with the picture invalid, as in the CPU dispatcher | not executed | Headers.DpuScanErrorIgnored | Headers.StepKeepsInvariant |
