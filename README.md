# opentile core, modelled in Dafny

opentile reads whole-slide microscopy images stored in TIFF dialects: Hamamatsu NDPI, Aperio SVS, Philips TIFF and OME-TIFF. It serves them as tiles of a regular grid, and each tile is a complete JPEG (or JPEG 2000) image. It never decodes pixels where it can avoid it. It works on the compressed bytes instead:
- it cuts and splices JPEG segments;
- it joins strips with restart markers;
- it crops frames through libjpeg-turbo;
- it replaces missing or corrupt tiles.

This project models that byte-level and grid-level logic and proves what it promises. Each source generation is modelled where it differs. The modules follow the program's structure:

- **JPEG byte surgery** (`markers.dfy`, `pybytes.dfy`, `jpeg_splice.dfy`, `jpeg_concat.dfy`, `mcu.dfy`). Covers the marker helpers, Python's `find`, slicing and `struct` packing on bytes, the SOF size and DRI rewrites, table and Adobe APP14 splicing, and the joining of fragments and scans with cycling RST markers (sections B.2.2, B.2.4.4, B.2.4.6 and Table B.1 of ITU-T T.81).
- **DCT fill and DQT lookup** (`coefficients.dfy`, `dqt.dfy`, `nibbles.dfy`). Covers the coefficient callbacks of the turbojpeg patches, which zero blocks and set the DC value in place on an array, and the quantisation-table search of section B.2.4.1.
- **Entropy-coding prototype** (`bit_values.dfy`, `bit_stream.dfy`, `huffman_tree.dfy`, `huffman_table.dfy`, `jpeg_header.dfy`, `page_tiler.dfy`). Covers canonical Huffman construction with its encode/decode round trip (Annex C), header parsing, the MSB-first bit reader with byte stuffing (section F.1.2.3), and the stripe-to-tile page tiler.
- **NDPI** (`ndpi_tile.dfy`, `ndpi_image.dfy`, `ndpi_cache.dfy`, `ndpi_tiler.dfy`, `grouping.dfy`, `memo.dfy`). Covers the tile-to-frame geometry, grouping requested tiles into frame jobs, stripe reads, tile-size adjustment, the bounded FIFO frame cache and the tilers.
- **Native tiled pages** (`geometry.dfy`, `tile_grid.dfy`, `svs.dfy`, `philips.dfy`, `ome.dfy`, `open_tiler_svs.dfy`, `pytext.dfy`). Covers:
  - the ceiling-division grid and the row-major frame index;
  - batch reads;
  - SVS corrupt-edge detection and its fallback to the parent level;
  - Philips sparse-tile substitution;
  - OME series naming and one-frame padding;
  - the early `open_tiler` SVS splice.

File reads, libjpeg-turbo, decoders and encoders are foreign to the model. They are function parameters (`read(offset, count)`, `crop`, `fill`, `decode`, `downscale`), and the model assumes nothing about them beyond what the callers do with their results. A Python exception is an `Err` value of `Wrappers.Error`. A loop that the source would run forever ends in `NonTermination`. Objects whose fields the source updates are classes, such as the NDPI cache, the memoised page tables, the SVS fixed-tile table, the Philips lazy blank tile and the coefficient arrays.

Where the library's general description is broader than its code, the model follows the code:
- corrupt-tile detection only looks for zero-length frames on the right and bottom edges;
- the Philips blank tile is the first stored frame filled through libjpeg-turbo, not a freshly encoded image of a requested size;
- the two newer Philips generations compute it when the page is opened; only the first generation computes it on first use.

## Model

| member | source | states |
|---|---|---|
| Markers.StartOfFrame | opentile/utils.py:16-18 | `start_of_frame()` is a two-byte marker, FF then C0 (SOF0) |
| Markers.StartOfScan | opentile/utils.py:21-23 | `start_of_scan()` is a two-byte marker, FF then DA (SOS) |
| Markers.EndOfImage | opentile/utils.py:26-28 | `end_of_image()` is a two-byte marker, FF then D9 (EOI) |
| Markers.RestartInterval | opentile/jpeg/jpeg.py:295-296 | `restart_interval()` is a two-byte marker, FF then DD (DRI) |
| Markers.RestartMark | opentile/utils.py:31-34 | `restart_mark(i)` is one byte in D0..D7 whose offset from D0 is i mod 8; with FF before it, it is a marker |
| Markers.RestartMarkCycles | opentile/jpeg/jpeg.py:289-292 | restart marks repeat with period 8 and differ within any 8 consecutive indices |
| Markers.RestartMarkValues | opentile/jpeg.py:327-331 | indices 0, 7 and 9 give D0, D7 and D1 |
| Markers.MarkersDistinct | opentile/jpeg/jpeg.py:274-296 | SOF, SOS, EOI and DRI differ pairwise, and no FF-prefixed restart mark equals any of them |
| Markers.AdobeApp14Layout | opentile/jpeg/jpeg.py:397-403 | the inserted APP14 segment is 16 bytes: marker FF EE, a length field of 14 (the segment without its marker), the identifier "Adobe", and a last byte (the transform flag) of 0 |
| PyBytes.CodeShort | opentile/jpeg/jpeg.py:299-300 | `code_short(v)` is Ok exactly for 0 <= v < 65536, and then it is the two big-endian bytes of v; otherwise `struct.error` |
| PyBytes.UnpackShort | opentile/jpeg/jpeg.py:326 | `unpack(">H", b)` is Ok exactly for two bytes, and then it is their big-endian value, below 65536; otherwise `struct.error` |
| PyBytes.ShortRoundTrip | opentile/jpeg/jpeg.py:299-300 | unpacking an encoded short gives the value back, and encoding an unpacked pair gives the pair back |
| PyBytes.FindFrom | opentile/jpeg/jpeg.py:324 | `find` gives -1 exactly when the pattern occurs nowhere from the start index; otherwise an occurrence with none between the start and it |
| PyBytes.FindInSuffix | opentile/turbojpeg_patch.py:297-300 | searching the suffix from `o` and adding `o` back finds the same occurrence as searching the whole from `o`; one is -1 exactly when the other is |
| PyBytes.FindStable | opentile/jpeg/jpeg.py:324 | a first occurrence is still the first occurrence after any change that keeps the bytes up to its end |
| PyBytes.FindFirst | opentile/jpeg/jpeg.py:324 | an occurrence with none before it is what `find` returns |
| PyBytes.UnpackSignedByte | opentile/turbojpeg_patch.py:342-343 | `unpack(">b", b)` is Ok exactly for one byte, and is the value in -128..127 congruent to the byte modulo 256 |
| PyBytes.UnpackSignedShort | opentile/turbojpeg_patch.py:344-345 | `unpack(">h", b)` is Ok exactly for two bytes, and is the value in -32768..32767 congruent to their unsigned value modulo 65536 |
| PyBytes.Slice | opentile/jpeg/jpeg.py:146 | Python slicing: within the bounds it is the subsequence, an end past the length is clamped, a start past it gives empty, and it is never longer than the input |
| PyBytes.SliceAssign | opentile/jpeg/jpeg.py:360-361 | bytearray slice assignment with ordered bounds replaces the elements between them by the new ones; with the end before the start it inserts them at the start |
| PyBytes.Index | open_tiler/svs_tiler.py:69-71 | Python list indexing: Ok exactly for -len <= i < len, counting from the end for negative i; otherwise `IndexError` |
| JpegSplice.FindTag | opentile/jpeg/jpeg.py:307-329 | `_find_tag` gives (None, None) exactly when the tag is absent; otherwise the first index of the tag with the big-endian short just after it, or `struct.error` exactly when fewer than two bytes follow the tag |
| JpegSplice.SetFrameSize | opentile/jpeg/jpeg.py:355-361 | the size part of `_manipulate_header`: `JpegTagNotFound` without SOF, `struct.error` when the length field is cut off or a dimension is not a short; for a complete SOF segment (nine bytes from the marker) the four bytes from SOF+5 become the height then the width, and nothing else changes |
| JpegSplice.FrameSizeReadsBack | opentile/jpeg/jpeg.py:355-361 | after the size is written the frame is as long as before, SOF is found at the same index, its height and width fields read back as the new size, and the bytes around them are unchanged |
| JpegSplice.SetRestartInterval | opentile/jpeg/jpeg.py:363-377 | the restart part of `_manipulate_header`: an existing DRI gets its two payload bytes overwritten; otherwise FF DD, a length of 4 and the interval are inserted right before the first SOS; `JpegTagNotFound` without either, `struct.error` for a cut-off length field or an interval that is not a short |
| JpegSplice.RestartIntervalReadsBack | opentile/jpeg/jpeg.py:363-377 | after the interval is set (on a frame whose DRI, if any, has length 4), the first DRI of the result has length 4 and its payload reads back as the interval |
| JpegSplice.RewrittenIntervalReadsBack | opentile/jpeg/jpeg.py:366-369 | a frame that already has a DRI of length 4 keeps it at the same index, and its payload reads back as the interval |
| JpegSplice.InsertedIntervalReadsBack | opentile/jpeg/jpeg.py:371-377 | without a DRI the new segment sits where the first SOS was, the frame is 6 bytes longer, and the segment reads back as length 4 and the interval |
| JpegSplice.SetSizeAndInterval | opentile/jpeg/jpeg.py:354-378 | with both a size and an interval, the size is written first, and its failure is raised before the interval is looked at |
| JpegSplice.ManipulateHeader | opentile/jpeg/jpeg.py:332-378 | `_manipulate_header` on the frame: unchanged with neither argument, otherwise the size change, the interval change, or the size then the interval; also opentile/jpeg.py:373-428: the older `_manipulate_header` is the same splice |
| JpegSplice.TablesBody | opentile/jpeg/jpeg.py:388 | `jpegtables[2:-2]`: the tables without their first two (SOI) and last two (EOI) bytes, empty when there are fewer than four |
| JpegSplice.InsertBeforeScan | opentile/jpeg/jpeg.py:387-388 | `frame[s:s] = x` with `s = frame.find(SOS)` puts x right before the first SOS; without SOS, `s = -1` puts it before the last byte; the length grows by exactly len(x) |
| JpegSplice.AddJpegTables | opentile/jpeg/jpeg.py:381-389 | `_add_jpeg_tables` is frame[:s] + tables[2:-2] + frame[s:] for the first SOS index s, as long as the frame and the table body together; also opentile/jpeg.py:430-438: the older `_add_jpeg_tables` (behind `add_jpeg_tables`, lines 236-258) is the same splice |
| JpegSplice.AddJpegTablesAndRgbFix | opentile/jpeg/jpeg.py:392-405 | the table body followed by the 16-byte APP14 segment, inserted before the first SOS |
| JpegSplice.AddColorSpaceFix | opentile/jpeg.py:441-452 | `_add_color_space_fix` inserts exactly the 16-byte APP14 segment before the first SOS |
| JpegSplice.TablesThenFixIsCombined | opentile/jpeg.py:143-146 | adding the tables and then the colour fix (older class) equals the newer combined splice, whenever the table body holds no SOS and does not complete one with the byte before the scan |
| JpegSplice.NoScanBefore | opentile/jpeg.py:447 | after a body without SOS is inserted before the first SOS, no SOS starts before the body's end, so the second search finds the same scan |
| JpegConcat.CheckFragment | opentile/jpeg/jpeg.py:95-98 | a fragment passes exactly when it has at least two bytes and its second-to-last byte is FF; a shorter one raises `IndexError`, a wrong one `JpegTagNotFound` |
| JpegConcat.FragmentPiece | opentile/jpeg/jpeg.py:99-100 | what a fragment adds (all but its last byte, then its restart mark) is as long as the fragment |
| JpegConcat.JoinedFragmentsSnoc | opentile/jpeg/jpeg.py:94-100 | one more fragment that passes the check appends its piece, numbered by its position |
| JpegConcat.JoinedFragmentsLength | opentile/jpeg/jpeg.py:94-100 | the joined fragments are exactly as long as the fragments together |
| JpegConcat.JoinedFragmentsLayout | opentile/jpeg/jpeg.py:94-100 | fragment i sits, without its last byte and followed by restart mark i, right after the fragments before it |
| JpegConcat.ProducedFragments | opentile/jpeg/jpeg.py:94-98 | fragments are taken from the iterator and checked one by one; when n are produced, all n pass the check |
| JpegConcat.ProducedFragmentsRead | opentile/jpeg/jpeg.py:94 | what is produced is what the iterator yielded, fragment by fragment |
| JpegConcat.ProducedFragmentsNext | opentile/jpeg/jpeg.py:94-100 | one more good fragment extends the produced list and appends its piece to the frame |
| JpegConcat.ProducedFragmentsError | opentile/jpeg/jpeg.py:95-98 | a failure is the failure of the first fragment that could not be read or failed the check |
| JpegConcat.ProducedFragmentsStop | opentile/jpeg/jpeg.py:95-98 | once a fragment fails, taking more fragments fails the same way |
| JpegConcat.ProducedFragmentsOfReads | opentile/jpeg/jpeg.py:94-98 | when every read succeeds, the fragments are produced exactly when all of them pass the check, and they are what was read |
| JpegConcat.ConcatenateFragments | opentile/jpeg/jpeg.py:78-102 | the loop of `concatenate_fragments` computes the header, the fragment pieces and EOI, or the first failure; also opentile/jpeg.py:58-89: the older `concatenate_fragments` is the same loop |
| JpegConcat.ConcatenatedList | opentile/jpeg/jpeg.py:93-102 | for fragments at hand, the result fails exactly when some fragment fails the check, and is otherwise the header, the joined pieces and EOI |
| JpegConcat.FragmentsFrameLength | opentile/jpeg/jpeg.py:93-102 | the frame is as long as the header, the fragments and two more bytes, and ends with FF D9 |
| JpegConcat.ScanStart | opentile/jpeg/jpeg.py:134-144 | the first scan is kept from byte 0, a later one from just past its SOS segment |
| JpegConcat.DataAfterScanHeader | opentile/jpeg/jpeg.py:141-144 | past the SOS segment is the SOS index plus its length field plus 2; no SOS raises `JpegTagNotFound` |
| JpegConcat.ScanPiece | opentile/jpeg/jpeg.py:146-147 | what a scan adds: its data from its start without the last two bytes, then FF and its restart mark; it fails exactly when the scan's start cannot be found |
| JpegConcat.JoinedScansFailure | opentile/jpeg/jpeg.py:132-147 | once a scan fails, joining more scans fails the same way |
| JpegConcat.JoinedScansShape | opentile/jpeg/jpeg.py:146-147 | the joined scans end with FF and the restart mark of the last scan |
| JpegConcat.EndWithEoi | opentile/jpeg/jpeg.py:149 | `frame[-2:] = end_of_image()` replaces the last two bytes by FF D9 (a shorter frame becomes FF D9) |
| JpegConcat.JoinedFrameEnds | opentile/jpeg/jpeg.py:149 | after the scans are joined the last restart marker becomes EOI, the length is kept and every other byte is kept |
| JpegConcat.ScansSize | opentile/jpeg/jpeg.py:134-140 | there is an image size exactly when at least one scan has been seen |
| JpegConcat.JoinScans | opentile/jpeg/jpeg.py:132-147 | the joining loop computes the joined pieces, the image size of all the scans, and the header of the first scan |
| JpegConcat.AddScanSize | opentile/jpeg/jpeg.py:134-140 | one turn of the loop updates the size to the size of one more scan |
| JpegConcat.AppendScan | opentile/jpeg/jpeg.py:141-147 | one turn of the loop appends the piece of the next scan to the frame of the earlier ones |
| JpegConcat.ScanRestartInterval | opentile/jpeg/jpeg.py:160-163 | the restart interval is Ok exactly for a subsampling the six-entry MCU tables accept (negative indices count from the end), and is then the number of whole MCUs in the scan: that many fit in its area and one more does not |
| JpegConcat.ConcatenateScans | opentile/jpeg/jpeg.py:104-165 | `concatenate_scans`: no scans fail the assertion; otherwise the joined scans with EOI, the tables (with the APP14 fix when asked), then the header set to the summed size and the restart interval |
| JpegConcat.ConcatenateScansOlder | opentile/jpeg.py:91-158 | the older `concatenate_scans`: no scans fail the assertion; the tables and the colour fix are added by two separate insertions |
| Mcu.McuArea | opentile/jpeg/jpeg.py:303-304 | `tjMCUWidth[s] * tjMCUHeight[s]` is Ok exactly for the indices the six-entry tables accept, and is then 64, 128 or 256 |
| Mcu.McuOfSubsampling | opentile/ndpi_tiler.py:490-498 | `mcu`: no subsampling or (1, 1) gives 8x8, (2, 1) 16x8, (2, 2) 16x16, i.e. 8 times the subsampling; anything else raises `ValueError`; also opentile/formats/ome/ome_tiff_page.py:101-109: the OME page's `mcu` is the same mapping |
| Nibbles.SplitByteIntoNibbles | ndpi_tiler/utils.py:4-8 | `(v >> 4, v & 0x0F)`: 16 times the first plus the second is v, and the second is below 16; also ndpi_tiler/jpeg.py:37-40: the copy in the JPEG module is the same function |
| Nibbles.NibblesOfByte | ndpi_tiler/utils.py:4-8 | for a byte both nibbles are below 16, and two bytes with the same nibbles are equal |
| Nibbles.NibbleExamples | ndpi_tiler/utils.py:4-8 | 0x10 gives (1, 0), 0x01 gives (0, 1) and 0xFF gives (15, 15) |
| BitStream.Unstuff | ndpi_tiler/stream.py:36-48 | the stuffing-free form of JPEG data is shorter than the data by exactly the number of FF 00 pairs collapsed, paired from the front |
| BitStream.PairsRemoved | ndpi_tiler/stream.py:41-47 | the FF 00 pairs found from the front never overlap, so they take at most the whole data |
| BitStream.UnstuffDropsZeros | ndpi_tiler/stream.py:41-47 | removing the stuffing keeps the count of every non-zero byte and drops exactly one 00 byte per collapsed pair |
| BitStream.PairIsMatch | ndpi_tiler/stream.py:42 | a stuffing pair is exactly an occurrence of FF 00 |
| BitStream.UnstuffPassesThrough | ndpi_tiler/stream.py:41-47 | bytes before the first stuffing pair pass through unchanged |
| BitStream.NoStuffingUnchanged | ndpi_tiler/stream.py:46-47 | data without any FF 00 pair is its own stuffing-free form |
| BitStream.UnstuffPair | ndpi_tiler/stream.py:43-44 | an FF 00 pair at the front stands for the single byte FF |
| BitStream.UnstuffUpToPair | ndpi_tiler/stream.py:42-44 | the first FF 00 at or after the search start is where removing the stuffing first changes anything |
| BitStream.StuffingStep | ndpi_tiler/stream.py:42-45 | one turn of `remove_stuffing` (delete the 00 after the first FF 00 and resume just after the FF) keeps the invariant: the searched prefix followed by the stuffing-free rest is the stuffing-free form of the original |
| BitStream.NoStuffingLeft | ndpi_tiler/stream.py:46-48 | when no pair is left after the search start, the data is already the stuffing-free form |
| BitStream.RemoveStuffing | ndpi_tiler/stream.py:36-48 | the loop of `remove_stuffing` computes the stuffing-free form of its input |
| BitStream.StreamBits | ndpi_tiler/stream.py:70-78 | the n bits read from bit p on are, one by one, the bits of the data at p, p+1, … |
| BitStream.NextBitValue | ndpi_tiler/stream.py:83-84 | one more bit doubles the value read so far and adds the bit |
| BitStream.StreamValueOfBits | ndpi_tiler/stream.py:80-85 | the number `read(n)` returns is the unsigned big-endian value of the n bits read |
| BitStream.ReadsCompose | ndpi_tiler/stream.py:80-85 | `read(n)` followed by `read(m)` gives the two halves of one `read(n + m)`: the first shifted left by m, plus the second |
| BitStream.ShiftRightDivides | ndpi_tiler/stream.py:73 | shifting right by k divides by 2^k |
| BitStream.LeadingBitsOfByte | ndpi_tiler/stream.py:73 | the first k bits read from a byte boundary are the byte shifted right by 8 - k |
| BitStream.ByteBoundaryReadsTheByte | ndpi_tiler/stream.py:65-78 | eight bits read from a byte boundary are that byte |
| BitStream.JpegBuffer.BitPos | ndpi_tiler/stream.py:55-63 | `bit_pos` (eight times `byte_pos`, which lags the loaded byte by one, plus the bit) lies within the data, counted from either end |
| BitStream.JpegBuffer.Pos | ndpi_tiler/stream.py:7-13 | `pos` is a `BufferPosition` whose `to_bits()` is `bit_pos` and whose bit is in 0..7; also ndpi_tiler/stream.py:50-53: on a valid buffer, `pos` is the byte position with the bit inside that byte |
| BitStream.JpegBuffer.constructor | ndpi_tiler/stream.py:31-34 | a new buffer over data already unstuffed and not empty holds that data, has its first byte loaded and starts at bit 0 |
| BitStream.JpegBuffer.Open | ndpi_tiler/stream.py:18-34 | opening succeeds exactly when the data without stuffing is not empty, and then holds the unstuffed data at bit 0; empty data raises IndexError when the first byte is loaded |
| BitStream.JpegBuffer.ReadBit | ndpi_tiler/stream.py:70-78 | `_read_bit` returns the data's bit at the old position and moves one bit on; it raises `IndexError` exactly at the last bit of the data (the next byte is loaded ahead), leaving the buffer at the start of its last byte |
| BitStream.JpegBuffer.Read | ndpi_tiler/stream.py:80-85 | `read(count)` returns the unsigned value of the next count bits and moves count bits on (0 and no move for count <= 0); `IndexError` exactly when the bits reach the end of the data |
| BitStream.JpegBuffer.Seek | ndpi_tiler/stream.py:99-104 | `seek(p)` succeeds exactly for a position inside the data or inside the byte already loaded, and then the bit position is p; otherwise `IndexError` with the byte index already moved to p // 8 |
| BitStream.JpegBuffer.Skip | ndpi_tiler/stream.py:106-110 | `skip(n)` moves the bit position by n, and raises `IndexError` exactly when the target lies outside the data |
| BitValues.BitsValue | ndpi_tiler/stream.py:80-85 | the value of n bits, most significant first, is below 2^n |
| BitValues.UintBits | ndpi_tiler/huffman.py:239-241 | `Bits(uint=v, length=n)` has exactly n bits |
| BitValues.ValueOfUintBits | ndpi_tiler/huffman.py:239-241 | writing a value that fits in n bits and reading it back gives the value |
| BitValues.UintBitsOfValue | ndpi_tiler/huffman.py:239-241 | reading bits and writing their value back at the same length gives the bits |
| BitValues.ValueOfLeadingBit | ndpi_tiler/stream.py:84 | a leading bit weighs 2 to the number of bits after it |
| BitValues.Zeros | ndpi_tiler/interface.py:141 | the zero bits `tobytes()` pads the last byte with: n bits, all 0 |
| BitValues.ValueOfZeros | ndpi_tiler/interface.py:141 | zero bits have the value 0 |
| Coefficients.BlockLayout | opentile/jpeg/turbojpeg_patch.py:112-119 | `get_np_coeffs` views the w·h coefficients as h // 8 rows of w // 8 blocks of 64; it raises `ValueError` exactly when those counts do not cover the w·h coefficients (a side that is neither 0 nor a multiple of 8); also ndpi_tiler/turbojpeg_patch.py:99-109: the older callback reshapes the coefficients the same way |
| Coefficients.LayoutFits | opentile/jpeg/turbojpeg_patch.py:118 | (h // 8)(w // 8)·64 equals w·h exactly when one side is 0 or both are multiples of 8 |
| Coefficients.FlatIndex | opentile/jpeg/turbojpeg_patch.py:118 | coefficient k of block (y, c) sits at flat index (y·cols + c)·64 + k, and that index gives back y, c and k |
| Coefficients.BlockOfIndex | opentile/jpeg/turbojpeg_patch.py:118 | every flat index is its block's start plus its place in the block |
| Coefficients.CallbackData | opentile/jpeg/turbojpeg_patch.py:174-175 | the callback data carries the subsampling and the luminance given |
| Coefficients.Transform | opentile/jpeg/turbojpeg_patch.py:178-189 | the transform carries the region, no geometric operation, a perfect transform, and the callback data |
| Coefficients.BlankImage | opentile/jpeg/turbojpeg_patch.py:122-171 | the blanking callback: with a bad shape `ValueError` and nothing written; otherwise afterwards every coefficient is 0 except coefficient 0 of each block, which is the luminance for component 0; chroma fails with `IndexError` exactly for a subsampling outside the six-entry MCU tables; success returns 1; also opentile/turbojpeg_patch.py:109-157: the older `blank_image` callback is the same |
| Coefficients.SetDcColumn | opentile/jpeg/turbojpeg_patch.py:168-169 | the inner loop sets coefficient 0 of the blocks of column x in the first `rows` rows to the DC value, and changes nothing else |
| Coefficients.FillStop | ndpi_tiler/turbojpeg_patch.py:131 | the column where the fill loop over w // 8 .. plane width // 8 stops lies in that range; every column before it is one numpy can index (negative ones from the end) and the stop itself cannot be, unless it is the end of the range |
| Coefficients.FillBackground | ndpi_tiler/turbojpeg_patch.py:48-138 | `fill_background`: chroma is left alone and returns 1; for luminance a bad shape raises `ValueError` with nothing written; otherwise exactly the blocks of the columns the loop reaches (w // 8 up to the stop, a negative column meaning one from the end) are set to the luminance in every row, and it fails with `IndexError` exactly when the loop stops early on a non-empty array |
| Coefficients.FillColumn | ndpi_tiler/turbojpeg_patch.py:132-133 | the inner loop sets all 64 coefficients of block column c in every row to the luminance, and changes nothing else |
| Coefficients.FirstUnusable | ndpi_tiler/turbojpeg_patch.py:131 | the first column numpy cannot index, after ones it can, is where the fill loop stops |
| Coefficients.FillKeepsTheImage | ndpi_tiler/turbojpeg_patch.py:129-133 | columns left of the image (below w // 8) are never written; when the plane fits the array, a column is filled exactly when it lies from w // 8 up to the plane's last column |
| Coefficients.NeedFillExamples | tests/test_turbojpeg_patch.py:45-90 | the test exercises the float `__need_fill_background` of PyTurboJPEG; restated with the integer check of ndpi_tiler/turbojpeg_patch.py:302-330: crops inside a 2048 x 1024 image need no fill, one past its bottom edge does, and with a zero luminance none does |
| Coefficients.DefineCroppingRegions | ndpi_tiler/turbojpeg_patch.py:279-299 | one region per (x, y, w, h) tuple, in order, with those four fields; also tests/test_turbojpeg_patch.py:92-106: the test's two tuples give the two regions it expects |
| Dqt.MarkerFrom | opentile/turbojpeg_patch.py:297-300 | the search from an offset gives -1 or a DQT marker (FF DB) at or after the offset |
| Dqt.DqtStep | opentile/turbojpeg_patch.py:296-311 | one turn of the `__find_dqt` loop either moves strictly forward or stops; when it stops with an offset, a table with the wanted index is there |
| Dqt.FindDqt | opentile/turbojpeg_patch.py:276-312 | the `__find_dqt` loop from offset 0 computes the search, as written or with the intended step; a found offset holds a table with the wanted index and is the last DQT segment the loop reads, none read before it matching; without error it finds nothing exactly when none of the segments it reads matches |
| Dqt.DqtScanFindsATable | opentile/turbojpeg_patch.py:296-312 | what the search finds is a DQT marker at or after its start whose table byte's upper nibble is the wanted index |
| Dqt.StepFacts | opentile/turbojpeg_patch.py:296-311 | a turn that goes on read a DQT marker with a non-matching table byte and resumes no earlier than that marker; a found offset is the marker it read, with a matching table byte; a turn that gives `None` met no marker with a table byte |
| Dqt.ExaminedAreMarkers | opentile/turbojpeg_patch.py:296-311 | the segments the search reads are DQT markers at or after its start, each with a table byte, in non-decreasing order |
| Dqt.NoMatchBeforeLast | opentile/turbojpeg_patch.py:307-311 | every segment the search reads before its last one carries another table |
| Dqt.FoundIsLastExamined | opentile/turbojpeg_patch.py:307-309 | an offset the search returns is the last segment it reads, and that segment carries the wanted table |
| Dqt.NoneIffNoMatch | opentile/turbojpeg_patch.py:296-312 | a search that ends without error returns `None` exactly when no segment it reads carries the wanted table |
| Dqt.FirstTableFound | opentile/turbojpeg_patch.py:296-310 | when the first DQT marker carries the wanted table, the search as written and the corrected one both return it |
| Dqt.DoubledOffsetSkipsATable | opentile/turbojpeg_patch.py:311 | in three DQT segments the search as written misses table 0 in the third, which the corrected step finds at byte 10 |
| Dqt.TurnWithoutMarker | opentile/turbojpeg_patch.py:298-299 | a turn that meets no marker stops with `None` |
| Dqt.TurnOnMarker | opentile/turbojpeg_patch.py:300-311 | a turn on a marker with its length and table byte returns the marker's offset when the upper nibble is the index, and otherwise moves to the next offset (a step that does not move forward raises) |
| Dqt.NoMarkerWithoutFF | opentile/turbojpeg_patch.py:297 | bytes without FF hold no DQT marker |
| Dqt.DcDqtElement | opentile/turbojpeg_patch.py:315-354 | `__get_dc_dqt_element`, with the search as written or as intended: the failure of the search, `ValueError` when it finds no table; otherwise the found offset holds the table and for table 0 the result is the signed byte, for table 1 the signed big-endian short right after the table byte, and `ValueError` for any other precision |
| Dqt.DcElementOfSkippedTable | opentile/turbojpeg_patch.py:311-337 | with the three segments whose third carries table 0 and DC element 5, the DC read as written raises `ValueError`, and as intended gives 5 |
| HuffmanTree.Shift | ndpi_tiler/huffman.py:64-67 | `shift(length)` is 2 to the power of the code length minus the node's depth |
| HuffmanTree.InsertIntoSelf | ndpi_tiler/huffman.py:75-84 | `_insert_into_self` places the leaf exactly when the code length is the node's and the node is not full; it is appended as the last child and its partial code is its index; also tests/test_huffman.py:76-81: the test's four calls: index 0, no place at another length, index 1, no place in a full node |
| HuffmanTree.InsertIntoFresh | ndpi_tiler/huffman.py:111-113 | `insert` on a node just created at a depth places the leaf, with code 0 and a well-formed chain, exactly when the depth is at most the code length; a shorter code recurses without end |
| HuffmanTree.Insert | ndpi_tiler/huffman.py:116-139 | `insert` tries the node itself, then its child nodes, then a new child; a placed leaf is never shorter than the node, and the tree stays well formed (at most two children, children one level deeper) at the same depth; also ndpi_tiler/jpeg.py:117-139: the prototype's `HuffmanNode.insert` (its `depth` is the code length less one) builds the same tree; only its returned codes differ, and the decoder does not use them |
| HuffmanTree.InsertIntoChild | ndpi_tiler/huffman.py:86-100 | `_insert_into_child`: the first child node that takes the leaf; a placement is strictly deeper than the node and keeps the tree well formed |
| HuffmanTree.InsertIntoNewChild | ndpi_tiler/huffman.py:102-114 | `_insert_into_new_child`: no place in a full node; otherwise a placement exactly when the code is deeper than the node, the new child is one more child, and the code is the child's code plus the child's index times `shift(length)` |
| HuffmanTree.Lookup | ndpi_tiler/huffman.py:290-302 | walking the tree along bits fails only with bitstring's `ReadError` (bits run out) or `ValueError` (a missing child) |
| HuffmanTree.DecodeFromBits | ndpi_tiler/huffman.py:277-302 | the loop of `decode_from_bits` computes the walk from the root |
| HuffmanTree.LookupIgnoresTheRest | ndpi_tiler/huffman.py:293-302 | bits after a leaf is reached are not read and do not change the result |
| HuffmanTree.InsertPath | ndpi_tiler/huffman.py:97-99 | every placed leaf has a path whose length is the code length and whose value is the returned code; the walk along it led nowhere before and leads to the leaf after, and every walk that found a value before finds the same value after |
| HuffmanTree.ChildPath | ndpi_tiler/huffman.py:94-100 | the same for `_insert_into_child`: the child's index comes first on the path |
| HuffmanTree.NewChildPath | ndpi_tiler/huffman.py:111-114 | the same for `_insert_into_new_child`: the new child's index, then zeros |
| HuffmanTree.FreshPath | ndpi_tiler/huffman.py:111-113 | the leaf of a fresh chain is reached along zeros |
| HuffmanTree.ShallowGrows | ndpi_tiler/huffman.py:116-139 | a tree no deeper than a length is no deeper than any larger length |
| HuffmanTree.InsertEnds | ndpi_tiler/huffman.py:116-139 | inserting into a tree no deeper than the code length never recurses without end, and leaves the tree no deeper than that length |
| HuffmanTree.ChildEnds | ndpi_tiler/huffman.py:86-100 | the same for `_insert_into_child` |
| HuffmanTree.FreshEnds | ndpi_tiler/huffman.py:111-113 | a fresh chain down to a length is no deeper than that length |
| HuffmanTree.ExampleTreesWellFormed | tests/test_huffman.py:61-66 | the trees the test builds are well formed |
| HuffmanTree.CanonicalFirstTwo | tests/test_huffman.py:62-63 | the first value takes code 0, the second, one bit longer, code 10 |
| HuffmanTree.CanonicalThird | tests/test_huffman.py:64 | the third value, at length 3, takes code 110 |
| HuffmanTree.CanonicalFourthBelowRoot | tests/test_huffman.py:65 | below the root, the fourth value takes the right child's open place |
| HuffmanTree.CanonicalFourth | tests/test_huffman.py:65 | the fourth value, at length 3, takes code 111 |
| HuffmanTree.CanonicalFull | tests/test_huffman.py:66 | with four leaves there is no place left for a fifth of length 3 |
| HuffmanTree.CanonicalCodes | tests/test_huffman.py:61-66 | from an empty root, values at code lengths 1, 2, 3, 3 get the codes 0, 10, 110, 111, and a fifth of length 3 finds no place |
| HuffmanTable.IdentifierFromByte | ndpi_tiler/huffman.py:19-26 | `from_byte`: DC exactly when the upper nibble is 0, AC otherwise; the selection is the lower nibble |
| HuffmanTable.IdentifierBytes | ndpi_tiler/huffman.py:19-26 | the identifier bytes of section B.2.4.2 of ITU-T T.81: 0s is DC table s, 1s is AC table s |
| HuffmanTable.EmptyTable | ndpi_tiler/huffman.py:169-172 | a new table has an empty root at depth 0 and empty encode and decode maps |
| HuffmanTable.AddValue | ndpi_tiler/huffman.py:175-192 | one turn of the constructor's loop: a success adds a value that was not in the table and keeps the root well formed at depth 0; failures are `ValueError` (no place, a duplicate) or the endless recursion |
| HuffmanTable.AddLevel | ndpi_tiler/huffman.py:175-192 | the loop over one level keeps the root well formed and the identifier |
| HuffmanTable.AddLevels | ndpi_tiler/huffman.py:174-192 | the loop over the levels keeps the root well formed and the identifier |
| HuffmanTable.BuildTable | ndpi_tiler/huffman.py:151-193 | `HuffmanTable(identifier, values_in_levels)` keeps the identifier |
| HuffmanTable.NewHuffmanTable | ndpi_tiler/huffman.py:169-192 | the constructor's two nested loops compute the table |
| HuffmanTable.DecodedCodeLeads | ndpi_tiler/huffman.py:191-192 | in a consistent table the code of every decode entry leads to its value through the tree |
| HuffmanTable.InverseGrows | ndpi_tiler/huffman.py:191-192 | a new value with a new code keeps the encode and decode maps inverse to each other |
| HuffmanTable.CodesLeadGrow | ndpi_tiler/huffman.py:178-192 | growing the tree by a placement keeps every old code leading to its value and adds the new one |
| HuffmanTable.AddValueKeeps | ndpi_tiler/huffman.py:175-192 | adding a value keeps the table consistent (inverse maps, every code leads to its value) |
| HuffmanTable.AddLevelKeeps | ndpi_tiler/huffman.py:175-192 | a level keeps the table consistent and no deeper than its length, and fails only with `ValueError` |
| HuffmanTable.AddLevelsKeeps | ndpi_tiler/huffman.py:174-192 | building from levels of increasing code length never recurses without end, fails only with `ValueError`, and keeps the table consistent |
| HuffmanTable.BuiltTableIsConsistent | ndpi_tiler/huffman.py:151-193 | the constructor raises only `ValueError`, and what it builds is consistent |
| HuffmanTable.Encode | ndpi_tiler/huffman.py:235-237 | `encode` succeeds exactly for a value in the table, otherwise `KeyError` |
| HuffmanTable.EncodeIntoBits | ndpi_tiler/huffman.py:239-241 | `encode_into_bits` succeeds exactly for a value in the table, with as many bits as its code length |
| HuffmanTable.DecodeFromBitsOf | ndpi_tiler/huffman.py:277-302 | `decode_from_bits` on a table fails only with `ReadError` or `ValueError` |
| HuffmanTable.EncodeDecodeRoundTrip | ndpi_tiler/huffman.py:235-302 | in a built table, decoding a value's encoded bits gives the value, and the encode and decode maps are inverse to each other; also tests/test_huffman.py:161-168: the test's round trip `decode_from_bits(encode_into_bits(v)) == v`, for every table and value |
| HuffmanTable.DecodeFrom | ndpi_tiler/huffman.py:257-263 | the bit-by-bit decode returns a value whose code (the value of the bits read, at the number read) is in the decode map with that value |
| HuffmanTable.Decode | ndpi_tiler/huffman.py:243-263 | the loop of `decode` computes the bit-by-bit decode from one bit on |
| HuffmanTable.NoShorterCode | ndpi_tiler/huffman.py:259 | no shorter prefix of a value's code is a code in a consistent table |
| HuffmanTable.DecodeCode | ndpi_tiler/huffman.py:257-263 | decoding a value's code followed by any bits gives the value and reads exactly the code's bits |
| HuffmanTable.DecodeRoundTrip | ndpi_tiler/huffman.py:235-263 | in a built table, `decode` of a value's encoded bits, whatever follows them, gives the value and reads exactly its code |
| HuffmanTable.ReadLevels | ndpi_tiler/huffman.py:222-229 | the levels read: `struct.error` exactly when the data end before all counted bytes; otherwise one level per count, of that many bytes, together the bytes after the counts |
| HuffmanTable.FromData | ndpi_tiler/huffman.py:201-233 | `from_data`: data shorter than 17 bytes raise `struct.error`; a result read 17 plus the counted bytes, within the data, and its identifier is that of the first byte |
| HuffmanTable.FromDataReadsTheCounts | ndpi_tiler/huffman.py:218-233 | with enough data, the 16 levels have the counted lengths, hold the bytes after the counts in order, and the table is built from them |
| JpegHeader.TreeLevel | ndpi_tiler/jpeg.py:258-266 | the inner loop of the prototype's `HuffmanTable` constructor keeps the root well formed at depth 0 |
| JpegHeader.TreeLevels | ndpi_tiler/jpeg.py:257-266 | the outer loop over the levels keeps the root well formed at depth 0 |
| JpegHeader.BuildTree | ndpi_tiler/jpeg.py:234-266 | the prototype's `HuffmanTable(identifier, symbols_in_levels)` keeps the identifier and builds a well-formed tree |
| JpegHeader.SameTreeForLevel | ndpi_tiler/jpeg.py:258-266 | a level the table with maps (ndpi_tiler/huffman.py:175-192) accepts gives the prototype the same tree: the two constructors differ only in the duplicate check |
| JpegHeader.SameTreeForLevels | ndpi_tiler/jpeg.py:257-266 | the same for all the levels from a code length on |
| JpegHeader.SameTreeAsTable | ndpi_tiler/jpeg.py:234-266 | whatever builds a table in ndpi_tiler/huffman.py builds the same tree in the prototype |
| JpegHeader.TreeLevelEnds | ndpi_tiler/jpeg.py:258-266 | a level inserted into a tree no deeper than its code length fails only with `ValueError` and leaves the tree no deeper |
| JpegHeader.TreeLevelsEnd | ndpi_tiler/jpeg.py:257-266 | the levels fail only with `ValueError` |
| JpegHeader.BuildTreeEnds | ndpi_tiler/jpeg.py:257-266 | the prototype's constructor raises only `ValueError`: levels in increasing code length never recurse without end |
| JpegHeader.TreeDecode | ndpi_tiler/jpeg.py:312-331 | the stream `decode` reads at least one bit from an inner node and stays within the bits; it fails only with `ReadError` (bits run out) or `AttributeError` (a missing child gives `None`, whose `get` fails) |
| JpegHeader.TreeDecodeIsLookup | ndpi_tiler/jpeg.py:312-352 | the stream `decode` succeeds exactly when `decode_from_bits` over the remaining bits does, with the same value, and the bits it reads are a path to that value |
| JpegHeader.ParseTable | ndpi_tiler/jpeg.py:279-310 | the prototype's `from_data`: fewer than 17 bytes raise `struct.error`; a result read 17 plus the counted bytes, within the data, with the identifier of the first byte |
| JpegHeader.ParseTables | ndpi_tiler/jpeg.py:453-470 | `parse_huffman` of an empty payload is no tables; every table read takes at least 17 bytes |
| JpegHeader.ParseHuffman | ndpi_tiler/jpeg.py:463-470 | the loop of `parse_huffman` computes the tables read one after another |
| JpegHeader.OneTableFirst | ndpi_tiler/jpeg.py:465-469 | a parse that reads one table goes on with the bytes after it |
| JpegHeader.ReadLevelsPrefix | ndpi_tiler/jpeg.py:300-306 | reading the levels looks at no byte past the last level |
| JpegHeader.TableIgnoresRest | ndpi_tiler/jpeg.py:295-310 | a table is read from its own bytes alone: bytes after it do not change it |
| JpegHeader.TablesInSequence | ndpi_tiler/jpeg.py:465-469 | a payload that starts with exactly one table gives that table, then the tables of the rest |
| JpegHeader.ParseStartOfFrame | ndpi_tiler/jpeg.py:473-484 | `parse_start_of_frame` succeeds exactly with six bytes or more (otherwise `struct.error`), and gives two shorts |
| JpegHeader.FrameSizeRoundTrip | ndpi_tiler/jpeg.py:483-484 | a frame header written with a height and a width reads back as (width, height) |
| JpegHeader.SelectionsFrom | ndpi_tiler/jpeg.py:442-448 | the loop over the components succeeds exactly when all their byte pairs are present, and otherwise raises `struct.error` |
| JpegHeader.ParseStartOfScan | ndpi_tiler/jpeg.py:427-449 | `parse_start_of_scan` succeeds exactly when the count byte and all the pairs are present; the keys are the components' identifiers, and each maps to the nibbles (DC, AC) of the last pair with that identifier |
| JpegHeader.SelectionsContents | ndpi_tiler/jpeg.py:442-448 | the loop from component i adds exactly the identifiers from i on, keeps earlier entries it does not overwrite, and the last pair of an identifier wins |
| JpegHeader.ParseStartOfScanLoop | ndpi_tiler/jpeg.py:439-449 | the loop computes `parse_start_of_scan` |
| JpegHeader.ReadMarker | ndpi_tiler/jpeg.py:487-500 | `read_marker` is `None` exactly when fewer than two bytes remain, and otherwise the big-endian short there |
| JpegHeader.ReadPayload | ndpi_tiler/jpeg.py:503-514 | `read_payload`: `struct.error` exactly when fewer than two bytes remain; otherwise the bytes after the length field, up to the length (which counts its own two bytes) or the end of the data when the length is below 2 or runs past the end |
| JpegHeader.PayloadRoundTrip | ndpi_tiler/jpeg.py:512-514 | a segment written with its length reads back as its payload, whatever follows it |
| JpegHeader.Dispatch | ndpi_tiler/jpeg.py:407-415 | the branch on a marker: DHT never loses tables, markers other than DHT, SOF and SOS change nothing, and the frame size stays within shorts |
| JpegHeader.HeaderFrom | ndpi_tiler/jpeg.py:399-417 | the marker loop stops when fewer than two bytes remain; a marker without a name raises `KeyError`, a start or end of image `ValueError`; it never loses tables or a frame size seen |
| JpegHeader.TablesById | ndpi_tiler/jpeg.py:371-373 | the dict comprehension has exactly the identifiers of the tables as keys |
| JpegHeader.LastTableWins | ndpi_tiler/jpeg.py:371-373 | the last table with an identifier is the one the dict keeps |
| JpegHeader.Finish | ndpi_tiler/jpeg.py:418-424 | the checks after the loop: no tables, or a frame but no selections, raise `ValueError` ('missing tags'); tables without a frame raise `UnboundLocalError`; they succeed exactly with tables, a frame and selections, and the header then holds the tables by identifier, the frame's width and height (within shorts) and the selections |
| JpegHeader.FromBytes | ndpi_tiler/jpeg.py:381-424 | `from_bytes` raises `ValueError` unless the data start with a start of image; a header has tables and selections |
| JpegHeader.ParseHeader | ndpi_tiler/jpeg.py:395-424 | the loop of `from_bytes` computes the header |
| JpegHeader.ReadBits | ndpi_tiler/jpeg.py:205-211 | corrected `read_bits(count)`: fails with `ReadError` exactly when fewer than count bits remain; otherwise a value below 2^count and the position count bits on |
| JpegHeader.ReadBitsRoundTrip | ndpi_tiler/jpeg.py:205-211 | bits written from a value read back as that value, whatever surrounds them |
| JpegHeader.ReadBitsAsWritten | ndpi_tiler/jpeg.py:208-211 | `read_bits` as written: no bits read as 0 |
| JpegHeader.ReadBitsAsWrittenMisreads | ndpi_tiler/jpeg.py:210 | as written, the bits 1, 1 read as 4 instead of 3, and 1, 0 as 3 instead of 2 |
| JpegHeader.ReadBitsLoop | ndpi_tiler/jpeg.py:205-211 | the corrected loop computes `read_bits` |
| JpegHeader.AsWrittenNeverLess | ndpi_tiler/jpeg.py:208-211 | the value `read_bits` computes as written is never below the intended one |
| JpegHeader.StreamReadBits | ndpi_tiler/jpeg.py:205-211 | `read_bits(count)` on the stream: a `ReadError` exactly when fewer than count bits remain; otherwise the position count bits on, the intended value, or as written the tripling fold, never below it |
| JpegHeader.StreamReadBitsAgreeOnOneBit | ndpi_tiler/jpeg.py:208-211 | reading no bit or one bit gives the same result as written and as intended |
| JpegHeader.DcAmplitude | ndpi_tiler/jpeg.py:609-626 | `_read_dc_amplitude`: a missing DC table raises `KeyError`; a failed decode fails the same way; otherwise the result is `read_bits` (as written or as intended) of the decoded length, right after the code, none for a negative length |
| JpegHeader.AcStep | ndpi_tiler/jpeg.py:647-656 | one turn of the AC loop: a failed decode fails the same way; code 0 ends the block right after it; any other code reads `read_bits` (as written or as intended) of its lower nibble right after it, with its upper nibble as the run of zeros; a turn reads at least one bit and stays within the bits |
| JpegHeader.AcFrom | ndpi_tiler/jpeg.py:646-656 | the AC loop, reading as written or as intended, only appends amplitudes, at most one per coefficient left below 64, and does nothing from coefficient 64 on |
| JpegHeader.AcAmplitudes | ndpi_tiler/jpeg.py:628-658 | `_read_ac_amplitudes`, reading as written or as intended: a missing AC table raises `KeyError`; a block has at most 63 AC amplitudes |
| JpegHeader.AcFromStep | ndpi_tiler/jpeg.py:646-656 | one turn of the loop, by what the step gave: stop with its error, stop at the end of the block, or append the amplitude and go on past its run of zeros |
| JpegHeader.ReadAcAmplitudes | ndpi_tiler/jpeg.py:643-658 | the loop computes `_read_ac_amplitudes`, as written or as intended |
| JpegHeader.AcAmplitudeMisread | ndpi_tiler/jpeg.py:647-656 | with code 0 for the value 0x02 and code 1 for the end of the block, the bits 0, 1, 1, 1 give the AC amplitude 4 as written and 3 as intended |
| JpegHeader.DcAmplitudeMisread | ndpi_tiler/jpeg.py:624-626 | a DC length 2 decoded from code 0 followed by the bits 1, 1 gives the amplitude 4 as written and 3 as intended |
| NdpiTiles.NdpiTile.TilesPerFrame | opentile/formats/ndpi/ndpi_tile.py:42-44 | the number of tiles per frame is at least one in each axis, even when the frame is smaller than a tile |
| NdpiTiles.NdpiTile.FramePosition | opentile/formats/ndpi/ndpi_tile.py:50-52 | the frame position is the first tile of the tile's frame: the tile lies within `TilesPerFrame` tiles after it in each axis; also opentile/ndpi_tiler.py:164-175: the earlier copy of the tile computes the same frame position and offsets |
| NdpiTiles.NewTile | opentile/formats/ndpi/ndpi_tile.py:25-52 | constructing a tile succeeds exactly when none of its floor divisions and modulos divides by zero, and then keeps the three given values; otherwise `ZeroDivisionError` |
| NdpiTiles.OffsetFromFramePosition | opentile/formats/ndpi/ndpi_tile.py:45-52 | when the frame holds whole tiles, the tile's left and top offsets inside the frame are its distance from the frame position, in tiles, times the tile size |
| NdpiTiles.OffsetInAxis | opentile/formats/ndpi/ndpi_tile.py:45-49 | in one axis, the pixel offset `(p * w) % max(f, w)` equals the tile's distance from the frame's first tile times the tile width |
| NdpiTiles.WrapIsWholeTiles | opentile/formats/ndpi/ndpi_tile.py:42-47 | when the frame holds whole tiles, the wrap length `max(f, w)` equals tiles per frame times the tile width |
| NdpiTiles.CropOfTileFiveFive | tests/test_ndpi_tiler.py:149-155 | tile (5, 5) of 512-pixel tiles in a 2048 by 512 frame is cropped at left 512, top 0, 512 by 512, from the frame at (4, 5) |
| NdpiTiles.CropsOf | opentile/formats/ndpi/ndpi_tile.py:156-159 | the crop parameters hold one box per tile, in order, with that tile's left, top, width and height |
| NdpiTiles.NdpiFrameJob.constructor | opentile/formats/ndpi/ndpi_tile.py:121-126 | a job made from one tile holds that tile, has its frame position and frame size, and is valid (every tile has the job's frame position) |
| NdpiTiles.NdpiFrameJob.Append | opentile/formats/ndpi/ndpi_tile.py:161-165 | appending fails with `ValueError` exactly when the tile has another frame position, leaving the tiles unchanged; otherwise the tile is added at the end; the job stays valid |
| NdpiTiles.FirstMismatch | opentile/formats/ndpi/ndpi_tile.py:127-128 | the index of the first tile whose frame position differs from the first tile's, or the length when there is none |
| NdpiTiles.FirstMismatchFrom | opentile/formats/ndpi/ndpi_tile.py:127-128 | scanning on from a prefix that agrees with the first tile finds the first disagreeing tile, or the end |
| NdpiTiles.FrameJobOfList | opentile/formats/ndpi/ndpi_tile.py:112-128 | a job from a list: an empty list raises `IndexError`; the caller's list loses its first element (the `pop(0)`); a tile with another frame position raises `ValueError`; otherwise a fresh valid job holding all the tiles in order; also opentile/ndpi_tiler.py:234-253: the earlier copy of the frame job constructor behaves the same |
| NdpiTilers.AdjustTileSize | opentile/formats/ndpi/ndpi_tiler.py:104-139 | `_adjust_tile_size` returns a square size; without striped pages, or when the request equals the smallest stripe width, it is the request itself; otherwise it succeeds exactly for a positive request, while a zero request divides by zero and a negative one is outside the logarithm's domain; also opentile/ndpi_tiler.py:991-1027 and opentile/ndpi/ndpi_tiler.py:125-160: the two earlier copies are the same |
| NdpiTilers.NearestExponentBounds | opentile/formats/ndpi/ndpi_tiler.py:132-137 | the exponent standing for `round(log2(a / b))` is the one nearest to log2 of the ratio, stated without fractions: `2^(2n) b² <= 2 a²` and `a² < 2^(2n+1) b²` |
| NdpiTilers.AdjustedIsNearestPowerMultiple | opentile/formats/ndpi/ndpi_tiler.py:132-139 | away from the identity cases the adjusted width is the stripe width times `2^n`, where n is the exponent nearest to log2 of the ratio between the larger and the smaller of request and stripe width |
| NdpiTilers.PowerMultipleIsKept | opentile/formats/ndpi/ndpi_tiler.py:125-139 | a request that is already the stripe width times a power of two is returned unchanged |
| NdpiTilers.ExactExponent | opentile/formats/ndpi/ndpi_tiler.py:137 | the nearest exponent of a ratio `2^k` is k |
| NdpiTilers.DoubledBase | opentile/formats/ndpi/ndpi_tiler.py:137 | halving the base of the ratio adds one to the nearest exponent |
| NdpiTilers.SmallRequestGrows | opentile/formats/ndpi/ndpi_tiler.py:134-139 | a request below the smallest stripe width is not divided down: the factor multiplies the stripe width, so the adjusted size is at least the stripe width and larger than the request |
| NdpiTilers.AdjustTileSizeExamples | tests/test_ndpi_tiler.py:291-315 | 512 with stripes 56 or 248 wide becomes 448 or 496; 512 with stripes 512 wide, or with no stripes, stays 512 |
| NdpiTilers.TilerTileSize | opentile/formats/ndpi/ndpi_tiler.py:70-75 | the constructor's tile size is the adjusted size, and the constructor succeeds exactly when adjusting succeeds and both sides are divisible by 8; an adjusted size that is not raises `ValueError`, and a failure to adjust is passed on unchanged; also opentile/ndpi_tiler.py:944-950 and opentile/ndpi/ndpi_tiler.py:67-73 |
| NdpiTilers.SmallestStripeWidthIsMinimum | opentile/formats/ndpi/ndpi_tiler.py:141-159 | the smallest stripe width is `None` exactly when no page is tiled; otherwise it is the chunk width of some tiled page and no tiled page has a smaller one |
| NdpiTilers.GetSmallestStripeWidth | opentile/ndpi_tiler.py:1029-1050 | the loop over the pages, keeping the running minimum of the tiled pages' chunk widths, returns the smallest stripe width; also opentile/ndpi/ndpi_tiler.py:162-180 and opentile/formats/ndpi/ndpi_tiler.py:141-159 |
| NdpiTilers.NewNdpiTiler | opentile/ndpi/ndpi_tiler.py:40-84 | the second-generation constructor succeeds exactly when the tile size does, and then holds that tile size, the overview series (the last one named "Macro") and the faked label index -1, which is set exactly when there is an overview series |
| NdpiTilers.CreatePage | opentile/ndpi/ndpi_tiler.py:109-243 | `get_page`'s dispatch: series 0 gives a page of the level series, striped exactly when the TIFF page is tiled and one-frame otherwise, with the tiler's tile size; the overview series gives the macro page cropped to `(p, 1.0)`, the label series the macro page cropped to `(0.0, p)`; any other series raises `ValueError` |
| NdpiTilers.NewFirstNdpiTiler | opentile/ndpi_tiler.py:920-960 | the first constructor succeeds exactly when the tile size does, and then holds that tile size, the last series named "Label" and the last series named "Macro" |
| NdpiTilers.CreateFirstPage | opentile/ndpi_tiler.py:1052-1098 | `_create_page` fails only on an index out of range (`IndexError`); a tiled page is striped whatever its series; an untiled page is one-frame in the level series and a plain page in any other |
| NdpiTilers.NewPageCache | opentile/ndpi/ndpi_tiler.py:109-123 | the page store of the second-generation tiler starts empty and computes a missing page with `CreatePage` |
| NdpiTilers.NewFirstPageCache | opentile/ndpi_tiler.py:977-989 | the page store of the first tiler starts empty and computes a missing page with `CreateFirstPage` |
| NdpiTilers.GetPageTwice | opentile/ndpi/ndpi_tiler.py:109-123 | asking twice for the same page gives the same result both times, the page the dispatch creates |
| NdpiTilers.GetLevel | opentile/formats/ndpi/ndpi_tiler.py:161-178 | `get_level` succeeds exactly when the page exists in series 0 (else `IndexError`), and returns that page, striped exactly when it is tiled and one-frame otherwise, with the tiler's tile size |
| NdpiTilers.GetLabel | opentile/formats/ndpi/ndpi_tiler.py:180-187 | `get_label` fails its assertion without an overview series; otherwise it succeeds exactly when the macro page exists and is that page cropped to `(0.0, p)` |
| NdpiTilers.GetOverview | opentile/formats/ndpi/ndpi_tiler.py:189-194 | `get_overview` fails its assertion without an overview series; otherwise it succeeds exactly when the macro page exists and is that page, uncropped |
| NdpiTilers.LabelAndOverviewShareThePage | opentile/formats/ndpi/ndpi_tiler.py:180-194 | whenever the overview exists, the label exists too and is cut from the same macro page |
| NdpiTilers.GetThumbnail | opentile/formats/ndpi/ndpi_tiler.py:196-197 | NDPI files have no thumbnail: `get_thumbnail` always raises `NotImplementedError` |
| Memo.Memo.constructor | opentile/ndpi/ndpi_tiler.py:82 | a page store starts empty, with the given way of creating a page |
| Memo.Memo.Get | opentile/ndpi_tiler.py:977-989 | `get_page` returns exactly what creating the page returns; a stored page is returned and nothing changes; a page created now is stored under its key; a creation that raises stores nothing |
| NdpiCaches.Evict | opentile/ndpi_tiler.py:131-136 | `_remove_old` leaves a suffix of the history, no longer than the size when it succeeds; popping from an empty history raises `IndexError` and a popped key without content raises `KeyError` |
| NdpiCaches.EvictConsistent | opentile/ndpi_tiler.py:131-136 | in a consistent cache (every stored key exactly once in the history), eviction to a size of at least zero succeeds, keeps the newest `size` entries and their content, and stays consistent |
| NdpiCaches.PopOldestConsistent | opentile/ndpi_tiler.py:134-136 | removing the oldest history entry together with its content keeps the cache consistent |
| NdpiCaches.SetNewKey | opentile/ndpi_tiler.py:69-82 | writing a key that is not stored into a consistent cache of positive size succeeds, reads back the value, stays consistent and keeps at most `size` keys; a full cache loses exactly its oldest key |
| NdpiCaches.DropOldestOfAppended | opentile/ndpi_tiler.py:81-82 | appending a key and then dropping the oldest entry is dropping the oldest entry and then appending |
| NdpiCaches.GrownConsistent | opentile/ndpi_tiler.py:80-81 | storing a new key and appending it to the history keeps the cache consistent |
| NdpiCaches.NewestSurvives | opentile/ndpi_tiler.py:131-136 | eviction to a positive size keeps the newest history entry and its content |
| NdpiCaches.Keys | opentile/ndpi_tiler.py:128 | `list(items.keys())`: the keys of the items, in order |
| NdpiCaches.UpdateMap | opentile/ndpi_tiler.py:127 | `dict.update` stores exactly the old keys and the new ones |
| NdpiCaches.UpdateNewKeys | opentile/ndpi_tiler.py:118-129 | `update` with distinct keys that are not stored succeeds, stays consistent and keeps the newest `size` keys of the old history followed by the new keys |
| NdpiCaches.NewKeysStayDistinct | opentile/ndpi_tiler.py:128 | appending distinct new keys keeps the history free of repeats |
| NdpiCaches.UpdatedKeysAreHistory | opentile/ndpi_tiler.py:127-128 | after `update`, the stored keys are exactly those of the extended history |
| NdpiCaches.RepeatedKeyBreaksEviction | opentile/ndpi_tiler.py:69-82 | as written, writing a stored key again gives it a second history entry: with size 2, writing A, A, B and then C raises `KeyError` |
| NdpiCaches.FirstWrites | opentile/ndpi_tiler.py:80-82 | writing A into an empty cache of size 2, then A again, leaves A stored once and twice in the history |
| NdpiCaches.FirstWrite | opentile/ndpi_tiler.py:80-82 | the first write of A into an empty cache of size 2 stores A with a history of A |
| NdpiCaches.SecondWrite | opentile/ndpi_tiler.py:80-82 | writing A again keeps one content entry and a history of A, A |
| NdpiCaches.ThirdWrite | opentile/ndpi_tiler.py:80-82 | writing B then pops the first A and its content, leaving B stored and a history of A, B |
| NdpiCaches.FourthWrite | opentile/ndpi_tiler.py:80-82 | writing C then pops the second A, which has no content any more: `KeyError` |
| NdpiCaches.Remove | opentile/ndpi_tiler.py:80-81 | the history without any entry of the key: the other entries stay, repeats are not created, and a key that is absent changes nothing |
| NdpiCaches.SetReplacingConsistent | opentile/ndpi_tiler.py:69-82 | the corrected write, which first drops the key's old history entry, keeps a consistent cache of positive size consistent for every key, never fails and reads back the value |
| NdpiCaches.SetReplacingAgrees | opentile/ndpi_tiler.py:69-82 | for a key that is not stored, the corrected write is the write as written |
| NdpiCaches.NdpiCache.constructor | opentile/ndpi_tiler.py:44-55 | a new cache has the given size, no content and an empty history |
| NdpiCaches.NdpiCache.Len | opentile/ndpi_tiler.py:57-58 | `len` is the length of the history, which counts a repeated key twice |
| NdpiCaches.NdpiCache.Get | opentile/ndpi_tiler.py:84-97 | `cache[key]` succeeds exactly when the key is stored and gives its frame; otherwise `KeyError` |
| NdpiCaches.NdpiCache.RemoveOld | opentile/ndpi_tiler.py:131-136 | the eviction loop leaves the state and the outcome that `Evict` gives |
| NdpiCaches.NdpiCache.Set | opentile/ndpi_tiler.py:69-82 | `cache[key] = value` leaves the state and outcome of storing, appending to the history and evicting |
| NdpiCaches.NdpiCache.Update | opentile/ndpi_tiler.py:118-129 | `update` leaves the state and outcome of storing all items, appending their keys and evicting |
| NdpiCaches.NdpiCache.SetReplacing | opentile/ndpi_tiler.py:69-82 | the corrected `__setitem__` leaves the state of the corrected write |
| NdpiCaches.CachedFrame | opentile/ndpi_tiler.py:599-606 | `_create_tiles` reads a stored frame from the cache unchanged, and otherwise reads the frame and stores it; since it writes only keys that are not stored, a consistent cache of positive size never fails and keeps the newest `size` frames |
| NdpiImages.MakeTile | opentile/formats/ndpi/ndpi_image.py:394-401 | the tile for one requested position: an error computing the tiled size is passed on, a position outside the tiled size raises `ValueError`, and a tile that is made sits at that position with the level's tile size and the frame size asked for at that position |
| NdpiImages.MakeTiles | opentile/formats/ndpi/ndpi_image.py:394-401 | the tiles for the first n positions, one per position when it succeeds |
| NdpiImages.MakeTilesPointwise | opentile/formats/ndpi/ndpi_image.py:394-401 | a list of tiles that succeeds holds, at each index, the tile made for the position at that index |
| NdpiImages.MakeTilesFirstError | opentile/formats/ndpi/ndpi_image.py:394-401 | a failing list fails with the error of the first position that cannot be made into a tile |
| NdpiImages.MakeTilesFailure | opentile/formats/ndpi/ndpi_image.py:394-401 | once the first i positions fail, every longer prefix fails with the same error: the loop stops at the first raise |
| NdpiImages.JoinJob | opentile/formats/ndpi/ndpi_image.py:402-403 | appending a tile to the job of its frame position keeps the jobs a grouping of the tiles made so far, by frame position, in order of first appearance |
| NdpiImages.StartJob | opentile/formats/ndpi/ndpi_image.py:404-405 | a new job for a tile whose frame position has no job yet, added at the end, keeps that grouping |
| NdpiImages.SortTile | opentile/formats/ndpi/ndpi_image.py:402-405 | one tile sorted into the jobs: the existing jobs keep their places, only new jobs are added, and the jobs group the tiles made so far plus this one |
| NdpiImages.NextTile | opentile/formats/ndpi/ndpi_image.py:395-401 | making the tile of position i either extends the tiles made so far or raises the error that the whole list raises |
| NdpiImages.SortIntoFrameJobs | opentile/formats/ndpi/ndpi_image.py:377-406 | `_sort_into_frame_jobs` raises the error of the first position that cannot be made into a tile; otherwise it returns fresh jobs that group all the tiles by frame position, jobs in order of first appearance and tiles in input order |
| NdpiImages.NdpiLevel.SuggestedMinimumChunkSize | opentile/formats/ndpi/ndpi_image.py:243-245 | `max(frame.w // tile.w, 1)` is at least one, and above one it is the number of whole tiles in a frame row; a zero tile width divides by zero |
| NdpiImages.OneFrameReadSize | opentile/formats/ndpi/ndpi_image.py:426-436 | the read size of a one-frame level is a multiple of the tile size strictly larger than the frame, by at most one tile, in each axis; a zero tile side divides by zero |
| NdpiImages.PartialFrameIsImageRest | opentile/formats/ndpi/ndpi_image.py:533-588 | in the last tile column, when stripes are narrower than tiles, the partial frame width is what is left of the striped image: more than zero and at most one tile |
| NdpiImages.StripedReadSizeExample | tests/test_ndpi_tiler.py:274-283 | tile (99, 74) of a level of 512-pixel tiles stored as 25 × 4768 stripes of 2048 × 8 pixels reads a 2048 × 256 frame |
| NdpiImages.StripeRegion | opentile/formats/ndpi/ndpi_image.py:614-617 | the stripe region starts at the stripe holding the tile's upper left pixel and spans `max(frame // stripe, 1)` stripes in each axis, which fit in the frame when it is at least one stripe; a zero stripe side raises `ZeroDivisionError` |
| NdpiImages.StripeIndexExamples | tests/test_ndpi_tiler.py:52-60 | with 25 stripe columns, stripe (50, 0) is number 50 and stripe (20, 20) is number 520 |
| NdpiImages.StripeIndices | opentile/formats/ndpi/ndpi_image.py:618-621 | the stripe numbers of a region, one per stripe, in the region's row-by-row order |
| NdpiImages.StripeIndicesDistinct | opentile/formats/ndpi/ndpi_image.py:618-641 | a region inside the striped image names each of its stripes once, and every number is a stripe of the image |
| NdpiImages.StripePointOnGrid | opentile/formats/ndpi/ndpi_image.py:628-641 | each point of such a region lies on the stripe grid, and its number is its row-major frame index |
| NdpiImages.DivBelow | opentile/formats/ndpi/ndpi_image.py:641 | a row-major index below w·h has a row below h |
| NdpiImages.McuMisaligned | opentile/formats/ndpi/ndpi_image.py:455-458 | for a positive MCU, the test is true exactly when the image size is not a whole number of MCUs in some axis |
| NdpiImages.WholeMcuSize | opentile/formats/ndpi/ndpi_image.py:459-460 | `ceil_div(image, mcu) * mcu` is the smallest multiple of the MCU at least the image size, in each axis; a zero MCU side fails |
| NdpiImages.OneFrameSource | opentile/formats/ndpi/ndpi_image.py:453-461 | only position (0, 0) is accepted (else `ValueError`); frame 0 is used as read when the image is MCU-aligned, and otherwise with its header rewritten to the size rounded up to whole MCUs |
| NdpiImages.OneFrameExtended | opentile/formats/ndpi/ndpi_image.py:438-468 | the one-frame `_read_extended_frame` rejects positions other than (0, 0); it succeeds exactly when the source frame is read and the crop of `frame_size` from its corner gives at least one tile, and its result is the first such crop |
| NdpiImages.StripeReads | opentile/formats/ndpi/ndpi_image.py:622-625 | the stripes read for the region are the frames at the region's stripe numbers, in order |
| NdpiImages.CropToTiles | opentile/formats/ndpi/ndpi_image.py:348-375 | `_crop_to_tiles` crops once with the job's crop parameters; a `JpegCropError` becomes `ValueError`, and a result has at least as many crops as tiles |
| NdpiImages.CropToTilesDistinct | opentile/formats/ndpi/ndpi_image.py:375 | with tiles at distinct positions, the dictionary holds one crop per tile, in tile order |
| NdpiImages.JobResults | opentile/formats/ndpi/ndpi_image.py:300-304 | what creating each job gives, one result per group of tiles |
| NdpiImages.CreatedTilesLength | opentile/formats/ndpi/ndpi_image.py:329-346 | a job whose tiles are at distinct positions gives one tile per tile |
| NdpiImages.GroupsNonEmpty | opentile/formats/ndpi/ndpi_image.py:402-405 | every job of the grouping holds at least one tile |
| NdpiImages.JobsTilesStop | opentile/formats/ndpi/ndpi_image.py:300-304 | once a job fails, `get_tiles` fails with that job's error whatever follows |
| NdpiImages.JobsTilesLength | opentile/formats/ndpi/ndpi_image.py:300-304 | when each job gives one tile per tile, the tiles of the first n jobs number as many as their groups hold |
| NdpiImages.JobsMatchGroups | opentile/formats/ndpi/ndpi_image.py:300-304 | with tiles at distinct positions, every job that succeeds gives one tile per tile of its group |
| NdpiImages.MadeTilesDistinct | opentile/formats/ndpi/ndpi_image.py:394-401 | tiles made from distinct positions are at distinct positions |
| NdpiImages.GetTilesCount | opentile/formats/ndpi/ndpi_image.py:287-304 | `get_tiles` of distinct positions that succeeds returns exactly one tile per position |
| NdpiImages.GetTileOfTiles | opentile/formats/ndpi/ndpi_image.py:272-285 | `get_tile` succeeds exactly when `get_tiles` of that one position does: that list is never empty |
| NdpiImages.NdpiTiledImage.constructor | opentile/formats/ndpi/ndpi_image.py:206-235 | a new tiled image holds its level, its frames and the foreign read and crop, with no stored headers |
| NdpiImages.NdpiTiledImage.ReadExtendedFrame | opentile/formats/ndpi/ndpi_image.py:590-626 | `_read_extended_frame` returns the frame that the level's specification gives for the position and frame size, with or without the header cache; at most the header for this frame size is added |
| NdpiImages.NdpiTiledImage.ReadStripedFrame | opentile/formats/ndpi/ndpi_image.py:590-626 | the striped case: the header for the frame size, then the stripes of the region concatenated; at most that header is added to the cache |
| NdpiImages.NdpiTiledImage.StripeHeader | opentile/formats/ndpi/ndpi_image.py:607-612 | the header for a frame size is the stored header with that size, whether it was cached or not; a new one is stored, and a cached one or a failure leaves the cache as it was |
| NdpiImages.NdpiTiledImage.CreateTiles | opentile/formats/ndpi/ndpi_image.py:329-346 | `_create_tiles` gives the job's extended frame cropped into the job's tiles |
| NdpiImages.NdpiTiledImage.GetTiles | opentile/formats/ndpi/ndpi_image.py:287-304 | `get_tiles` gives what sorting the positions into jobs and creating each job's tiles, job after job, gives |
| NdpiImages.NdpiTiledImage.CreateJobsTiles | opentile/formats/ndpi/ndpi_image.py:300-304 | the comprehension over the jobs: the tiles of the jobs in order, or the first job's failure |
| NdpiImages.NdpiTiledImage.GetTile | opentile/formats/ndpi/ndpi_image.py:272-285 | `get_tile` is the first tile of `get_tiles` of the one position |
| PageTiler.BytesToBits | ndpi_tiler/interface.py:126-127 | `bitarray.frombytes` gives eight bits per byte |
| PageTiler.BoundOfBits | ndpi_tiler/interface.py:141 | eight bits have a value below 256, so each group of eight is one byte |
| PageTiler.BitsToBytes | ndpi_tiler/interface.py:141 | `tobytes` gives one byte per started group of eight bits |
| PageTiler.BytesBitsRoundTrip | ndpi_tiler/interface.py:126-141 | bytes turned into bits and back are the same bytes |
| PageTiler.BitsBytesRoundTrip | ndpi_tiler/interface.py:126-141 | a whole number of bytes' worth of bits turned into bytes and back are the same bits |
| PageTiler.Ones | ndpi_tiler/interface.py:138 | `bitarray(n * [1])` is n one bits |
| PageTiler.PadScan | ndpi_tiler/interface.py:136-138 | the padded scan starts with the scan, is followed only by 1 bits, and is the shortest whole number of bytes at least the scan (an empty scan gets no padding) |
| PageTiler.PadLength | ndpi_tiler/interface.py:137 | `7 - (n - 1) % 8`, with Python's remainder, is under eight and rounds n up to a multiple of eight |
| PageTiler.PadScanIdempotent | ndpi_tiler/interface.py:136-138 | padding a padded scan adds nothing |
| PageTiler.Stuffed | ndpi_tiler/interface.py:143-150 | the stuffed bytes are never shorter than the scan bytes |
| PageTiler.StuffedConcat | ndpi_tiler/interface.py:143-150 | stuffing works byte by byte: it distributes over concatenation |
| PageTiler.StuffedWithoutTag | ndpi_tiler/interface.py:143-150 | bytes without FF are left as they are |
| PageTiler.StuffingRoundTrip | ndpi_tiler/interface.py:143-150 | removing the stuffing, as the bit reader does, gives the scan bytes back |
| PageTiler.StuffedTagsFollowed | ndpi_tiler/interface.py:143-150 | in stuffed bytes every FF is followed by 00, so no marker appears inside the scan |
| PageTiler.StuffedLength | ndpi_tiler/interface.py:143-150 | stuffing adds exactly one byte per FF |
| PageTiler.TagSearch | ndpi_tiler/interface.py:147 | `find(b'\xff', start)` returns an FF at or after start with none before it there, or -1 when there is none from start on |
| PageTiler.StuffedRun | ndpi_tiler/interface.py:147-150 | a run without FF followed by one FF is stuffed as the run, FF, then 00 |
| PageTiler.StuffingStep | ndpi_tiler/interface.py:147-150 | one turn of the loop: the FF found is the next FF of the part not yet stuffed, and the search goes on from the inserted 00 |
| PageTiler.RestHasNoTag | ndpi_tiler/interface.py:146-148 | when `find` returns -1, the part not yet stuffed holds no FF |
| PageTiler.StuffingDone | ndpi_tiler/interface.py:146-150 | when the loop stops, the bytes are the stuffed scan |
| PageTiler.InsertStuffing | ndpi_tiler/interface.py:143-150 | the stuffing loop of `get_tile` returns the scan bytes with a 00 inserted after every FF |
| PageTiler.Trunc | ndpi_tiler/interface.py:81-82 | `int(v)` of a float truncates toward zero |
| PageTiler.StripeStart | ndpi_tiler/interface.py:65-70 | the start of a tile's stripe range is the exact quotient of the tile's pixel offset by the stripe size, never negative for a non-negative offset |
| PageTiler.NonNegativeStart | ndpi_tiler/interface.py:65-70 | a tile at a non-negative position starts at a non-negative stripe |
| PageTiler.StripeEnd | ndpi_tiler/interface.py:66-74 | the end of a tile's stripe range is at least one past its start |
| PageTiler.StripeRow | ndpi_tiler/interface.py:79-83 | one row of the stripe list: `x + y * cols` for x from the start to the end column, in order |
| PageTiler.StripeIndices | ndpi_tiler/interface.py:79-83 | the stripe list has one entry per column and row of the range |
| PageTiler.StripeIndicesRowMajor | ndpi_tiler/interface.py:79-83 | the stripe list is row-major: entry `j * width + i` is stripe `xs + i + (ys + j) * cols` |
| PageTiler.RowMajorDistinct | ndpi_tiler/interface.py:80 | two row-major positions with columns inside the grid are equal only with equal column and row |
| PageTiler.Euclid | ndpi_tiler/interface.py:103-107 | the column and row of a stripe are the remainder and quotient by the number of columns |
| PageTiler.QuotientBelow | ndpi_tiler/interface.py:79-83 | a position below `w * rows` lies in one of the first `rows` rows |
| PageTiler.StripeAtPosition | ndpi_tiler/interface.py:79-83 | each position of the stripe list is some row j and column i of the range |
| PageTiler.StripeIndicesDistinct | ndpi_tiler/interface.py:79-83 | when a tile's stripe columns fit in the grid, no stripe is read twice for one tile |
| PageTiler.FirstSegmentAtStripeCorner | ndpi_tiler/interface.py:101-109 | the first segment of the stripe in column x, row y is stored at that stripe's pixel corner |
| PageTiler.FillStripe | ndpi_tiler/interface.py:101-109 | storing a stripe's segments adds exactly one key per segment at its pixel position; with no stripe columns a stripe with segments raises `ZeroDivisionError` |
| PageTiler.FillStripeStep | ndpi_tiler/interface.py:101-109 | one more segment of the inner loop is stored at its own key |
| PageTiler.Filled | ndpi_tiler/interface.py:78-109 | the refilled cache holds exactly the keys of every segment of every stripe read; with stripe columns it always succeeds |
| PageTiler.FilledStep | ndpi_tiler/interface.py:94-109 | one more stripe of the outer loop continues from the cache the earlier stripes left |
| PageTiler.Progression | ndpi_tiler/interface.py:114-123 | a progression from `start + step` preceded by `start` is a progression from `start` |
| PageTiler.RangeStep | ndpi_tiler/interface.py:114-123 | `range(start, stop, step)` is the progression from start by step that stays before stop; a zero step raises `ValueError` |
| PageTiler.RowBits | ndpi_tiler/interface.py:119-134 | a row of segments fails only with `KeyError` |
| PageTiler.RowBitsOk | ndpi_tiler/interface.py:119-134 | a row is read exactly when every one of its positions is in the cache |
| PageTiler.RowBitsMissing | ndpi_tiler/interface.py:125 | a position missing from the cache makes its row raise `KeyError` |
| PageTiler.RowsBits | ndpi_tiler/interface.py:114-134 | the rows of segments fail only with `KeyError` |
| PageTiler.RowsBitsOkRows | ndpi_tiler/interface.py:114-134 | the rows are read exactly when every row is |
| PageTiler.RowsBitsOk | ndpi_tiler/interface.py:114-134 | the scan is assembled exactly when every position of every row is in the cache |
| PageTiler.RowsBitsMissing | ndpi_tiler/interface.py:114-134 | a row that raises makes the whole scan raise `KeyError` |
| PageTiler.RowBitsStep | ndpi_tiler/interface.py:125-134 | one more segment appends its bits from start to end to the row so far |
| PageTiler.RowsBitsStep | ndpi_tiler/interface.py:114-134 | one more row appends its bits to the rows so far |
| PageTiler.ScanBytesReadBack | ndpi_tiler/interface.py:136-150 | the tile bytes, with their stuffing removed and read as bits, are the scan followed by fewer than eight 1 bits |
| PageTiler.TileBytes | ndpi_tiler/interface.py:111-150 | making the tile bytes from the cache fails only with `ValueError` (a zero range step) or `KeyError` (a missing segment) |
| PageTiler.FilledFails | ndpi_tiler/interface.py:101-109 | with no stripe columns, any stripe with segments makes the refill fail |
| PageTiler.FilledHoldsFirst | ndpi_tiler/interface.py:94-109 | the first segment of the first stripe read is in the refilled cache |
| PageTiler.FilledHoldsCorner | ndpi_tiler/interface.py:94-109 | that first segment sits at the pixel corner of the first stripe |
| PageTiler.StripeRangeNonEmpty | ndpi_tiler/interface.py:66-82 | a stripe range whose end is at least one past a non-negative start holds at least one stripe |
| PageTiler.RefilledTileIsCached | ndpi_tiler/interface.py:77-109 | with the cache check corrected to pixel positions, a tile whose stripes were just read finds its first stripe in the cache |
| PageTiler.CacheMissesTileJustRead | ndpi_tiler/interface.py:77 | with the check as written, stripe coordinates such as (1.0, 0.0) are looked up among pixel keys such as (8, 0), so a tile whose stripes were just read is not found |
| PageTiler.NdpiPageTiler.constructor | ndpi_tiler/interface.py:11-42 | a new tiler holds the layout and an empty segment cache |
| PageTiler.NdpiPageTiler.Refill | ndpi_tiler/interface.py:78-109 | the refill empties the cache and then holds exactly what `Filled` gives; when a stripe raises, the cache stays empty |
| PageTiler.NdpiPageTiler.AppendRow | ndpi_tiler/interface.py:119-134 | the inner scan loop appends the row's bits to the scan, or raises `KeyError` exactly when a segment is missing |
| PageTiler.NdpiPageTiler.AssembleScan | ndpi_tiler/interface.py:111-134 | the scan loops give exactly the scan that the cache holds for the tile |
| PageTiler.NdpiPageTiler.GetTile | ndpi_tiler/interface.py:44-150 | `get_tile` raises `ZeroDivisionError` for a zero stripe size and leaves the cache; a cached first stripe keeps the cache; otherwise the cache is refilled; the result is the tile bytes of the resulting cache |
| Philips.FirstStoredFrom | opentile/formats/philips/philips_tiff_image.py:101-109 | the index found is the first one at or after the start whose byte count is non-zero; None means every byte count from the start on is zero |
| Philips.FirstStoredFrame | opentile/formats/philips/philips_tiff_image.py:101-109 | None exactly when every frame has byte count zero; otherwise the first frame with a non-zero byte count; also opentile/philips_tiff_tiler.py:96-104 |
| Philips.WithTables | opentile/formats/philips/philips_tiff_image.py:111-112 | without tables the frame is unchanged; with tables the tile grows by exactly the table body inserted |
| Philips.CreateBlankTile | opentile/formats/philips/philips_tiff_image.py:84-114 | a page with no stored frame fails with ValueError; otherwise the blank tile is the fill of the first stored frame with the page's tables added, and fails only when that frame has no data offset; also opentile/philips_tiff_tiler.py:79-109 |
| Philips.IsSparse | opentile/formats/philips/philips_tiff_image.py:132-137 | an index past the end is sparse, an index inside is sparse exactly when its byte count is zero, a negative index counts from the end, and one below minus the length is an IndexError |
| Philips.NewPhilipsTiledPage | opentile/formats/philips/philips_tiff_image.py:51-58 | the image is built exactly when its blank tile can be made, keeps the page and the blank tile, and otherwise fails with the blank tile's error; also opentile/philips_tiff_tiler.py:27-56 |
| Philips.NewPhilipsTiffImage | opentile/tiff_image.py:135-139 | a page that is not JPEG-compressed is refused with NotImplementedError; a JPEG page gives the image built with its blank tile; also opentile/formats/philips/philips_tiff_image.py:70-72 |
| Philips.ReadSparseFrame | opentile/formats/philips/philips_tiff_image.py:116-139 | a sparse frame reads as the blank tile, a stored frame reads its own bytes, and an index below minus the length is an IndexError; also opentile/philips_tiff_tiler.py:111-133 |
| Philips.SparseTile | opentile/tiff_image.py:417-437 | a tile on a sparse frame is the blank tile with the page's tables added; a tile on a stored frame is the native tile |
| Philips.SparseTilesAsWritten | opentile/tiff_image.py:439-466 | the batch read, when it succeeds, gives one tile per position, each equal to the native tile read without the sparse-frame check |
| Philips.BatchReadMissesSparseTile | opentile/tiff_image.py:380-386 | on a two-tile page whose second frame is missing, the tile read alone is the blank tile but the batch read of the same position fails with IndexError |
| Philips.BatchOfMissingFrame | opentile/tiff_image.py:380-386 | a batch read of a frame index past the page's offsets fails with IndexError |
| Philips.SparseTiles | opentile/tiff_image.py:439-466 | the corrected batch read gives one tile per position, each equal to the tile read alone, and fails exactly when one of those single reads fails |
| Philips.OneByOneSucceeds | opentile/tiff_image.py:439-466 | reading tiles one by one succeeds whenever every single read succeeds |
| Philips.BatchAgreesOffSparseTiles | opentile/tiff_image.py:439-466 | when no requested tile lies on a sparse frame, the batch read as written and the corrected batch read give the same result |
| Philips.PhillipsAddJpegTables | opentile/phillips_tiff_tiler.py:100-110 | the frame grows by exactly the table body inserted before its start-of-scan marker |
| Philips.PhillipsTablesAreAddJpegTables | opentile/phillips_tiff_tiler.py:100-110 | the first generation's table insertion gives the same bytes as the shared JPEG helper, and tables of at least four bytes add all but their start and end markers |
| Philips.FirstBlankTile | opentile/phillips_tiff_tiler.py:74-87 | no stored frame gives ValueError; a page without tables gives TypeError; otherwise the blank tile is the fill of the first stored frame with the tables inserted |
| Philips.FirstGenerationAgrees | opentile/phillips_tiff_tiler.py:89-98 | for a page with tables, a frame read by the first generation equals the frame read by the newer image with its blank tile |
| Philips.FirstBlankTileIsCreateBlankTile | opentile/phillips_tiff_tiler.py:74-87 | for a page with tables, the first generation's blank tile equals the newer generation's |
| Philips.PhillipsTiledPage.constructor | opentile/phillips_tiff_tiler.py:17-48 | a new page keeps its page, reader and fill and has no blank tile computed yet |
| Philips.PhillipsTiledPage.GetBlankTile | opentile/phillips_tiff_tiler.py:73-87 | returns the first generation's blank tile, computes it at most once, and keeps it once it has been computed |
| Philips.PhillipsTiledPage.ReadFrame | opentile/phillips_tiff_tiler.py:89-98 | returns the first generation's frame read, and only a sparse frame may compute the cached blank tile |
| Philips.FirstPage | opentile/philips_tiff_tiler.py:200-204 | a series has a first page exactly when it has a first level holding a page; otherwise IndexError |
| Philips.IsLabel | opentile/philips_tiff_tiler.py:207-211 | a series is a label exactly when its first page's description contains "Label" |
| Philips.IsOverview | opentile/philips_tiff_tiler.py:200-204 | a series is an overview exactly when its first page's description contains "Macro" |
| Philips.KindOf | opentile/philips_tiff_tiler.py:158-162 | a series is a label when "Label" is in its description, otherwise an overview when "Macro" is, and fails with IndexError when it has no first page |
| Philips.ClassificationFails | opentile/philips_tiff_tiler.py:157-162 | the scan over the series fails exactly when some series has no first page, and then with IndexError |
| Philips.ClassificationKeepsLast | opentile/philips_tiff_tiler.py:157-162 | the recorded index of a kind is absent exactly when no series is of that kind, and otherwise is the last series of that kind |
| Philips.ClassificationStep | opentile/philips_tiff_tiler.py:157-162 | adding one series to the scan records it when it is of the kind and otherwise keeps what the shorter scan recorded |
| Philips.ClassificationIsLast | opentile/philips_tiff_tiler.py:157-162 | the label and overview indices are the last label and the last overview series, absent when there is none; also opentile/phillips_tiff_tiler.py:130-136 and opentile/philips/philips_tiff_tiler.py:52-57 |
| Philips.ClassificationStops | opentile/philips_tiff_tiler.py:157-162 | once a prefix of the series fails, the whole scan fails with IndexError |
| Philips.PageOf | opentile/tiler.py:208-213 | a series, level and page inside the file give that page; any index outside gives IndexError |
| Philips.CreatePhilipsPage | opentile/philips_tiff_tiler.py:182-197 | a page that does not exist gives IndexError; otherwise the image of that page with its blank tile |
| Philips.PhilipsTiffTiler.constructor | opentile/philips_tiff_tiler.py:137-167 | a new tiler holds the series classification given and an empty page cache |
| Philips.PhilipsTiffTiler.GetPage | opentile/philips_tiff_tiler.py:182-197 | returns the image of the requested page, serves a cached page unchanged, and caches every page it builds |
| Philips.NewPhilipsTiffTiler | opentile/philips_tiff_tiler.py:137-167 | the tiler is built exactly when every series has a first page, holds the series' classification and starts with an empty page cache |
| Philips.CastAll | opentile/philips_tiff_tiler.py:229-232 | casting succeeds exactly when every word casts, and then gives one value per word, in order |
| Philips.SplitAndCast | opentile/philips_tiff_tiler.py:229-232 | the text, with double quotes removed and split on whitespace, gives one cast value per word, and fails exactly when some word fails to cast |
| Ome.PixelSpacing | opentile/ome_tiff.py:51-56 | a page without a resolution has no pixel spacing; otherwise the spacing is the resolution divided by one thousand in each axis |
| Ome.OmeOneFramePage.FrameSizeForTile | opentile/ome_tiff.py:129-139 | the frame read for a one-frame page is a whole number of tiles, strictly larger than the image and at most one tile larger in each axis; a zero tile size is an error |
| Ome.OmeOneFramePage.ReadExtendedFrame | opentile/ome_tiff.py:141-175 | only position (0, 0) is read; with frame 0 read and a known subsampling it succeeds whenever the header rewrite (if needed) and the crop succeed with at least one tile; the single frame is cropped to the requested size, after its header is first widened to whole MCUs when the image is not a whole number of MCUs; an unknown subsampling is a ValueError; also opentile/ome_tiff.py:108-116 |
| Ome.FrameSizeAsNdpiForLargeImages | opentile/ome_tiff.py:129-139 | for an image at least one tile in each axis, the OME one-frame page reads the same frame size as the NDPI one-frame level; also opentile/ndpi_tiler.py:696-706 |
| Ome.FrameSizeBelowOneTile | opentile/ome_tiff.py:129-139 | for an image smaller than one tile the OME page and the NDPI level read different frame sizes; also opentile/ndpi_tiler.py:696-706 |
| Ome.SeriesKinds | opentile/ome_tiff.py:244-254 | a series is a label exactly when its name without surrounding whitespace is "label", an overview exactly when it is "macro", and a level otherwise |
| Ome.LabelNamePadded | opentile/ome_tiff.py:250-251 | whitespace around the name "label" does not stop a series being a label |
| Ome.LabelNameCaseSensitive | opentile/ome_tiff.py:250-251 | the name "Label" with a capital does not make a label series, so that series counts as a level |
| Ome.OptionalMpp | opentile/ome_tiff.py:262-277 | an unknown series is an IndexError, a size not in micrometres is a NotImplementedError, a missing physical size gives no resolution, and otherwise the resolution is the physical size |
| Ome.Mpp | opentile/ome_tiff.py:256-260 | the resolution is the optional one when present, a missing one is a ValueError, and the optional lookup's errors pass through |
| Ome.OmePageOf | opentile/tiler.py:208-213 | a series, level and page inside the file give that page; any index outside gives IndexError |
| Ome.CreateOmePage | opentile/ome_tiff.py:279-311 | a tiled page becomes a tiled image, an untiled page of the level series a one-frame image with the base tile size, and any other untiled page a plain image with its optional resolution |
| Ome.OmeTiffTiler.constructor | opentile/ome_tiff.py:229-239 | a new tiler holds the series, the resolution of the level series as its base resolution and an empty page cache |
| Ome.OmeTiffTiler.GetPage | opentile/ome_tiff.py:279-311 | returns the image of the requested page, serves a cached page unchanged, and caches every page it builds |
| Ome.NewOmeTiffTiler | opentile/ome_tiff.py:229-239 | the tiler is built exactly when the level series has a resolution in micrometres, fails with that lookup's error otherwise, and starts with an empty page cache |
| Svs.EdgesExcludeCorner | opentile/svs_tiler.py:265-279 | the right edge holds exactly the last column above the last row, the bottom edge exactly the last row left of the last column, and neither holds the corner tile |
| Svs.RightEdgeTiles | opentile/svs_tiler.py:265-269 | the right edge has one tile per row but the last, listed top to bottom |
| Svs.BottomEdgeTiles | opentile/svs_tiler.py:273-277 | the bottom edge has one tile per column but the last, listed left to right |
| Svs.EdgeScanIsAnyZero | opentile/svs_tiler.py:236-253 | scanning an edge reports corrupt exactly when some tile on it has a frame of zero bytes |
| Svs.DetectCorruptEdge | opentile/svs_tiler.py:236-253 | the loop over the edge's tiles, stopping at the first zero-length frame, returns the edge scan's verdict, including an IndexError for a tile past the byte counts; also opentile/formats/svs/svs_image.py:258-275 |
| Svs.RightEdgeScan | opentile/svs_tiler.py:265-269 | on a full page the right edge is corrupt exactly when some tile of the last column, above the last row, has a zero-length frame |
| Svs.BottomEdgeScan | opentile/svs_tiler.py:271-277 | on a full page the bottom edge is corrupt exactly when some tile of the last row, left of the last column, has a zero-length frame |
| Svs.ScanEdgesFindsZeroTiles | opentile/svs_tiler.py:255-281 | on a full page the pair of verdicts is the right-edge and the bottom-edge zero-length test |
| Svs.CorruptEdgesOfPage | opentile/svs_tiler.py:255-281 | the base level is never scanned and reports no corrupt edge; every other level reports its edge scan |
| Svs.CorruptEdgesOfImage | opentile/formats/svs/svs_image.py:277-301 | a level without a parent reports no corrupt edge; a level with a parent reports its edge scan |
| Svs.Scale | opentile/svs_tiler.py:310-311 | the scale to the parent is at least one when the parent is the finer level, and zero, giving no tiles, when it is not |
| Svs.ParentTiles | opentile/svs_tiler.py:311-317 | a tile is built from scale by scale tiles of the parent level |
| Svs.ParentTilesAreTheBlock | opentile/svs_tiler.py:311-317 | a parent tile is requested exactly when it falls, after division by the scale, on the tile being built |
| Svs.ParentTileInBlock | opentile/svs_tiler.py:311-317 | every requested parent tile divides down to the tile being built |
| Svs.BlockTileRequested | opentile/svs_tiler.py:311-317 | every parent tile that divides down to the tile being built is requested |
| Svs.ScaledTile | opentile/svs_tiler.py:291-356 | a level without a parent fails with ValueError; otherwise the tile is the downscaling of the block of parent tiles it covers |
| Svs.PageTile | opentile/svs_tiler.py:377-406 | a tile on a corrupt edge is rebuilt from the parent; any other tile is the native tile, with the colour space fix added for a JPEG level |
| Svs.ImageTile | opentile/formats/svs/svs_image.py:400-405 | a tile on a corrupt edge is rebuilt from the parent; any other tile is the native tile unchanged |
| Svs.SvsTiledLevel.constructor | opentile/svs_tiler.py:178-211 | a new level keeps its description and reader and has no fixed tile stored |
| Svs.SvsTiledLevel.GetFixedTile | opentile/svs_tiler.py:358-375 | returns the tile rebuilt from the parent, and a tile already stored is returned without rebuilding it |
| Svs.SvsTiledLevel.GetPageTile | opentile/svs_tiler.py:377-406 | returns the page tile of the position while keeping the store of fixed tiles consistent |
| Svs.SvsTiledLevel.GetImageTile | opentile/formats/svs/svs_image.py:400-405 | returns the image tile of the position while keeping the store of fixed tiles consistent |
| Svs.SvsTiledLevel.GetImageTiles | opentile/formats/svs/svs_image.py:407-413 | returns the tiles of all positions read one by one, failing at the first tile that fails |
| Svs.SvsTiledLevel.NativeAgreesOffEdges | opentile/formats/svs/svs_image.py:407-413 | when no requested tile is on a corrupt edge, the native batch and the tiles read one by one agree |
| Svs.StripedPageTile | opentile/svs_tiler.py:57-80 | only position (0, 0) exists; its tile is every stripe of the page concatenated into one frame, with the colour space fix |
| Svs.StripedImageTile | opentile/formats/svs/svs_image.py:61-70 | only position (0, 0) exists; its tile is every stripe concatenated into one frame, with the colour space fix when the image asks for it |
| Svs.AllScans | opentile/svs_tiler.py:72-73 | one scan per data offset, each the frame stored at that index |
| Svs.LzwDecodedTile | opentile/svs_tiler.py:146-166 | only position (0, 0) exists; its tile is the page's rows decoded and joined |
| Svs.NewSvsSeries | opentile/svs_tiler.py:410-446 | the level, label and overview series are the last series named "Baseline", "Label" and "Macro", the level series being the first one when none is named "Baseline" |
| Svs.CreateSvsPageShape | opentile/svs_tiler.py:455-503 | the overview series, checked first, gives the striped page of the requested page (or its lookup error), then the label series the row-decoded page likewise, the level series tiled levels whose parent is the level above at the same page, and any other series NotImplementedError |
| Svs.SvsTiler.constructor | opentile/svs_tiler.py:410-446 | a new tiler keeps the series classification and has no page cached |
| Svs.SvsTiler.GetPage | opentile/svs_tiler.py:475-503 | returns the page built for the key, never changes a cached page, caches what it builds, and caches the parent of a tiled level too |
| TileGrid.TiledSize | opentile/common.py:165-170 | the tile size (0, 0) gives a one-tile grid; otherwise the grid is the fewest tiles covering the image in each axis, and a single zero component is a ZeroDivisionError; also opentile/tiff_image.py:231-237 |
| TileGrid.UntiledPageIsOneTile | opentile/common.py:104-110 | a page that is not tiled, whose tile size is its image size, is a grid of one tile |
| TileGrid.TiledRegionFirst | opentile/common.py:111-114 | the first generation's tiled region starts at (0, 0) and is one tile short of the grid in each axis |
| TileGrid.TiledRegion | opentile/tiff_image.py:148 | the newer tiled region starts at (0, 0) and covers the whole grid |
| TileGrid.FrameIndexOnGrid | opentile/common.py:383-389 | a position on the grid has a frame index inside the page, from which the column and row are recovered |
| TileGrid.FrameIndexInjective | opentile/tiff_image.py:496-499 | two positions on the grid with the same frame index are the same position |
| TileGrid.RegionWalkIsFrameOrder | opentile/tiff_image.py:308-325 | walking the tiled region row by row visits frames 0, 1, 2 and so on, so reading all tiles raw or processed visits the same frames |
| TileGrid.ReadFrame | opentile/tiff_image.py:363-378 | a frame is read exactly when its index, counted from the end when negative, is inside both the offsets and the byte counts, and then is the bytes at that offset and count; otherwise IndexError; also opentile/common.py:280-296 |
| TileGrid.ReadFrames | opentile/tiff_image.py:380-386 | the batch read succeeds exactly when every index can be read alone, and then gives one frame per index, each the frame read alone |
| TileGrid.AllFramesRaw | opentile/tiff_image.py:322-323 | the raw read of all tiles gives one frame per grid cell, frame i being the frame at index i |
| TileGrid.NativeTile | opentile/tiff_image.py:417-437 | a tile is the frame at its row-major index, with the page's tables added when it has them, and fails exactly when that frame cannot be read; also opentile/common.py:330-351 |
| TileGrid.TilesOneByOne | opentile/common.py:216-234 | reading positions one by one gives one tile per position, each the tile read alone, or the error of a position whose read fails; also opentile/tiff_image.py:276-289 |
| TileGrid.TilesOneByOneAgree | opentile/common.py:216-234 | two ways of reading a tile that agree on every requested position give the same result for the whole request |
| TileGrid.TilesOneByOneStop | opentile/common.py:216-234 | when every position before i reads and position i fails, the whole request fails with that error |
| TileGrid.BatchIsOneByOne | opentile/tiff_image.py:439-466 | the batch read of native tiles gives exactly what reading the positions one by one gives |
| TileGrid.DecodedNativeTile | opentile/tiff_image.py:468-494 | a position off the grid decodes to a white tile of the tile size without reading; a position on it decodes its native tile and fails exactly when that tile fails; also opentile/common.py:353-381 |
| TileGrid.CheckCompression | opentile/tiff_image.py:135-139 | a page is accepted exactly when no list of supported compressions is given or its compression is in the list; otherwise NotImplementedError |
| TileGrid.AssociatedKey | opentile/common.py:526-565 | without a label or overview series the request fails with ValueError; otherwise it asks for the given page of level 0 of that series |
| TileGrid.SingleFrameTile | opentile/ome_tiff.py:62-65 | only position (0, 0) exists and it is frame 0 as stored; any other position is a ValueError; also opentile/formats/ome/ome_tiff_image.py:57-60 and opentile/formats/ndpi/ndpi_image.py:89-104 |
| TileGrid.LastNamed | opentile/svs_tiler.py:427-433 | the index found is that of a series with the name and no later series has it; None means no series has it |
| Grouping.Keys | opentile/formats/ndpi/ndpi_image.py:392-406 | the frame positions that become dictionary keys are distinct, in the order they first appear |
| Grouping.KeysCover | opentile/formats/ndpi/ndpi_image.py:401-405 | the frame position of every requested tile is one of the keys |
| Grouping.KeysOccur | opentile/formats/ndpi/ndpi_image.py:401-405 | every key is the frame position of some requested tile |
| Grouping.Group | opentile/formats/ndpi/ndpi_image.py:401-403 | a frame job never holds more tiles than were requested |
| Grouping.GroupMembers | opentile/formats/ndpi/ndpi_image.py:401-403 | a frame job holds only requested tiles with its own frame position |
| Grouping.Groups | opentile/formats/ndpi/ndpi_image.py:392-406 | there is one job per distinct frame position, in order of first appearance, each holding that position's tiles |
| Grouping.GroupOfAbsentKey | opentile/formats/ndpi/ndpi_image.py:401-405 | a frame position no tile has collects no tile |
| Grouping.GroupOfPresentKey | opentile/formats/ndpi/ndpi_image.py:404-405 | a frame position some tile has collects at least one tile, so no frame job is empty |
| Grouping.GroupsSnocKnown | opentile/formats/ndpi/ndpi_image.py:401-403 | a tile whose frame position is already a key is appended to that job and leaves the others unchanged |
| Grouping.GroupsSnocNew | opentile/formats/ndpi/ndpi_image.py:404-405 | a tile with a new frame position starts a new job, placed last, holding only that tile |
| Grouping.GroupsPartition | opentile/formats/ndpi/ndpi_image.py:392-406 | the frame jobs together hold exactly the requested tiles, none lost and none added |
| Grouping.GroupDistinct | opentile/formats/ndpi/ndpi_image.py:392-406 | when no tile is requested twice, no frame job holds a tile twice |
| Grouping.GroupKeysDistinct | opentile/formats/ndpi/ndpi_image.py:392-406 | when no two requested tiles share a position, no two tiles of one frame job do |
| Grouping.Values | opentile/formats/ndpi/ndpi_image.py:406 | the list of jobs holds the dictionary's values, one per entry, in insertion order |
| Grouping.DictOfKeys | opentile/formats/ndpi/ndpi_image.py:375 | the dictionary built from the cropped tiles has one entry per distinct tile position, in order of first appearance |
| Grouping.DictOfLastValue | opentile/formats/ndpi/ndpi_image.py:375 | a tile position given twice keeps the value of its last occurrence |
| Grouping.KeysOfDistinct | opentile/formats/ndpi/ndpi_image.py:375 | when no two items share a key, the keys are the items' keys in order |
| Grouping.DictOfDistinct | opentile/formats/ndpi/ndpi_image.py:375 | when the tile positions are distinct, the dictionary holds every cropped tile in order |
| PyText.LeadingSpaces | opentile/ome_tiff.py:250-254 | the count covers only whitespace at the start of the name and stops at the first other character |
| PyText.TrailingSpaces | opentile/ome_tiff.py:250-254 | the count covers only whitespace at the end of the name and stops at the last other character |
| PyText.Strip | opentile/ome_tiff.py:250-254 | the stripped name neither starts nor ends with whitespace, is a contiguous part of the name, and everything of the name outside it is whitespace |
| PyText.StripPadded | opentile/ome_tiff.py:250-254 | a name padded with whitespace on both sides strips back to the name |
| PyText.WordLength | opentile/philips_tiff_tiler.py:229-232 | the first word runs to the first whitespace character or to the end |
| PyText.WithoutQuotes | opentile/philips_tiff_tiler.py:229-232 | removing double quotes leaves none and never lengthens the text |
| PyText.WithoutQuotesKeepsOthers | opentile/philips_tiff_tiler.py:229-232 | removing double quotes keeps every other character as often as it occurred |
| PyText.WordsKeepTheText | opentile/philips_tiff_tiler.py:229-232 | splitting on whitespace gives non-empty words free of whitespace which, one after the other, are all the non-space characters of the text |
| PyText.NonSpaceOfWord | opentile/philips_tiff_tiler.py:229-232 | a leading run of non-space characters is kept whole by the split |
| PyText.SplitJoinRoundTrip | opentile/philips_tiff_tiler.py:229-232 | words joined with single spaces split back into the same words |
| PyText.WordThenRest | opentile/philips_tiff_tiler.py:229-232 | a word followed by nothing or by whitespace splits as that word followed by the split of the rest |
| PyText.WordLengthOfWord | opentile/philips_tiff_tiler.py:229-232 | the first word of a word followed by whitespace or nothing is that whole word |
| Geometry.CeilDivInt | open_tiler/svs_tiler.py:33-36 | the rounded-up quotient is the smallest integer whose multiple of the divisor reaches the dividend |
| OpenTilerSvs.TiledSize | open_tiler/svs_tiler.py:32-38 | the tile size (0, 0) gives one tile; a positive tile size gives the fewest tiles covering the level in each axis; exactly one zero component is a ZeroDivisionError |
| OpenTilerSvs.NewTiledLevel | open_tiler/svs_tiler.py:13-38 | a zero level height divides by zero, a non-positive height ratio is outside the logarithm's domain, a level with no page is an IndexError, and otherwise the level takes its first page's tile and image sizes and their tiled size |
| OpenTilerSvs.TileIndexInGrid | open_tiler/svs_tiler.py:69 | a tile inside the grid has an index inside the grid's range |
| OpenTilerSvs.TileIndexInverse | open_tiler/svs_tiler.py:69 | the row of the tile is the index divided by the grid width and its column the remainder |
| OpenTilerSvs.TileIndexInjective | open_tiler/svs_tiler.py:69 | distinct tiles inside the grid read distinct entries of the offsets |
| OpenTilerSvs.SpliceTile | open_tiler/svs_tiler.py:73-80 | the tile is the tables without their last two bytes, then the sixteen-byte Adobe APP14 segment, then the data without its first two bytes, so it is twelve bytes longer than tables and data together |
| OpenTilerSvs.SpliceTileRestores | open_tiler/svs_tiler.py:73-80 | taking the APP14 segment out and putting the end-of-image and start-of-image markers back gives the tables followed by the stored data |
| OpenTilerSvs.GetTile | open_tiler/svs_tiler.py:64-80 | a tile is read exactly when its index, counted from the end when negative, is inside both the offsets and the byte counts; otherwise IndexError |
| OpenTilerSvs.GetTileReadsOwnEntry | open_tiler/svs_tiler.py:67-80 | a tile inside a fully stored grid is the splice of the tables with the bytes stored at that tile's own offset and count |

## Left out

- File access: `LockableFileHandle`, `OpenTileFile`, seeking, reading, locking and the concurrency they guard. A read is the parameter `read(offset, count)`, or a function from a frame index to its bytes.
- libjpeg-turbo calls: `crop_multiple`, `fill_image`/`fill_frame`, `decode`, `encode`, `decode_header`, `tjTransform` and `get_mcu`. They are parameters. The coefficient callbacks they run are modelled.
- Pixel work in `_get_scaled_tile`: numpy mosaics, the Pillow resize and the JPEG/JPEG 2000 encoders are the parameter `downscale`. The decoded LZW rows of the early SVS tiler are the parameter `decodeRows`. Only the scale and region arithmetic is modelled.
- Floating point: mpp and pixel spacing values, `_calculate_pyramidal_index`, `__map_luminance_to_dc_dct_coefficient` and `NdpiCroppedImage._calculate_crop`. The `round(log2(...))` of `_adjust_tile_size` is replaced by the integer nearest-exponent computation `NdpiTilers.NearestExponent`.
- Metadata and format detection: XML and ome_types parsing, description and datetime parsing, `_read_properties`, `_get_associated_mpp_from_page`, opentile.py, interface.py, and the tilers of formats that are not part of this model.
- `OpenTilerSvs`: `SvsTiler._get_level_from_series` is not modelled, because the base mpp it compares with is a float taken from metadata.
- The DICOM importer of the prototype, the settings holder, the search for the libjpeg-turbo library, debug `print` calls, `close()` and `__repr__`. None of them changes a value the model computes.
- The code returned by `HuffmanNode.insert` in ndpi_tiler/jpeg.py (`code * 2 + index`) is not carried: its callers only compare it with `None`. The code returned by the insert of ndpi_tiler/huffman.py is modelled.
- The `Stream` of ndpi_tiler/jpeg.py is the sequence of entropy-coded bits after unstuffing, with a position in it. Its byte-level `_read_byte` tag check is not modelled; the byte-level unstuffing is modelled in `BitStream`.
- The MCU loops of `JpegScan` (`_get_mcus`, `_read_mcu_position_and_amplitude`, `_read_mcu_block`) are not modelled. Their steps, the DC read and `_read_ac_amplitudes`, are.
- `JpegBuffer.read_variable_length` of ndpi_tiler/stream.py calls the table's `decode` with two arguments, which the table's `decode` does not take, so it always raises `TypeError`; it is not modelled.
- `JpegHeader.wrap_scan` and `get_segments`, used by ndpi_tiler/interface.py, are not defined in the files this model covers. The segments of a stripe are the parameter `stripeSegments`.
- opentile/geometry.py is not part of this model. `geometry.dfy` restates the componentwise `Point`, `Size` and `Region` arithmetic the core relies on.
- Update in place of a `bytearray` (`_manipulate_header`, the table splices, `remove_stuffing`, the stuffing insertion of the page tiler): the model works on `seq<byte>` values that its methods reassign, so aliasing of a buffer is not captured. Each such buffer is local to the function that fills it. Only the coefficient buffers handed to the callbacks are arrays.
- Coefficients.NeedFillExamples: the background check is stated for integer luminance values only; the float mapping from luminance to a DC coefficient is left out as above.
- JpegConcat.CheckFragment: leaves out the second half of the fragment check, `fragment[-1] != b"0"`. It compares an int with bytes, so it always holds.
- PageTiler.NdpiPageTiler.GetTile: uses the pixel-keyed cache check, not the check of ndpi_tiler/interface.py:77 as written (see Findings).
- BitStream.JpegBuffer.constructor: requires data that is not empty once unstuffed. The empty case, which raises `IndexError`, is `BitStream.JpegBuffer.Open`.
- PageTiler.StripeStart, Geometry.CeilDivInt: the source divides with Python floats (`t * tile / stripe`, `math.ceil(a / b)`); the model divides exactly, as a `real` and as an integer ceiling. The two agree while the operands stay below 2^53, beyond which a float quotient can round.
- The DCT coefficient buffers are `int16` in the source (`c_short`, `np.int16`); the model's arrays hold unbounded `int`, so a DC value out of the 16-bit range does not wrap.
- OpenTilerSvs.GetTile: the page's `jpegtables` is typed `bytes` in the model, so the `TypeError` of `None[:-2]` on a page without tables cannot arise.
- Svs.SvsTiledLevel.GetImageTiles: returns the whole list at once; the laziness of the source's generator, which reads a tile only when the caller asks for it, is not modelled.

## Findings

| source | as written | input that shows it | evidently intended | confidence | as-written member | corrected member |
|---|---|---|---|---|---|---|
| opentile/turbojpeg_patch.py:311 | after a DQT table that is not the wanted one, the offset advances by the table offset plus the whole new offset again, so it counts the offset twice | three DQT segments `FF DB 00 03 10`, `FF DB 00 03 20`, `FF DB 00 03 00` and the DC element `05`, searching for table 0: as written the search gives `None` and `__get_dc_dqt_element` raises `ValueError` | the search moves just past the table it looked at, finds table 0 at byte 10, and the DC element read is 5 | high; not executed | Dqt.DcElementOfSkippedTable | Dqt.DcDqtElement |
| ndpi_tiler/jpeg.py:205-211 | `read_bits` does `value += 2 * value + bit`, which triples the value before adding the bit | the bits 1, 1 read as 4 and 1, 0 read as 3; an AC code 0x02 followed by the bits 1, 1 gives the amplitude 4 | `value = 2 * value + bit`: 1, 1 read as 3 and 1, 0 read as 2, and the amplitude is 3 | high; not executed | JpegHeader.AcAmplitudeMisread | JpegHeader.ReadBitsRoundTrip |
| opentile/ndpi_tiler.py:69-82 | `__setitem__` appends the key to the history even when the key is already stored | cache of size 2: write a, a, b, then c; the eviction pops the second `a` and raises `KeyError` | a key that is written again is not added to the history a second time | low, the only caller writes absent keys; not executed | NdpiCaches.RepeatedKeyBreaksEviction | NdpiCaches.SetReplacingConsistent |
| opentile/tiff_image.py:439-466 | `get_tiles` reads through `_read_frames`, which the Philips image does not override, so a sparse frame is not replaced by the blank tile | a page of two tiles whose second tile has no byte count: `get_tile((1, 0))` gives the blank tile, `get_tiles([(1, 0)])` raises `IndexError` | the batch read gives the same tiles as reading one at a time | medium; not executed | Philips.BatchReadMissesSparseTile | Philips.BatchAgreesOffSparseTiles |
| ndpi_tiler/interface.py:77 | the cache check looks for the stripe index from a true division, but the cache is keyed by pixel position | stripes and tiles 8 pixels wide, tile (1, 0): after its stripe is read the check looks for (1.0, 0.0), but the key stored is (8, 0) | the check uses the same pixel key the cache is filled with | medium; not executed | PageTiler.CacheMissesTileJustRead | PageTiler.RefilledTileIsCached |
