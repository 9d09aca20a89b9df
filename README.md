# Annex B framing of the openh264 console decoder and decoder test, in Dafny

This project models the parts of openh264's console decoder (`h264dec.cpp`) and of
its API test fixture (`BaseDecoderTest.cpp`) that cut an H.264 Annex B byte stream
(section B.1 of ITU-T H.264) into the units handed to the decoder. It then proves
what those cuts are.

- **BitReader**: `readBit`, `readBits`, `bsGetUe` and `readFirstMbInSlice`, the
  most-significant-bit-first bit reader and its unsigned Exp-Golomb decoder ue(v)
  (section 9.1 of ITU-T H.264). The methods work on bytes as the source does and
  are proved equal to functions over the buffer's bit string.
- **ExpGolomb**: an independent ue(v) encoder. It is used to prove that decoding
  inverts encoding and that every successful decode read a canonical code.
- **AnnexB**: `readPicture`, the NAL-type-aware scan. Its loop is a method proved
  equal to a recursive function `Scan`. The lemmas prove where a unit may end, that
  it is at least 4 bytes long, and where its SPS pointer and SPS byte count lie.
- **SequenceTracker**: the 32-byte SPS snapshot of the driver loop. This covers the
  flush test (`memcmp` and the count comparison) and the capped copy.
- **Driver**: the framing loop of `H264DecodeInstance`. The file is padded with a
  start code and cut into units by `readPicture`, or, with fewer than one decoder
  thread, by the fallback start-code scan. Every unit is submitted, or skipped when
  it is shorter than 4 bytes, and is preceded by a flush when the tracker asks for
  one. The loop is proved to produce the trace `DriverTrace`. The lemmas about that
  trace show that:
  - the units tile the file;
  - every unit cut short ends at a start code;
  - the end-of-stream option and the final flush close the trace;
  - with at least one thread, no unit is ever skipped.
- **StreamFramer**: the test harness's byte-at-a-time `ReadFrame` over a stream with
  a fail state and a growable buffer, plus `DecodeFile` and the
  `Open`/`DecodeNextFrame` status machine. `ReadFrame` is proved equal to a
  closed-form `ReadFrameSpec`. On a seekable stream with enough room, the units
  `DecodeFile` reads concatenate back to the file.

The decoder engine itself is a sink in this project. The driver records the calls it
makes on the engine as events, and the test fixture records the units it hands over.

Two behaviours of the code are kept as written, though they may be unexpected:

- The SPS tracker (`h264dec.cpp:422-434`) compares the new SPS byte count, uncapped,
  with the stored count, which is capped at 32. So an SPS longer than 32 bytes is
  never recognised as a repeat (`SequenceTracker.LongSpsAlwaysFlushes`).
- `readPicture` records an SPS even when that SPS ends the unit. This is reported
  under Findings. The as-written pointer and the driver step that uses it are
  modelled beside the corrected ones (the `srcSps` output of
  `AnnexB.ReadPicture`, and `Driver.SourceNextUnit`). The rest of the model uses the corrected pointer.

## Model

| member | source | states |
|---|---|---|
| BitReader.BitsAddressing | openh264/codec/console/dec/src/h264dec.cpp:78-81 | bit `pos` of the buffer is bit `pos % 8`, counted from the top, of byte `pos / 8`: the shift-and-mask of readBit |
| BitReader.ReadBit | openh264/codec/console/dec/src/h264dec.cpp:77-82 | returns the bit under the cursor and advances the cursor by one |
| BitReader.ReadBits | openh264/codec/console/dec/src/h264dec.cpp:91-97 | the OR of shifted bits equals the n bits from the cursor read as a binary number (below 2^n); the cursor advances by n |
| BitReader.ZeroRunSpec | openh264/codec/console/dec/src/h264dec.cpp:108-110 | the prefix count is a run of zeros ended by a 1, by the cap of 32 or by the end of the bits |
| BitReader.ZeroRunUnique | openh264/codec/console/dec/src/h264dec.cpp:108-110 | conversely, any such run is the count the prefix loop produces |
| BitReader.BsGetUe | openh264/codec/console/dec/src/h264dec.cpp:105-114 | the loop computes UeDecode: 2^k - 1 plus the k suffix bits after k zeros and a 1, or OutOfRange / PrefixTooLong |
| BitReader.ReadUeSuffix | openh264/codec/console/dec/src/h264dec.cpp:111-113 | once k < 32 zeros are counted, reading k bits and adding (1 << k) - 1 gives the decoded value and cursor |
| BitReader.UeDecodeOk | openh264/codec/console/dec/src/h264dec.cpp:105-114 | a zero run below the cap, with room for its suffix, decodes successfully to that run's value |
| BitReader.FirstMbInSlice | openh264/codec/console/dec/src/h264dec.cpp:121-125 | first_mb_in_slice is 0 exactly when the byte after the NAL header byte exists and has its top bit set |
| BitReader.ReadFirstMbInSlice | openh264/codec/console/dec/src/h264dec.cpp:121-125 | bsGetUe from bit 0 of the byte after the header returns FirstMbInSlice |
| ExpGolomb.BitsValueOfToBits | openh264/codec/console/dec/src/h264dec.cpp:91-97 | the w-bit binary form of v, read back with readBits' value, gives v |
| ExpGolomb.ToBitsOfBitsValue | openh264/codec/console/dec/src/h264dec.cpp:91-97 | the w bits at a position are the binary form of the value read from them |
| ExpGolomb.UeRoundTrip | openh264/codec/console/dec/src/h264dec.cpp:105-114 | for every n with n + 1 < 2^32, the decoder reads back n from the code of n, and the cursor lands just past the code |
| ExpGolomb.UeDecodeIsEncoding | openh264/codec/console/dec/src/h264dec.cpp:105-114 | every successful decode consumed exactly the code of the returned value, and that value is below 2^32 - 1 |
| ExpGolomb.PrefixEncoding | openh264/codec/console/dec/src/h264dec.cpp:108-113 | k < 32 zeros, a 1 and k more bits are the code of the value they decode to |
| ExpGolomb.BitsOfPack | openh264/codec/console/dec/src/h264dec.cpp:81 | packing a bit string into bytes and reading it back bit by bit gives the same bits |
| ExpGolomb.UeBytesRoundTrip | openh264/codec/console/dec/src/h264dec.cpp:105-114 | the code of n, padded to whole bytes, decodes from bit 0 of the packed bytes to n |
| ExpGolomb.FirstMbRoundTrip | openh264/codec/console/dec/src/h264dec.cpp:121-125 | a slice whose header byte is followed by the code of n has first_mb_in_slice n |
| AnnexB.FirstMbZeroMeansFirstMb | openh264/codec/console/dec/src/h264dec.cpp:175-185 | the first_mb_in_slice == 0 test of readPicture is the top-bit test on the byte after the header |
| AnnexB.NalStep | openh264/codec/console/dec/src/h264dec.cpp:168-220 | a NAL unit ends the unit exactly when it is a slice with first_mb_in_slice 0 (a non-IDR slice after an IDR slice, an IDR slice after any slice), an SPS after a slice or as the second SPS, a PPS after a slice, or the second access unit delimiter; an SPS that does not end the unit becomes the unit's SPS, and no other NAL unit moves it; the unit's first PPS after exactly one SPS sets the byte count to the distance from the SPS header byte to the PPS start code, and no other NAL unit changes the count |
| AnnexB.ReadNal | openh264/codec/console/dec/src/h264dec.cpp:168-220 | the loop body for one NAL unit computes NalStep; `srcSps`, the pointer as written, is set at every SPS before the two tests that can end the unit there (line 195) and is otherwise left as it was |
| AnnexB.ScanNoStartStep | openh264/codec/console/dec/src/h264dec.cpp:228-232 | a byte that starts no start code is passed over one byte at a time, with the scan state unchanged |
| AnnexB.ScanPasses | openh264/codec/console/dec/src/h264dec.cpp:225-227 | a NAL unit that does not end the unit is passed over with 4 bytes, whichever start code it had |
| AnnexB.ScanCloses | openh264/codec/console/dec/src/h264dec.cpp:176-218 | a NAL unit that ends the unit makes readPicture return the bytes read so far |
| AnnexB.SpsBeforeStartCode | openh264/codec/console/dec/src/h264dec.cpp:207-209 | the recorded SPS lies before the start code being examined, so `ptr - pSpsBuf` is a positive distance |
| AnnexB.ReadPicture | openh264/codec/console/dec/src/h264dec.cpp:137-236 | the scan loop returns Picture's length, SPS position and SPS byte count, with fewer than 4 available bytes returned whole; its `srcSps` output, `pSpsBuf` as the loop leaves it, is SourceSpsPtr of that Picture: the header of the SPS that ended the unit, if one did, and the unit's own SPS otherwise |
| AnnexB.PictureFacts | openh264/codec/console/dec/src/h264dec.cpp:137-236 | the unit lies within the available bytes; it is at least 4 bytes long when 4 are available; it is cut short only at a start code of a closing NAL type, with more than 4 bytes left; the SPS is the header byte of an SPS inside the unit, right after its start code; a non-zero byte count ends inside the unit, at the start code of a PPS |
| AnnexB.SpsStep | openh264/codec/console/dec/src/h264dec.cpp:192-210 | one NAL unit keeps the SPS after a start code and the byte count at a PPS start code; when it ends the unit, both lie before its start code |
| AnnexB.ScanNal | openh264/codec/console/dec/src/h264dec.cpp:192-227 | a NAL unit at a start code either ends the scan, with the as-written pointer as SourceSpsPtr gives it, or is passed over, with the as-written pointer equal to the unit's SPS |
| AnnexB.ScanLength | openh264/codec/console/dec/src/h264dec.cpp:159-233 | from any reachable scan state, the length the scan ends with satisfies the length properties and is at least the bytes already read |
| AnnexB.ScanSps | openh264/codec/console/dec/src/h264dec.cpp:159-233 | from any reachable scan state, the reported SPS is an SPS header byte after a start code inside the unit, and a non-zero byte count ends inside the unit at a PPS start code |
| AnnexB.SourceSpsPtrOutsideUnit | openh264/codec/console/dec/src/h264dec.cpp:192-203 | whenever the as-written pointer differs from the unit's own SPS, it lies past the end of the unit |
| SequenceTracker.Store | openh264/codec/console/dec/src/h264dec.cpp:429-434 | with SPS bytes present, the first min(count, 32) bytes replace the front of the snapshot and become its count, and the rest of the snapshot is kept; otherwise nothing changes |
| SequenceTracker.FlushIffChanged | openh264/codec/console/dec/src/h264dec.cpp:422-428 | with both counts positive, the flush happens exactly when the stored bytes are not the new SPS bytes |
| SequenceTracker.RepeatNoFlush | openh264/codec/console/dec/src/h264dec.cpp:422-434 | repeating an SPS of at most 32 bytes, wherever it lies, causes no flush |
| SequenceTracker.LongSpsAlwaysFlushes | openh264/codec/console/dec/src/h264dec.cpp:422-434 | after an SPS longer than 32 bytes is stored, every SPS longer than 32 bytes causes a flush, even an identical one |
| SequenceTracker.BytesEqual | openh264/codec/console/dec/src/h264dec.cpp:423 | memcmp of n bytes returns equal exactly when the two byte ranges are equal |
| SequenceTracker.CopyBytes | openh264/codec/console/dec/src/h264dec.cpp:433 | memcpy writes n bytes into the front of the array and leaves the rest of it |
| SequenceTracker.CheckSps | openh264/codec/console/dec/src/h264dec.cpp:422-428 | the flush test on the snapshot array computes NeedsFlush |
| SequenceTracker.StoreSps | openh264/codec/console/dec/src/h264dec.cpp:429-434 | the capped copy leaves the array and count equal to Store of the old snapshot |
| Driver.PaddedHasPad | openh264/codec/console/dec/src/h264dec.cpp:377-390 | the buffer is the file followed by a 00 00 00 01 start code |
| Driver.FallbackLenLeast | openh264/codec/console/dec/src/h264dec.cpp:437-444 | the fallback length is the least positive offset where a 3- or 4-byte start code begins, and it is at most the bytes left |
| Driver.NextStartCode | openh264/codec/console/dec/src/h264dec.cpp:437-444 | the fallback loop returns FallbackLen |
| Driver.PictureProgress | openh264/codec/console/dec/src/h264dec.cpp:413 | while bytes remain, readPicture's unit is not empty; its SPS bytes lie in the buffer |
| Driver.NextUnit | openh264/codec/console/dec/src/h264dec.cpp:409-445 | each unit is non-empty and ends in the file; with fewer than one thread nothing is flushed and the snapshot is unchanged |
| Driver.NextUnitFlush | openh264/codec/console/dec/src/h264dec.cpp:410-434 | with at least one thread, the flush before a unit happens exactly when the snapshot holds SPS bytes, the unit has an SPS inside it, and that SPS differs from the stored bytes; the snapshot then holds the unit's SPS, capped at 32 bytes; a unit without SPS bytes neither flushes nor changes the snapshot |
| Driver.SourceNextUnit | openh264/codec/console/dec/src/h264dec.cpp:410-434 | the step as written, with the flush test and the copy reading the SPS where `pSpsBuf` points; with fewer than one thread, or wherever that pointer is the unit's own SPS, it is NextUnit |
| Driver.SourceMissesFlush | openh264/codec/console/dec/src/h264dec.cpp:195-203 | on MissedFlushStream, as written, the first unit stores the second unit's SPS, so no flush comes before the second unit, although the two units' SPSs differ |
| Driver.MissedFlushTrace | openh264/codec/console/dec/src/h264dec.cpp:409-451 | on the same stream, the corrected loop submits the first unit, flushes, submits the second unit, then signals the end and flushes |
| Driver.UnitEvents | openh264/codec/console/dec/src/h264dec.cpp:425-451 | one unit adds an optional flush, then the unit submitted or skipped; there is no flush when none was asked for, and no skip when the unit has 4 bytes |
| Driver.ReadUnit | openh264/codec/console/dec/src/h264dec.cpp:409-445 | the loop body up to the size test cuts NextUnit's unit and leaves the snapshot NextUnit gives |
| Driver.DecodeUnit | openh264/codec/console/dec/src/h264dec.cpp:409-451 | one pass appends the unit's events to the trace and moves the position past the unit |
| Driver.DecodeInstance | openh264/codec/console/dec/src/h264dec.cpp:339-451 | the loop's trace is DriverTrace: nothing for a file of at most 4 bytes, else the events of the units the loop cuts, then end of stream and flush |
| Driver.CutsFacts | openh264/codec/console/dec/src/h264dec.cpp:393-451 | the units tile the rest of the file, and each unit is as CutOk says |
| Driver.RunFacts | openh264/codec/console/dec/src/h264dec.cpp:393-451 | the trace's units tile the rest of the file; end of stream and flush close it, and end of stream occurs nowhere else; units cut short end at a start code; with fewer than one thread there is no earlier flush and no start code inside a unit |
| Driver.PictureRunNoSkip | openh264/codec/console/dec/src/h264dec.cpp:410-451 | with at least one thread, no unit is skipped and every flush before the end comes just before a submitted unit |
| Driver.DriverTraceFacts | openh264/codec/console/dec/src/h264dec.cpp:359-451 | for every file of more than 4 bytes, the RunFacts and PictureRunNoSkip properties hold of the whole trace |
| StreamFramer.ByteStream.Read | openh264/test/api/BaseDecoderTest.cpp:15-18 | reading yields the next byte and advances, or, at the end or once failed, yields nothing and sets the fail state |
| StreamFramer.ByteStream.SeekBack | openh264/test/api/BaseDecoderTest.cpp:32 | the seek succeeds exactly on a seekable, unfailed stream with enough bytes behind it; a failure sets the fail state |
| StreamFramer.Buffer.PushBack | openh264/test/api/BaseDecoderTest.cpp:19-22 | the append succeeds exactly while the buffer has room |
| StreamFramer.Buffer.SetLength | openh264/test/api/BaseDecoderTest.cpp:33 | the buffer keeps its first n bytes |
| StreamFramer.FrameEndLeast | openh264/test/api/BaseDecoderTest.cpp:24-45 | the unit ends at the first 00 00 00 01 that begins 4 or more bytes after its start, or at the end of the data |
| StreamFramer.CounterMeaning | openh264/test/api/BaseDecoderTest.cpp:28-45 | the zero counter sees a start code exactly when a 00 00 00 01 begins 3 bytes back, past the first 4 bytes; otherwise it holds the run of zeros (up to 3) |
| StreamFramer.CloseUnit | openh264/test/api/BaseDecoderTest.cpp:31-39 | at a start code, the seek back and the truncation by 4 give ReadFrameSpec's outcome, including the failed seek |
| StreamFramer.ReadFrame | openh264/test/api/BaseDecoderTest.cpp:8-47 | the loop's result, buffer, stream position and fail state are ReadFrameSpec's: end of data, full buffer, a start code with a good or failed seek, or an already failed stream |
| StreamFramer.ReadFrameFacts | openh264/test/api/BaseDecoderTest.cpp:8-47 | the unit is the bytes read, in order; at a start code the unit has at least 4 bytes and the stream is left at the start code; no 00 00 00 01 lies inside a successful unit past its first 4 bytes; the unit is empty and successful exactly at the end of the data |
| StreamFramer.FrameWhenRoomy | openh264/test/api/BaseDecoderTest.cpp:8-47 | on a seekable stream with room, a read succeeds and is empty only at the end; it is at least 4 bytes long when 4 are left; the stream fails only at the end |
| StreamFramer.SessionCovers | openh264/test/api/BaseDecoderTest.cpp:163-187 | on a seekable stream with room, the units read succeed and concatenate to the data; none is empty, all but the last have at least 4 bytes, and all but the first begin with 00 00 00 01 |
| StreamFramer.DecodeFile | openh264/test/api/BaseDecoderTest.cpp:163-202 | false when the file does not open; otherwise the result and the units handed to the decoder are those of ReadFrame called until it fails or returns an empty unit |
| StreamFramer.DecoderTest.constructor | openh264/test/api/BaseDecoderTest.cpp:49-50 | the fixture starts in OpenFile with nothing decoded |
| StreamFramer.DecoderTest.Open | openh264/test/api/BaseDecoderTest.cpp:205-216 | succeeds exactly from OpenFile with a file that opens, and then starts Decoding from the file's first byte |
| StreamFramer.DecoderTest.DecodeNextFrame | openh264/test/api/BaseDecoderTest.cpp:219-256 | while Decoding, one ReadFrame: when it returns false so does the call, an empty unit moves to EndOfStream with true, and any other unit is handed over with true; EndOfStream signals the end and moves to End with false; OpenFile and End do nothing and give false |

## Left out

- Reading the file from disk, its size via `ftell` and the open, allocation and read failures (`h264dec.cpp:359-387`): the model takes the file's bytes as a parameter. A `fread` or `new` failure, which makes the source jump to `label_exit`, is not modelled.
- The slice-size track file (`fpTrack`, `h264dec.cpp:404-407`) is I/O. The model covers only the two framers that scan the buffer.
- Thread count: `GetOption (DECODER_OPTION_NUM_OF_THREADS)` is a parameter `threads` of the driver.
- The decoder engine: `DecodeFrame2`/`DecodeFrameNoDelay`, the option queries and the YUV and option-file output of `h264dec.cpp:453-568` become one `Submit` event per unit. `FlushFrames` (`h264dec.cpp:239` on) becomes one `Flush` event. Frame counts, timing and output writing are left out.
- `continue` after a unit shorter than 4 bytes (`h264dec.cpp:448-451`) is written as an if-else branch with the same effect.
- `readPicture`'s test `read_bytes >= bytes_available - 4` (`h264dec.cpp:222-224`) repeats the loop condition, so it never holds. It is not written in `AnnexB.ReadPicture`.
- The snapshot array `uLastSpsBuf` is uninitialised in the source. The model zero-fills it. Its bytes are compared only after being written, so nothing depends on the fill.
- AnnexB.ReadNal: the output `sps`, the unit's own SPS, is an addition of the model. The source keeps only `pSpsBuf`, which is the output `srcSps`.
- AnnexB.ReadPicture: the output `sps` is the corrected pointer, an addition of the model. The source returns only `pSpsBuf`, which is the output `srcSps`. The rest of the model uses `sps`, except Driver.SourceNextUnit.
- Driver.NextUnit: the flush test and the snapshot update use the unit's own SPS (the corrected pointer), not `pSpsBuf` as written. The as-written step is Driver.SourceNextUnit.
- Driver.ReadUnit: calls CheckSps and StoreSps with the corrected SPS pointer, as Driver.NextUnit does.
- Driver.DecodeUnit: the events it appends come from the corrected SPS pointer, as in Driver.NextUnit.
- Driver.DecodeInstance: its trace is that of the loop with the corrected SPS pointer. As written, the trace differs after a unit ended by an SPS (Driver.SourceMissesFlush). The as-written pointer is modelled for one step (Driver.SourceNextUnit), not for a whole trace.
- Driver.SourceNextUnit: gives no step whenever the SPS byte count runs past the buffer from the as-written pointer. The source reads only the first min(count, 32) of those bytes, and reads past its buffer when even those do not fit.
- BitReader.BsGetUe: results are unbounded naturals. A prefix of 31 zeros overflows the source's `int32_t` result. A prefix of 32 zeros computes `1 << 32`, which is undefined in C++; the model returns `PrefixTooLong` for it.
- BitReader.BsGetUe: a read past the end of the buffer returns `OutOfRange`. The source reads past the end instead and relies on the 4-byte pad.
- BitReader.ReadBits: the cursor and count are unbounded naturals, not `int32_t`.
- StreamFramer.Buffer.PushBack: an allocation failure is modelled as a fixed capacity `limit`. `BufferedData.h` is not part of this model.
- StreamFramer.CloseUnit: `SetLength` returning -1 (`BaseDecoderTest.cpp:33`) is not modelled. Shortening the buffer is taken to succeed, since `BufferedData.h` is not part of this model.
- `HasFatalFailure` checks (`BaseDecoderTest.cpp:175`, `184`, `226`, `237`) read the test framework's state, which is not modelled. They are taken never to fire.
- StreamFramer.DecodeFile: the end-of-stream option, the final `DecodeFrame (NULL, 0)` and the `FlushFrame` loop over the frames remaining in the decoder (`BaseDecoderTest.cpp:190-200`) are decoder calls. They are not modelled, and the result after them is true.
- StreamFramer.DecoderTest.Open: opening a named file becomes a parameter `opens`, with the file's contents and seekability. The open mode flags are not modelled.
- StreamFramer.DecoderTest.DecodeNextFrame: `DecodeFrame` is recorded as the unit handed over, and the end-of-stream option plus `DecodeFrame (NULL, 0)` as the flag `ended`.
- `ConsoleApplication2/ConsoleApplication2.cpp` and the decoder library are not part of this model.

## Findings

| source | as written | input that shows it | evidently intended | confidence | as-written member | corrected member |
|---|---|---|---|---|---|---|
| openh264/codec/console/dec/src/h264dec.cpp:195-203 | `pSpsBuf` is set at every SPS, before the tests that end the unit at that SPS. So an SPS that begins the next unit overwrites the pointer to the unit's own SPS. The driver (`h264dec.cpp:422-434`) then compares and stores the next unit's SPS | the 30-byte stream `00 00 01 67 42 00 00 01 68 CE 00 00 01 65 88 00 00 01 67 43 00 00 01 68 CE 00 00 01 65 88` (SPS, PPS, IDR slice, twice, with SPSs `67 42` and `67 43`). The first unit is bytes 0-14, but `pSpsBuf` comes back as byte 18. The tracker stores `67 43` after the first unit, so no flush comes before the second unit, although its SPS changed | `pSpsBuf` names the SPS inside the returned unit. The tracker stores `67 42` after the first unit and flushes before the second | not executed | Driver.SourceMissesFlush (with Driver.SourceNextUnit, the `srcSps` output of AnnexB.ReadPicture and AnnexB.SourceSpsPtrOutsideUnit) | Driver.MissedFlushTrace (with Driver.NextUnit, AnnexB.NalStep and AnnexB.PictureFacts) |
