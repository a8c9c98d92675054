# Flipbook framing and reassembly, modelled in Dafny

Flipbook carries a long string through an animation of QR codes. The writer
cuts the payload into windows of `splitLength` characters. It prefixes window
`i` with the index tag `>>>IDX<i> `, and it puts the head tag
`>>>HEAD<count> ` in front of the first window. Each frame is then rendered as
a QR image. A reader collects the decoded frames until it has as many as the
head announced; capture comes from a camera or screen stream, or from the
images of a GIF. The reader then sorts the frames with `sortFrames`, strips
the tags with `sliceFrames` and concatenates the rest.

This project models that protocol:

- the tag codec of `packages/shared/src/index.ts`, with JavaScript's
  `parseInt`, `indexOf` and `slice` written out;
- the three splitters;
- the reassembly helpers;
- the capture state machine of both stream readers, and the file reader;
- the three writers' version normalisation;
- the pixel image, the state and the guards of the `Writer` class in
  `packages/writer/src/writer.ts`;
- the Markdown table generator of the end-to-end scripts.

The central results are these:

- `Reassembly.RoundTrip`: any arrival order of the writer's frames of a
  non-empty payload reassembles to the payload.
- `Capture.CaptureRoundTrip`: a clean capture that sees every frame resolves,
  and its frames reassemble to the payload.

Module layout, one file each:

- Tag codec: `Js` (JavaScript string and number primitives), `Tags`.
- Splitter and reassembly: `Splitter`, `Frames` (the comparator, the stripper
  and `Array.prototype.sort` as a stable insertion sort), `Reassembly`.
- Readers: `Capture` (the step function, the loop as a function of the
  stream, the `Collector` class), `WebRtc`, `DisplayReader`, `FileReader`.
- Writers: `Versions`, `QrOptions`, `WriterFn` (`packages/writer/index.ts`),
  `LegacyWriter` (`packages/writer/src/index.ts`), `WriteFunction`
  (`packages/writer/src/write.ts`), `QrWriter` (`packages/writer/src/writer.ts`).
- Benchmark table: `Markdown`.

The duplicate snapshots are modelled by the same members as the originals;
the table below cites the original of each pair:

- `packages/writer/helpers.ts` is the shared tag codec without its logging
  calls, returning `parseInt(...)` directly where the original binds it to a
  temporary first.
- `packages/reader/helpers.ts` is `packages/reader/src/helpers.ts` without its
  doc comments.
- `split` in `packages/writer/src/index.ts` is the `split` of
  `packages/writer/src/writer.ts` apart from log messages.

Each pair is textually identical up to such temporaries, comments and
logging, which is why one member models both copies. The QR encoder and decoder, `toDataURL` and the media stream are
parameters: a decoded tick per scheduled step, and encoder functions.

`QrWriter.Write` follows `packages/writer/src/writer.ts` as written. The
version it pins for all frames is the first frame's, not a maximum over all
frames. `QrWriter.SymbolsOneVersion` states this, and with it that later
frames fall back to an encoder-chosen version when the first frame's version
is 0.

The encoder's `make()` throws for content that does not fit a forced
version, and `QrWriter.Writer.Write` models both places where that can
happen. A later frame forced at the first frame's version can throw after
the version, size and frame count are already stored. And because a
`write` stores the version it used, the first frame of the next `write` on
the same `Writer` is forced at that version: a longer payload can then
throw even with default options.

## Model

| member | source | states |
|---|---|---|
| Tags.IsHead | packages/shared/src/index.ts:10-11 | definition: the string starts with `>>>HEAD` (properties: `Tags.TagExamples`, `Tags.IndexFrameIsNotHead`) |
| Tags.CreateIndexTag | packages/shared/src/index.ts:14-15 | definition: `>>>IDX` followed by the decimal text of the number, `NaN` for NaN (properties: `Tags.IndexTagShape`) |
| Tags.CreateHeadTag | packages/shared/src/index.ts:18-19 | definition: `>>>HEAD` followed by the decimal text of the count (properties: `Tags.HeadTagShape`) |
| Tags.GetIndex | packages/shared/src/index.ts:22-45 | definition: drop the head segment of a head-tagged string, then -1 without a further space, else `parseInt` of positions 6 up to that space (properties: the `Tags.GetIndex…` lemmas) |
| Tags.GetHeadLength | packages/shared/src/index.ts:48-60 | definition: -1 without a space or the head prefix, else `parseInt` of positions 7 up to the first space (properties: the `Tags.GetHeadLength…` lemmas) |
| Js.ParseInt | packages/shared/src/index.ts:40-42 | definition: JavaScript `parseInt` without a radix: leading white space and one sign skipped, a `0x` prefix selects base 16, the longest digit prefix read, NaN when it is empty (properties: `Js.ParseIntOfNonDigit`, `Tags.GetIndexOfIndexFrame`) |
| Tags.TagExamples | packages/shared/src/index.ts:10-19 | `isHead` is a `startsWith('>>>HEAD')` test (`>>>IDX123` is not a head); the tag builders write the prefix followed by the decimal number |
| Tags.IndexTagShape | packages/shared/src/index.ts:14-15 | `createIndexTag(i)` is `>>>IDX` followed by the decimal digits of `i`, has no space, and its length is 6 plus the number of digits |
| Tags.HeadTagShape | packages/shared/src/index.ts:18-19 | `createHeadTag(t)` is `>>>HEAD` followed by the digits of `t`, with no space |
| Tags.IndexFrameIsNotHead | packages/shared/src/index.ts:10-15 | a string starting with an index tag is never head-tagged |
| Tags.GetIndexOfIndexFrame | packages/shared/src/index.ts:22-45 | round trip: `getIndex(createIndexTag(i) + ' ' + p) == i` for every natural `i` and every payload `p` |
| Tags.GetIndexOfHeadFrame | packages/shared/src/index.ts:28-45 | round trip through a head prefix: the head segment is skipped and the index read back |
| Tags.GetIndexWithoutSpace | packages/shared/src/index.ts:34-37 | with no space, head-tagged or not, `getIndex` is -1 |
| Tags.GetIndexIgnoresPrefix | packages/shared/src/index.ts:40-42 | the `>>>IDX` prefix is never checked: for an untagged string, the first six characters (when they hold no space) do not affect the result |
| Tags.GetIndexOfShortSegment | packages/shared/src/index.ts:40-42 | no character between position 6 and the first space parses as NaN |
| Tags.GetIndexOfHeadWithShortSegment | packages/shared/src/index.ts:28-42 | the same after the head segment is skipped |
| Tags.GetIndexExample | packages/shared/src/index.test.ts:36-40 | `>>>IDX789 some other text` reads as 789 |
| Tags.GetIndexNoSpaceExample | packages/shared/src/index.test.ts:42-45 | `>>>IDX` reads as -1 |
| Tags.GetIndexUntaggedExample | packages/shared/src/index.test.ts:47-50 | untagged text reads as NaN |
| Tags.GetIndexHeadOnlyExample | packages/shared/src/index.test.ts:52-55 | `>>>HEAD987 some other text` reads as NaN |
| Tags.GetHeadLengthOfHeadFrame | packages/shared/src/index.ts:48-60 | round trip: `getHeadLength(createHeadTag(t) + ' ' + rest) == t` |
| Tags.GetHeadLengthOfUntagged | packages/shared/src/index.ts:50-54 | -1 for a string with no space or without the head prefix |
| Tags.GetHeadLengthOfEmptyCount | packages/shared/src/index.ts:57 | a head prefix followed directly by the space parses as NaN |
| Tags.GetHeadLengthExamples | packages/shared/src/index.test.ts:59-72 | the unit test values 654, -1 and NaN |
| Frames.SortFrames | packages/reader/src/helpers.ts:10-22 | definition: -1 for a head-tagged `a`, else the order of the two indexes, with NaN comparisons false (properties: `Frames.SortFramesLaws`, `Reassembly.CompareTagged`) |
| Frames.SliceFrames | packages/reader/src/helpers.ts:30-41 | definition: unless the index reads as -1, drop everything through the first index tag and one more character (properties: `Frames.SliceFrames…` lemmas, `Reassembly.SliceIndexFrame`, `Reassembly.SliceHeadFrame`) |
| Frames.SortFramesLaws | packages/reader/src/helpers.ts:10-22 | -1 whenever `a` is head-tagged; between untagged frames antisymmetric, 0 on equal frames, and only -1, 0 or 1 |
| Frames.Insert | packages/reader/src/helpers.ts:10-22 | inserting into the sorted array adds exactly the new element (multiset) |
| Frames.Sort | packages/reader/src/helpers.ts:10-22 | `sort(sortFrames)` returns a permutation of its input |
| Frames.SortOrdered | packages/reader/src/helpers.ts:10-22 | on a set of frames where `sortFrames` is total and transitive, the sort result is ordered |
| Frames.OrderedUnique | packages/reader/src/helpers.ts:10-22 | two ordered permutations of a set with a total, transitive order are equal: the sorted result is determined |
| Frames.SortNoneBefore | packages/reader/src/helpers.ts:10-22 | the sort is stable: when the comparator puts nothing before anything else, the order given is kept |
| Frames.DistinctPermutation | packages/reader/src/helpers.ts:10-22 | a permutation of a duplicate-free sequence is duplicate-free |
| Frames.Assemble | packages/reader/src/processors/webrtc-processor.ts:230 | definition: `sort(sortFrames).map(sliceFrames).join('')`, shared by all three readers (properties: `Reassembly.RoundTrip`) |
| Frames.SliceFramesUntagged | packages/reader/src/helpers.ts:30-41 | a frame whose index reads as -1 is returned unchanged |
| Frames.SliceFramesOfIndexed | packages/reader/src/helpers.ts:33-37 | with index `i`, everything through the first `>>>IDX<i>` and one more character is dropped |
| Frames.SliceFramesOfNaN | packages/reader/src/helpers.ts:33-37 | a NaN index searches for `>>>IDXNaN`; when that is absent, `indexOf` gives -1 and nine characters are dropped |
| Frames.SliceFramesNaNExample | packages/reader/src/helpers.test.ts:52-55 | `[INDEX:2]Some content` becomes `Some content` |
| Frames.SliceFramesUnmockedExample | packages/reader/src/helpers.test.ts:57-62 | unmocked, `No index here` reads as NaN and becomes `here` |
| Splitter.Shards | packages/writer/src/writer.ts:74-82 | definition: the windows `code.slice(i, i + splitLength)` for `i = 0, L, 2L, …` below the length (properties: `Splitter.ShardCount`, `Splitter.ShardContent`, `Splitter.ShardsJoin`) |
| Splitter.Tagged | packages/writer/src/writer.ts:85-93 | definition: each window behind its index tag and a space, the head tag and a space in front of the first (properties: `Splitter.TaggedShape`, `Splitter.TaggedHead`, `Splitter.TaggedIndex`) |
| Splitter.Chunk | packages/writer/src/writer.ts:77-82 | the `while` loop pushes exactly the windows `code.slice(i, i + L)` |
| Splitter.Split | packages/writer/src/writer.ts:67-94 | `split` returns the tagged windows: index tags on all, the head tag on the first |
| Splitter.SplitCode | packages/writer/index.ts:17-29 | `splitCode` returns the untagged windows of length 100 |
| Splitter.ShardCount | packages/writer/src/writer.ts:77-82 | ceil(\|code\| / L) windows: none exactly for the empty payload, otherwise the least `n` with \|code\| <= n·L |
| Splitter.ShardContent | packages/writer/src/writer.ts:79 | window `k` is `code[k·L .. min((k+1)·L, \|code\|)]`, non-empty and at most `L` long |
| Splitter.ShardsJoin | packages/writer/index.ts:23-28 | concatenating the windows gives back the payload |
| Splitter.TaggedShape | packages/writer/src/writer.ts:85-89 | one frame per window; frame `k` is `createIndexTag(k) + ' ' + window k`; only frame 0 also gets `createHeadTag(count) + ' '` |
| Splitter.TaggedHead | packages/writer/src/writer.ts:89 | the head frame is head-tagged, carries index 0, and announces the frame count |
| Splitter.TaggedIndex | packages/writer/src/writer.ts:85-89 | frame `k` carries index `k`, and only frame 0 is a head |
| Splitter.TaggedEmpty | packages/writer/src/writer.ts:89 | the empty payload gives the single frame `>>>HEAD0 undefined` |
| Splitter.TaggedNonEmpty | packages/writer/src/writer.ts:197 | `codes[0]` always exists, even for the empty payload |
| Splitter.SplitCountExamples | packages/writer/src/writer.test.ts:66-82 | 144 characters give 2 frames at length 100 and 15 at length 10, each led by a head |
| Splitter.SplitSingleExample | packages/writer/src/index.test.ts:16-28 | `TEST_CODE` gives `>>>HEAD1 >>>IDX0 TEST_CODE` |
| Reassembly.SliceIndexFrame | packages/reader/src/helpers.ts:30-41 | `sliceFrames` of an index frame is exactly its window |
| Reassembly.SliceHeadFrame | packages/reader/src/helpers.ts:30-41 | `sliceFrames` of the head frame removes both tags |
| Reassembly.CompareTagged | packages/reader/src/helpers.ts:10-22 | on the splitter's frames, `sortFrames(F[i], F[j]) < 0` exactly when `i` is 0 or `i < j` |
| Reassembly.TaggedDistinctOrdered | packages/writer/src/writer.ts:85-89 | the splitter's frames are distinct and already in `sortFrames` order |
| Reassembly.SortRestoresOrder | packages/reader/src/helpers.ts:10-22 | sorting any permutation of the splitter's frames restores the splitter's order |
| Reassembly.RoundTrip | packages/e2e/src/benchmark.spec.ts:121-123 | any arrival order of the frames of a non-empty payload reassembles (sort, slice, join) to the payload |
| Reassembly.EmptyPayload | packages/writer/src/writer.ts:89 | the empty payload does not round-trip: it reassembles to `>>>HEAD0 undefined` |
| Capture.Step | packages/reader/src/processors/webrtc-processor.ts:122-134 | definition: a tick whose step throws leaves the collection as it was; any other tick is absorbed (properties: `Capture.Absorb`) |
| Capture.Steps | packages/reader/src/processors/webrtc-processor.ts:121-137 | definition: the collection after a run of ticks, one `Step` each (properties: `Capture.StepsShift`, `Capture.StepsGrow`) |
| Capture.Run | packages/reader/src/processors/webrtc-processor.ts:121-147 | definition: the scheduled steps from a tick on, stopping at the first exception or once the collection size equals the announced count (properties: `Capture.RunDoneAt`, `Capture.RunDoneOnlyAt`) |
| Capture.Absorb | packages/reader/src/processors/webrtc-processor.ts:126-133 | a step keeps every collected string, keeps the collection duplicate-free, and adds exactly a non-empty new string; empty or repeated strings change nothing |
| Capture.Collector.Add | packages/reader/src/processors/webrtc-processor.ts:126-133 | the in-place step: the new state is `Absorb` of the old one with `getHeadLength` |
| Capture.Collector.constructor | packages/reader/src/processors/webrtc-processor.ts:110-111 | a fresh capture has an empty collection and no count |
| Capture.AbsorbIdempotent | packages/reader/src/processors/webrtc-processor.ts:128 | seeing the same string twice is seeing it once |
| Capture.AbsorbExpected | packages/reader/src/processors/webrtc-processor.ts:131-133 | the count changes only when a newly added string has a head count (not -1), and then to that count |
| Capture.NaNNeverComplete | packages/reader/src/processors/webrtc-processor.ts:136 | a NaN count never equals the collection size |
| Capture.StepsGrow | packages/reader/src/processors/webrtc-processor.ts:128-129 | along any stream the collection only grows and stays duplicate-free |
| Capture.RunDoneAt | packages/reader/src/processors/webrtc-processor.ts:136-141 | with no exception first, the loop resolves at the first tick after which size equals count, with the collection in insertion order |
| Capture.RunDoneOnlyAt | packages/reader/src/processors/webrtc-processor.ts:136-144 | conversely, a resolution happens only at such a first complete tick with no exception before it |
| Capture.NoUsableHeadNeverDone | packages/reader/src/processors/webrtc-processor.ts:131-137 | without a head, or with only NaN head counts, the loop never resolves |
| Capture.AbsorbCollecting | packages/reader/src/processors/webrtc-processor.ts:126-133 | absorbing any frame of an announcing frame sequence keeps the capture invariant |
| Capture.CompleteIffAll | packages/reader/src/processors/webrtc-processor.ts:136 | under that invariant, the loop condition fails exactly when every frame has been collected |
| Capture.CleanRunDone | packages/reader/src/processors/webrtc-processor.ts:121-147 | a failure-free stream that still shows every missing frame resolves with a permutation of the frames |
| Capture.TaggedAnnounces | packages/writer/src/writer.ts:85-89 | the splitter's frames announce their count in the head frame and nothing in the others |
| Capture.CaptureRoundTrip | packages/reader/src/processors/webrtc-processor.ts:108-149 | a clean capture of the writer's frames that shows each of them resolves, and its frames reassemble to the payload |
| WebRtc.ProcessAllFrames | packages/reader/src/processors/webrtc-processor.ts:108-149 | the loop over scheduled steps equals the capture run from the empty state; with no video it resolves with `[]` at once |
| WebRtc.WebRTCProcessor.SetStreamTrack | packages/reader/src/processors/webrtc-processor.ts:203-205 | a track is set and nothing else changes |
| WebRtc.WebRTCProcessor.Read | packages/reader/src/processors/webrtc-processor.ts:212-238 | a failed start rejects; a rejection of `video.play()` leaves track and video set, so the next read skips `startVideo`, while an earlier failure leaves them as they were; a resolved capture stops the track, destroys the elements and yields sort/slice/join of the frames; otherwise the read stays pending |
| DisplayReader.Process | packages/reader/src/index.ts:23-54 | the recursive `process` on an array equals the capture run from that array's state, and leaves the array holding exactly the steps it took: through the completing tick on success, up to the throwing tick on an exception |
| DisplayReader.ProcessAllFrames | packages/reader/src/index.ts:12-62 | `processAllFrames` equals the capture run from the empty state |
| DisplayReader.Reader | packages/reader/src/index.ts:64-108 | rejections for a media failure, 'Could not get video track' and 'Could not create canvas context'; the track is stopped on success and on every error after it exists; a success yields sort/slice/join |
| FileReader.IsGif | packages/reader/src/processors/file-processor.ts:168-172 | definition: the lower-cased extension is `gif`, or the MIME type starts with `image/gif` (properties: `FileReader.LowerIsGif`, `FileReader.IsGifExamples`) |
| FileReader.Read | packages/reader/src/processors/file-processor.ts:269-280 | definition: a GIF reassembles its decoded images, any other file returns its single decoded string (properties: `FileReader.GifRoundTrip`, `FileReader.NonGifKeepsTags`) |
| FileReader.Extension | packages/reader/src/processors/file-processor.ts:168-172 | the extension is a dot-free suffix of the name, preceded by a `.` unless it is the whole name |
| FileReader.LowerIsGif | packages/reader/src/processors/file-processor.ts:168-172 | the lower-cased extension is `gif` exactly for the eight case spellings of `gif` |
| FileReader.ExtensionAfterDot | packages/reader/src/processors/file-processor.ts:168-172 | the extension of `a.b` is `b` when `b` has no dot |
| FileReader.IsGifExamples | packages/reader/src/processors/file-processor.test.ts:132-144 | `dummy.gif`/`image/gif` is a GIF; `dummy.png`/`image/png` is not |
| FileReader.SingleFrame | packages/reader/src/processors/file-processor.ts:114 | a frame with no QR symbol contributes `''` |
| FileReader.AllFrames | packages/reader/src/processors/file-processor.ts:133-160 | one string per GIF image, in GIF order |
| FileReader.GifRoundTrip | packages/reader/src/processors/file-processor.ts:269-273 | a GIF holding the writer's frames in any order reads back as the payload |
| FileReader.NonGifKeepsTags | packages/reader/src/processors/file-processor.ts:277-279 | a non-GIF returns its single decoded string raw, tags included |
| FileReader.GifRepeatsDuplicates | packages/reader/src/processors/file-processor.ts:154-159 | no deduplication: a GIF showing the one frame twice reads as the payload twice, joined as the frames come |
| FileReader.PlainFramesConcatenate | packages/reader/src/processors/file-processor.ts:273 | frames without tags and without spaces are concatenated in the order given |
| FileReader.GifPlainExample | packages/reader/src/processors/file-processor.test.ts:145-159 | the frames `QRData1`, `QRData2` read as `QRData1QRData2` |
| Versions.MaxFrom | packages/writer/src/index.ts:94-97 | the reduce result is at least the start value and every version, and is the start value or one of the versions |
| Versions.HighestVersion | packages/writer/src/write.ts:30-33 | the highest version is at least 0 and every version, and 0 or one of them |
| QrOptions.SpreadLaws | packages/writer/index.ts:40-43 | an option the override sets wins, any other keeps its default; an empty override changes nothing; merging twice is merging once |
| QrOptions.Render | packages/writer/src/index.ts:88-109 | definition: create every code, take the highest version with `reduce` from 0, draw every code again at that version (properties: `QrOptions.RenderOneVersion`) |
| QrOptions.RenderOneVersion | packages/writer/src/index.ts:88-109 | one output per code, in order and unchanged; all images drawn at one version that is at least every first-pass version and one of them unless 0 |
| WriterFn.WriterSpec | packages/writer/index.ts:32-62 | ceil(\|code\|/100) results, none for empty input; result `i` has index `i` and carries chunk `i` of `splitCode`; the codes concatenate to the input; one common version over the merged options |
| LegacyWriter.Merge | packages/writer/src/index.ts:26-38 | every field the caller sets wins and every other keeps its default |
| LegacyWriter.Writer.constructor | packages/writer/src/index.ts:24-38 | the writer's options are the caller's over the defaults |
| LegacyWriter.Writer.Write | packages/writer/src/index.ts:80-110 | one output per tagged frame, in order, codes unchanged, all images at one version no smaller than any first-pass version and, when not 0, equal to one of them |
| LegacyWriter.WriteSingleExample | packages/writer/src/index.test.ts:16-28 | `TEST_CODE` is written as the single frame `>>>HEAD1 >>>IDX0 TEST_CODE` |
| WriteFunction.Merge | packages/writer/src/write.ts:12 | explicit options override the defaults field by field |
| WriteFunction.WriteSpec | packages/writer/src/write.ts:6-46 | same length and order as the split codes, codes unchanged, default QR options when none are given, one common version at least every first-pass version |
| QrWriter.Merge | packages/writer/src/writer.ts:39-51 | every field the caller sets wins and every other keeps its default |
| QrWriter.Forced | packages/writer/src/writer.ts:108 | `if (version)`: a version is forced exactly when it is set and not 0 |
| QrWriter.Symbols | packages/writer/src/writer.ts:197-216 | one encoder per frame when none throws; otherwise the error of the first that throws |
| QrWriter.LaterSymbols | packages/writer/src/writer.ts:212-216 | all later encoders exactly when none of them throws; otherwise the error of the first that throws, every earlier one having succeeded |
| QrWriter.SymbolsErr | packages/writer/src/writer.ts:196-216 | `write` throws exactly when the first encoder throws at the configured version or a later one throws at the first one's version |
| QrWriter.SymbolsOneVersion | packages/writer/src/writer.ts:197-216 | in a `write` that does not throw, later frames are encoded at the first frame's version (when not 0); with an encoder that honours forced versions all frames share that version, which is the stored version on a repeated `write` |
| QrWriter.IsDark | packages/writer/src/writer.ts:129-135 | dark exactly when the row and column exist and the module is `true`; missing rows, `null` modules and columns past the end are light |
| QrWriter.TruncDiv | packages/writer/src/writer.ts:158-159 | `(a / m) >> 0`: 0 for a zero divisor, otherwise the quotient of the magnitudes with the sign of truncation toward zero |
| QrWriter.Image | packages/writer/src/writer.ts:144-176 | a `size` × `size` matrix of 0/1 values |
| QrWriter.ImageScalesModules | packages/writer/src/writer.ts:151-168 | at side `moduleSize·n + 2·margin`, every pixel of module (r, c)'s square is 0 exactly when that module is dark |
| QrWriter.ImageMarginLight | packages/writer/src/writer.ts:151-155 | every pixel in the margin is 1 |
| QrWriter.Writer.constructor | packages/writer/src/writer.ts:37-51 | options over the defaults; size and frame count unset |
| QrWriter.EncodeLater | packages/writer/src/writer.ts:212-216 | the loop over the later frames, each forced at the first encoder's version, gives exactly `LaterSymbols`: every encoder, or the first one's error |
| QrWriter.Writer.Draw | packages/writer/src/writer.ts:219-232 | `codes.map` keeps every code in place and pairs it with the image of its own encoder at the stored size, margin and module size |
| QrWriter.Writer.EncoderTo2dBinaryArray | packages/writer/src/writer.ts:125-177 | the nested loops build exactly `Image` of the stored size, margin and module size |
| QrWriter.Writer.Write | packages/writer/src/writer.ts:186-233 | a first encoder that throws leaves version, size and frame count as they were and `write` throws; otherwise the stored version becomes the first encoder's, size is `moduleSize·matrixSize + 2·margin`, the frame count is the number of tagged frames, and ready exactly when the size is non-zero; a later encoder that throws then ends `write` with that state kept, and otherwise there is one `{code, image}` per frame in order |
| QrWriter.Writer.ToCanvas | packages/writer/src/writer.ts:242-246 | throws "Run writer.write() before running writer.toCanvas()" unless size and frame count are set and non-zero |
| QrWriter.Writer.ToGif | packages/writer/src/writer.ts:310-314 | throws "Run writer.write() before running writer.toGif()" under the same condition |
| Markdown.Lookup | packages/e2e/scripts/add-benchmarks-to-markdown.js:16 | a cell is the entry's value for the key, or "" when the entry lacks it |
| Markdown.Keys | packages/e2e/scripts/add-benchmarks-to-markdown.js:7 | the columns are the first entry's keys in order |
| Markdown.LinesJoin | packages/e2e/scripts/add-benchmarks-to-markdown.js:20 | splitting at newlines undoes joining with `\n` for lines without newlines |
| Markdown.TableLines | packages/e2e/scripts/add-benchmarks-to-markdown.js:5-21 | only empty data throws; otherwise the lines are the header, the separator and one line per entry in order (2 + \|data\| lines) |
| Markdown.TableColumns | packages/e2e/scripts/add-benchmarks-to-markdown.js:10-17 | every line has one more pipe than there are columns; the separator has one `---` per column |
| Markdown.RowCells | packages/e2e/scripts/add-benchmarks-to-markdown.js:15-17 | body cell `j` is the entry's value under column `j`, or blank |
| Markdown.TableExample | packages/e2e/scripts/add-benchmarks-to-markdown.js:5-21 | a two-column example, including a missing key left blank |

## Left out

- QR encoding and decoding (`qrcode`, `@nuintun/qrcode`, `jsQR`), GIF encoding and decoding, canvas, video and DOM calls: the model takes them as function parameters or as a stream of decoded ticks.
- `toCanvas`'s `requestAnimationFrame` drawing loop and `toGif`'s frame writing: only their guards and the side they use are modelled.
- Timing, `Promise` scheduling and `Promise.all`: modelled sequentially; `Promise.all` keeps array order.
- Logging and logger set-up: no effect on results.
- Floating-point numbers: numbers are integers or NaN, and numbers are printed in decimal without exponent notation.
- QrWriter.TruncDiv: does not model the 32-bit wrap-around of `>> 0`, which only matters for quotients beyond 2^31.
- `toLowerCase` is modelled on ASCII letters only. A non-ASCII character never lowers to `g`, `i` or `f`, so `isGIF` is unaffected.
- `Object.keys` order and an explicit `undefined` in an option spread: an entry is a sequence of key/value pairs in key order, and an absent option is `None`.
- Splitter.Split: requires `splitLength >= 1`. A `splitLength` below 1 never leaves the split loop on a non-empty payload; on the empty payload the loop does not run and `split` returns `>>>HEAD0 undefined` for any `splitLength`, a case the model covers only for `splitLength >= 1`.
- LegacyWriter.Writer.Write and QrWriter.Writer.Write: require `splitLength >= 1` for the same reason, with the same exception for the empty payload.
- Strings are sequences of Unicode code points, while JavaScript's `length`, `slice` and `indexOf` count UTF-16 code units. For payloads made of characters inside the Basic Multilingual Plane the two agree; a payload with a character outside it (an emoji, say) is split by the source into more windows, possibly cutting a surrogate pair, which a Dafny `char` cannot hold. Every length-dependent result — Splitter.Shards, Splitter.ShardCount, Splitter.ShardContent, Splitter.TaggedShape, the head count and QrWriter.Writer.Write's frame count — is therefore stated for code-point strings, which matches the source on BMP-only payloads.
- WriteFunction.WriteSpec: the shared `split` that `packages/writer/src/write.ts` imports is not part of this model, so it is a parameter.
- Frames.Sort: `Array.prototype.sort(cmp)` is modelled as a stable insertion sort that takes the comparator as a parameter. The ordering results hold for frame sets where `sortFrames` is total and transitive, as the splitter's frames are; for inconsistent comparators the engine's order is not modelled.
- Capture.Run: parameterised by the head-count reader; the stream readers use `getHeadLength`.
- Exceptions inside `processFrame` of `webrtc-processor.ts` are logged and stop the loop without settling; `WebRtc.WebRTCProcessor.Read` then stays pending.
- QrOptions.Render: `create` and `toDataURL` of the `qrcode` library are total functions in the model. In the source they reject when a version the caller forces in the options is too small for a chunk, and the `write` of `packages/writer/src/index.ts`, `packages/writer/src/write.ts` and `packages/writer/index.ts` then rejects; that error path is not modelled for these three writers (LegacyWriter.Writer.Write, WriteFunction.WriteSpec, WriterFn.WriterSpec).
- The media set-up of `startVideo` and `getDisplayMedia`: its outcome is a parameter (plays, fails before the video is assigned, or `video.play()` rejects after track and video are set).
- WebRtc.WebRTCProcessor.Read: a throw after `setStreamTrack` but before `_video` is assigned (the `MediaStream` or element creation failing) is modelled as a failure before the video, leaving the track as it was, whereas the source keeps the newly set track.
- `packages/shared/src/utils.ts` and the file/data-URL conversions: browser APIs.
