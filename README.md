# parsecore CSV lexers in Dafny

This project models the tokenizer of parsecore. One scanning routine splits
delimiter-separated bytes into tokens. It looks for a comma, an LF or a CR LF
pair. The repository writes the routine four times, once per byte-window type:

- `CsvSpanLexer.TryParse` scans a contiguous `ReadOnlySpan<byte>`.
- `CsvMemoryLexer.TryParse` scans an owned `ReadOnlyMemory<byte>`.
- `CsvSequenceLexer.TryParse` has two overloads over a chunked
  `ReadOnlySequence<byte>`. One uses a `SequenceReader<byte>` cursor. The other
  walks the segments directly, using the `TryAdvance` helpers and the
  `GetPositionFast` shortcut.

`MemoryExtensions.MakeStupid` cuts a buffer into a linked list of fixed-size
segments. This is how the repository builds chunked input to compare the
lexers against each other.

The routine's behaviour is stated once, as the ghost function `CsvScan.Scan`.
It maps a window's bytes and the `isComplete` flag to one of two outcomes:

- a token type (`ColumnEnd`, `RowEnd`, `ColumnPart`, `DocumentEnd`,
  `NeedMore`) with the token bytes and the unconsumed rest of the window;
- `MalformedLineEnding`, for the exception thrown when a CR is followed by a
  byte other than LF.

Six "if and only if" lemmas in `CsvScanProperties`, one per outcome, give
`Scan` an independent reference definition. Each lexer is an imperative method
with the source's loop. Its postcondition says it returns what `Scan` returns
for the bytes its window holds.

Modules and files:

- `csv_scan.dfy`: the byte type, the delimiters, `CsvTokenType`, the result
  type, and the `Scan` and `ReaderScan` specifications.
- `csv_scan_properties.dfy`: the per-outcome characterisations, how the window
  decomposes, resuming after a fragment, and the two as-written quirks below.
- `csv_span_lexer.dfy`, `csv_memory_lexer.dfy`: the contiguous lexers.
- `read_only_memory.dfy`: `ReadOnlyMemory<byte>` as an (array, start, length)
  view, so tokens and new windows are views into the same buffer.
- `read_only_sequence.dfy`: `ReadOnlySequence<byte>` as a list of chunks with
  a start and an end `SequencePosition`. A position is an explicit (segment,
  index) pair. It also models `SequenceReader<byte>` as a class that counts
  consumed bytes. The library behaviour is modelled by its effect on offsets.
- `csv_sequence_lexer.dfy`: both chunked overloads, the `TryAdvance` helpers
  and `GetPositionFast`.
- `memory_extensions.dfy`: `MakeStupid` and `MySequenceSegment`, with the pure
  chunking function `Chunk` that specifies them.
- `csv_full_scan.dfy`: driving the scan call after call over a complete input,
  as the repository's test loops do, and the round trip.

Behaviours kept as the code has them:

- A lone CR as the last byte of the window ignores `isComplete`. It gives
  `NeedMore` when the CR is the window's first byte. Otherwise it gives
  `ColumnPart` with the CR left in the window. A complete input ending in CR
  therefore never reaches `DocumentEnd`
  (`CsvScanProperties.LoneTrailingCrIgnoresCompleteness`,
  `CsvFullScan.CompleteScanStalls`).
- The cursor overload answers `NeedMore` for an empty reader even when the
  input is complete. The contiguous lexers and the direct overload answer
  `DocumentEnd` with an empty token. The cursor overload is specified by
  `ReaderScan`, and `ReaderScanDiffers` proves that the two differ exactly on
  the empty, complete window. As a consequence, the repository's comparison
  harness would see the token types differ after every complete input that
  ends in LF and has no malformed line ending (`CsvFullScan.DriveEndingInLf`). A loop that repeats the cursor
  call until `DocumentEnd` would make no further progress there
  (`CompleteScanStalls`).

## Model

| member | source | states |
|---|---|---|
| CsvSpanLexer.TryParse | parsecore/CsvSpanLexer.cs:9-85 | The loop returns exactly `Scan(window, isComplete)`: token type, token bytes and the window left behind, or the CR-without-LF exception. |
| CsvMemoryLexer.TryParse | parsecore/CsvMemoryLexer.cs:9-85 | Same outcome and same token and rest bytes as `Scan` (so as the span lexer). The token is the view of the window's buffer from the window's start, and the new window is the view running to the window's end. NeedMore gives the default token and leaves the window as it was; a token taking the whole window is the window itself, with the default memory left. |
| CsvMemoryLexer.MemoryAgreesUnique | parsecore/CsvMemoryLexer.cs:9-85 | The agreement the memory lexer is proved to meet leaves no choice: two outcomes agreeing with the same scan of the same window are equal, views included. |
| CsvMemoryLexer.CarriageReturn | parsecore/CsvMemoryLexer.cs:25-57 | A CR after a delimiter-free run. As the last byte it gives NeedMore at index 0 (default token, window unchanged), else ColumnPart with the view before the CR and a new window that is the view from the CR to the end. Before LF it gives RowEnd with the new window the view after the LF. Before anything else it throws. Each agrees with `Scan`. |
| CsvMemoryLexer.EndOfSpan | parsecore/CsvMemoryLexer.cs:68-84 | With no delimiter in the window: if complete, DocumentEnd with the window itself as token and the default memory left; if empty, NeedMore with the default token and the window unchanged; else ColumnPart with the window itself as token and the default memory left. Each agrees with `Scan`. |
| CsvScanProperties.ScanColumnEnd | parsecore/CsvSpanLexer.cs:13-23 | ColumnEnd with token t and rest r exactly when the window is a delimiter-free t, a comma, then r. |
| CsvScanProperties.ScanRowEnd | parsecore/CsvSpanLexer.cs:25-65 | RowEnd with token t and rest r exactly when the window is a delimiter-free t, then LF or CR LF, then r. The line-end bytes belong to neither part. |
| CsvScanProperties.ScanColumnPart | parsecore/CsvSpanLexer.cs:29-84 | ColumnPart exactly for two cases. First, an incomplete non-empty window with no delimiter: the whole window is the token and the rest is empty. Second, a non-empty delimiter-free field followed by a lone final CR: the CR stays as the rest. |
| CsvScanProperties.ScanDocumentEnd | parsecore/CsvSpanLexer.cs:68-73 | DocumentEnd exactly when the input is complete and the window holds no delimiter: the whole window is the token and the rest is empty. |
| CsvScanProperties.ScanNeedMore | parsecore/CsvSpanLexer.cs:29-79 | NeedMore exactly for an empty incomplete window, or for a window holding only a CR, complete or not. The token is empty and the window is unchanged. |
| CsvScanProperties.ScanMalformed | parsecore/CsvSpanLexer.cs:46-56 | The exception comes exactly when the first delimiter is a CR followed by a byte other than LF. |
| CsvScanProperties.ScanAtCr | parsecore/CsvSpanLexer.cs:25-57 | Once the first delimiter is a CR at k, there are four outcomes: a lone CR at 0 gives NeedMore, a lone CR after a field gives ColumnPart up to the CR, CR LF gives RowEnd with rest after the LF, and anything else throws. |
| CsvScanProperties.ScanDecomposes | parsecore/CsvSpanLexer.cs:13-84 | The window is the token, then the delimiter bytes its type implies, then the rest. The token never holds a comma, CR or LF. The rest is strictly shorter unless the result is NeedMore or the window was empty. |
| CsvScanProperties.ScanAfterFragment | parsecore/CsvSpanLexer.cs:81-84 | Scanning a window that starts with a delimiter-free fragment gives the scan of what follows, with the fragment glued to the token, unless that scan is NeedMore. |
| CsvScanProperties.ScanResumes | parsecore/CsvSpanLexer.cs:39-43 | After a ColumnPart, scanning the rest extended by new bytes continues the same field: the fragment plus the next token is the token a single scan of all the bytes would give, unless the scan of the extended rest is NeedMore. |
| CsvScanProperties.LoneTrailingCrIgnoresCompleteness | parsecore/CsvSpanLexer.cs:29-44 | A window ending in a lone CR gets the same answer complete or not: NeedMore when the CR is alone, else ColumnPart leaving the CR. |
| CsvScanProperties.ReaderScanDiffers | parsecore/CsvSequenceLexer.cs:12-16 | The cursor overload's specification differs from `Scan` on exactly one input: the empty, complete window. |
| CsvScanProperties.TrailingLineEndDisagreement | parsecore/Program.cs:92-103 | For the complete input "a" LF: RowEnd "a" leaving the empty window, which the contiguous lexers answer with DocumentEnd and the cursor overload with NeedMore. |
| CsvSequenceLexer.TryParseReader | parsecore/CsvSequenceLexer.cs:10-86 | Peek/advance/read/rewind over the reader returns `ReaderScan` of the unread bytes. Except for NeedMore's default token, the token is the slice of the reader's sequence from the reader's position on entry to a normalized position, holding the token bytes. The reader is left on the scan's rest, which is the CR itself when no byte follows it. On the exception the reader has already stepped over the CR and the byte after it. |
| CsvSequenceLexer.PeekLoop | parsecore/CsvSequenceLexer.cs:23-75 | The `TryPeek` loop over a non-empty unread part, from the entry position: whichever exit it takes, the outcome is `Scan` of the unread bytes. Except for NeedMore's default token, the token is sliced from the entry position to a normalized position. The reader is left valid and on the scan's rest, or just past the byte after the CR when it throws. |
| CsvSequenceLexer.CursorAgreesUnique | parsecore/CsvSequenceLexer.cs:10-86 | The agreement the cursor overload is proved to meet leaves no choice: two outcomes agreeing with the same scan from the same reader position are equal, token slice included. |
| CsvSequenceLexer.ReturnRest | parsecore/CsvSequenceLexer.cs:76-78 | The reader ran out with no delimiter: the token is the slice from the start position to the sequence's end, DocumentEnd if complete else ColumnPart, and nothing is left unread, as `ReaderScan` says. |
| CsvSequenceLexer.ReturnTokenWithAdvance | parsecore/CsvSequenceLexer.cs:80-85 | On a comma or LF, the token is the slice from the start position to the normalized position of that byte, and the reader moves one byte past it. |
| CsvSequenceLexer.ReadCarriageReturn | parsecore/CsvSequenceLexer.cs:33-64 | On a CR, the reader steps over it and reads the next byte. With none, it rewinds onto the CR: NeedMore if the CR is at the start position, else ColumnPart. LF consumes both bytes and gives RowEnd without the CR. Any other byte throws, with the reader left just past that byte. |
| CsvSequenceLexer.GetPositionFastAgrees | parsecore/CsvSequenceLexer.cs:171-178 | Within one segment, `GetPositionFast` lands on the same byte offset as `GetPosition`. It is the same position exactly when it does not stop at the end of a segment other than the last. |
| CsvSequenceLexer.TryAdvanceSegment | parsecore/CsvSequenceLexer.cs:198-203 | Current position becomes the next one. It succeeds exactly when there is a segment, yields the rest of that segment, and moves the next position to the following segment. A miss leaves the next position as it was and yields the empty memory. |
| CsvSequenceLexer.TryAdvanceIndex | parsecore/CsvSequenceLexer.cs:180-196 | Moves the lookahead one byte on. Within the span it only increments the index, and both positions and the span stay as they are. At the span's end it crosses into index 0 of the next segment. It fails exactly when the byte was the last of the whole sequence. |
| CsvSequenceLexer.GetPositionFast | parsecore/CsvSequenceLexer.cs:171-178 | For an offset that stays within the origin's segment, as the method's own documentation demands of callers: the position in that same segment lying `offset` bytes further on. |
| CsvSequenceLexer.TryParse | parsecore/CsvSequenceLexer.cs:88-169 | Walking the segments returns exactly `Scan` of the window's bytes. The token is the slice of the same segments from the window's start to the position of the delimiter byte in its own segment, and the new window runs from a normalized position to the window's end. NeedMore gives the default token and leaves the window as it was; a token taking the whole window is the window itself, with the default sequence left. |
| CsvSequenceLexer.SequenceAgreesUnique | parsecore/CsvSequenceLexer.cs:88-169 | The agreement the direct overload is proved to meet leaves no choice: two outcomes agreeing with the same window are equal, token slice and new window included. |
| CsvSequenceLexer.ScanSpan | parsecore/CsvSequenceLexer.cs:95-149 | Scanning one segment's span after delimiter-free bytes: the first delimiter in it settles the result as `Scan` does; with none, the window is delimiter-free up to the span's end. |
| CsvSequenceLexer.NextSegmentOffset | parsecore/CsvSequenceLexer.cs:93 | After a segment's span, the window's bytes run out exactly when there is no next segment; otherwise the next segment starts at the byte just past the span. |
| CsvSequenceLexer.EndOfSequence | parsecore/CsvSequenceLexer.cs:152-168 | With no delimiter in the window: DocumentEnd with the window itself as token and the default sequence left if complete; NeedMore with the default token and the window unchanged if empty; else ColumnPart with the window itself as token and the default sequence left. |
| CsvSequenceLexer.DelimiterToken | parsecore/CsvSequenceLexer.cs:101-107 | On a comma or LF, the token is the slice from the window's start to the position of that byte in its own segment (`GetPositionFast`), and the new window starts at the normalized position one byte past it (`GetPosition`). |
| CsvSequenceLexer.CarriageReturnToken | parsecore/CsvSequenceLexer.cs:109-128 | On a CR, the lookahead crosses segment boundaries before concluding that no byte follows. |
| CsvSequenceLexer.CarriageReturnFollowedBy | parsecore/CsvSequenceLexer.cs:130-139 | The byte after the CR, possibly in the next segment: LF gives RowEnd with the new window after the LF, anything else throws. |
| CsvSequenceLexer.PartialCarriageReturn | parsecore/CsvSequenceLexer.cs:115-127 | A CR that is the last byte of the sequence gives NeedMore at the window start, else ColumnPart with the new window starting at the CR. |
| CsvSequenceLexer.CrLfAcrossSegments | parsecore/CsvSequenceLexer.cs:109-136 | Over the segments "ab\r" and "\ncd" the window holds "ab\r\ncd". Its scan is RowEnd "ab" leaving "cd", and then DocumentEnd "cd". |
| MemoryExtensions.MakeStupid | parsecore/MemoryExtensions.cs:8-33 | Segments are fresh and linked in creation order, from `first` to `last`, which ends the list. Each segment is the view of the buffer at its running index, as long as its chunk. The result spans offset 0 of `first` to the end of `last`, is a valid window, and holds exactly the buffer's bytes. |
| MemoryExtensions.CutAll | parsecore/MemoryExtensions.cs:10-30 | The loop cuts the whole buffer: the segments made are fresh, linked in order from `first` to `last`, and carry the chunks of the buffer one by one. |
| MemoryExtensions.CutNext | parsecore/MemoryExtensions.cs:15-29 | One turn cuts min(segmentLength, bytes left) bytes as a new segment at the running index, links it after the previous last, and moves the remaining memory and the running index past it, keeping the chunk list a prefix of `Chunk` of the buffer. |
| MemoryExtensions.Link | parsecore/MemoryExtensions.cs:25-29 | Hanging a new segment after the last one extends the linked list by that segment and changes no other link. |
| MemoryExtensions.CutComplete | parsecore/MemoryExtensions.cs:13-32 | When no bytes are left, the chunks cut are all of `Chunk` of the buffer, and the sequence over them is a valid window holding the buffer's bytes; each segment shows its chunk. |
| MemoryExtensions.SegmentSpan | parsecore/MemoryExtensions.cs:15-19 | A segment carried at chunk k shows exactly the bytes of chunk k. |
| MemoryExtensions.MySequenceSegment.constructor | parsecore/MemoryExtensions.cs:37-41 | A segment records its memory and running index and has no successor yet. |
| MemoryExtensions.MySequenceSegment.SetNext | parsecore/MemoryExtensions.cs:43-46 | Links the given segment as the successor. |
| MemoryExtensions.ChunkFlatten | parsecore/MemoryExtensions.cs:13-30 | Concatenating the chunks in order gives back the buffer. |
| MemoryExtensions.ChunkLengths | parsecore/MemoryExtensions.cs:13-19 | Chunk k holds min(segmentLength, bytes remaining) bytes. Every chunk but the last is full, and none is empty. |
| MemoryExtensions.ChunkRunningIndex | parsecore/MemoryExtensions.cs:11-18 | The running index of chunk k is min(k * segmentLength, buffer length). |
| MemoryExtensions.ChunkedWindow | parsecore/MemoryExtensions.cs:32 | The sequence from offset 0 of the first chunk to the end of the last is a valid window whose bytes are the buffer, so every chunked lexer scans the same bytes as the span lexer. |
| CsvFullScan.ScanAllRebuilds | parsecore/Program.cs:124-147 | Repeating the scan on a complete input until it stops reproduces the input: the tokens with their consumed delimiters, then whatever was left. |
| CsvFullScan.ScanAllSeparators | parsecore/Program.cs:124-147 | In such a drive every token is delimiter-free and every consumed separator matches its token type: a comma, LF or CR LF, or nothing. |
| CsvFullScan.ScanAllEnds | parsecore/Program.cs:117-120 | A drive stops in one of three ways: on DocumentEnd with nothing left, on NeedMore with the lone final CR left, or on the exception with the malformed line ending still in the window. |
| CsvFullScan.ScanAllStopsOnce | parsecore/Program.cs:131-145 | No step of a drive before its last is DocumentEnd or NeedMore. |
| CsvFullScan.DriveEndingInLf | parsecore/Program.cs:92-103 | For every complete input ending in LF that is not malformed, the drive ends with a RowEnd and then a DocumentEnd with an empty token, nothing left. The cursor overload answers that empty, complete window with NeedMore, so the comparison harness sees the token types differ. |
| CsvFullScan.ScanEndingInLf | parsecore/CsvSpanLexer.cs:13-65 | One scan of a complete window ending in LF is a ColumnEnd or RowEnd; what it leaves still ends in LF, or is empty after a RowEnd. |
| CsvFullScan.CompleteScanStalls | parsecore/Program.cs:55-63 | On complete input, a lone CR (all lexers) and an empty reader (cursor overload) both give NeedMore with the window unchanged. |
| CsvFullScan.ThreeTokenDocument | parsecore/CsvSpanLexer.cs:13-73 | "abc,def\r\nghi", complete, scans as ColumnEnd "abc", RowEnd "def" (CR LF consumed), DocumentEnd "ghi". |

## Left out

- `MappedMemoryManager` (memory-mapped file, raw pointers, `Pin`/`Unpin`, `Dispose`) is not part of this model. It is operating-system I/O with no logic to state.
- The benchmark and test driver in `Program.cs` (BenchmarkDotNet, console output, UTF-8 decoding, the file path) is not modelled. Its loops appear only as the `CsvFullScan` drive.
- The bit-31 flag that `GetPositionFast` masks out of a `SequencePosition` integer is not modelled. A position is an explicit (segment, index) pair.
- `ReadOnlySequence`, `SequenceReader` and `ReadOnlyMemory` library internals (`TryGet`, `Slice`, `GetPosition`, position equality) are modelled only by their effect on offsets. `GetPosition` is modelled as a seek that moves past a segment end, except at the last segment.
- CsvSequenceLexer.TryParse: requires a window whose segments are all non-empty, whose start is normalised and whose end is the end of the last segment. The source would index `span[0]` of an empty middle segment during the CR lookahead. Sequences with other end positions are not modelled.
- CsvSequenceLexer.TryParseReader: requires the same kind of window for the reader's sequence.
- MemoryExtensions.MakeStupid: requires a non-empty buffer and a positive `segmentLength`. With an empty buffer the source dereferences a null `last`. With `segmentLength == 0` its loop never ends, and with a negative one `memory.Slice(0, partLen)` throws. None of these failures is modelled as a result.
- CsvSpanLexer.TryParse: the span's aliasing is not captured. Token and window are byte values, and the by-ref window is returned as the result's rest. `CsvMemoryLexer` keeps the views into one buffer.
- Integer widths (`int` indexes, `long` running indexes) are unbounded here. Buffers past 2^31 bytes are not modelled.
- The exception's message text and the `AggressiveOptimization`/`AggressiveInlining` attributes are left out.
- Quoting (section 2 of RFC 4180) is not implemented by the source either. `"` is an ordinary byte.
