/** CsvSequenceLexer: the scan over a chunked sequence, once through a
    SequenceReader cursor and once by walking the segments directly. */
module CsvSequenceLexer {
  import opened CsvScan
  import opened ReadOnlySequences
  import CsvScanProperties

  /** Outcome of the cursor overload: the new window is the reader itself. */
  datatype CursorResult =
    | CursorToken(kind: CsvTokenType, token: ReadOnlySequence)
    | CursorMalformed

  /** Outcome of the direct-traversal overload: token and new window. */
  datatype SequenceResult =
    | SequenceToken(kind: CsvTokenType, token: ReadOnlySequence, rest: ReadOnlySequence)
    | SequenceMalformed

  /** A cursor outcome agrees with the scan result `s` of `window`, the
      reader's bytes after the first `consumed` of `sequence`: the same outcome,
      a token holding the same bytes, and the reader left with `unread` equal to
      the scan's rest. NeedMore gives the default token; any other token is the
      slice of `sequence` from the reader's position on entry (the normalized
      position `consumed` bytes into the window) to a normalized position. On
      the exception the reader has stepped over the CR and read the byte after
      it, so `unread` starts just past that byte. */
  ghost predicate CursorAgrees(r: CursorResult, s: ScanResult, window: seq<byte>, sequence: ReadOnlySequence,
                               consumed: nat, unread: seq<byte>)
    requires sequence.Valid()
  {
    (r.CursorMalformed? <==> s.MalformedLineEnding?)
    && (r.CursorMalformed? ==>
          FirstDelimiter(window) + 2 <= |window| && unread == window[FirstDelimiter(window) + 2..])
    && (r.CursorToken? ==>
          && r.kind == s.kind
          && r.token.Valid() && r.token.Contents() == s.token
          && (if s.kind == NeedMore then r.token == Default
              else
                && r.token.chunks == sequence.chunks && r.token.chunks != []
                && Normalized(r.token.chunks, r.token.start) && Normalized(r.token.chunks, r.token.end)
                && Offset(r.token.chunks, r.token.start) == Offset(sequence.chunks, sequence.start) + consumed)
          && unread == s.rest)
  }

  /** A direct-traversal outcome agrees with what Scan returns for the bytes of
      `sequence`: the same outcome, and a token and new window holding the
      token and rest bytes. NeedMore gives the default token and leaves the
      window as it was; a token taking the whole window is the window itself,
      with the default sequence left; otherwise the token is the slice of the
      same segments from the window's start to the position of the delimiter
      byte in that byte's own segment, and the new window runs to the window's
      end. */
  ghost predicate SequenceAgrees(r: SequenceResult, sequence: ReadOnlySequence, isComplete: bool)
    requires sequence.Valid()
  {
    var s := Scan(sequence.Contents(), isComplete);
    (r.SequenceMalformed? <==> s.MalformedLineEnding?)
    && (r.SequenceToken? ==>
          && r.kind == s.kind
          && r.token.Valid() && r.rest.IsWindow()
          && r.token.Contents() == s.token && r.rest.Contents() == s.rest
          && (if s.kind == NeedMore then r.token == Default && r.rest == sequence
              else if TakesWindow(s) then r.token == sequence && r.rest == Default
              else
                && r.token.chunks == sequence.chunks && r.token.chunks != []
                && r.token.start == sequence.start
                && r.token.end.index < |r.token.chunks[r.token.end.segment]|
                && r.rest.chunks == sequence.chunks && r.rest.end == sequence.end))
  }

  /** The cursor agreement leaves no choice: two outcomes that agree with the
      same scan, from the same reader position, are the same outcome with the
      same token slice. */
  lemma CursorAgreesUnique(r1: CursorResult, r2: CursorResult, s: ScanResult, window: seq<byte>, sequence: ReadOnlySequence,
                           consumed: nat, unread: seq<byte>)
    requires sequence.Valid()
    requires CursorAgrees(r1, s, window, sequence, consumed, unread) && CursorAgrees(r2, s, window, sequence, consumed, unread)
    ensures r1 == r2
  {
    if r1.CursorToken? && s.kind != NeedMore {
      var chunks := sequence.chunks;
      NormalizedUnique(chunks, r1.token.start, r2.token.start);
      ContentsSpan(r1.token);
      ContentsSpan(r2.token);
      NormalizedUnique(chunks, r1.token.end, r2.token.end);
    }
  }

  /** The direct-traversal agreement leaves no choice: two outcomes that agree
      with the same window are the same outcome, with the same token slice and
      the same new window. */
  lemma SequenceAgreesUnique(r1: SequenceResult, r2: SequenceResult, sequence: ReadOnlySequence, isComplete: bool)
    requires sequence.Valid()
    requires SequenceAgrees(r1, sequence, isComplete) && SequenceAgrees(r2, sequence, isComplete)
    ensures r1 == r2
  {
    var s := Scan(sequence.Contents(), isComplete);
    if r1.SequenceToken? && s.kind != NeedMore && !TakesWindow(s) {
      var chunks := sequence.chunks;
      ContentsSpan(r1.token);
      ContentsSpan(r2.token);
      NormalizedUnique(chunks, r1.token.end, r2.token.end);
      ContentsSpan(r1.rest);
      ContentsSpan(r2.rest);
      NormalizedUnique(chunks, r1.rest.start, r2.rest.start);
    }
  }

  // ---------------------------------------------------------------------------
  // The cursor overload

  /** The cursor overload: peeks, advances, reads and rewinds `reader`. The
      token is a slice of the reader's sequence and the reader ends where the
      window left by ReaderScan begins. */
  method TryParseReader(reader: SequenceReader, isComplete: bool) returns (r: CursorResult)
    requires reader.Valid()
    modifies reader
    ensures reader.Valid()
    ensures CursorAgrees(r, ReaderScan(old(reader.Unread()), isComplete), old(reader.Unread()), reader.sequence, old(reader.consumed), reader.Unread())
  {
    if reader.Remaining() == 0 {
      return CursorToken(NeedMore, Default);
    }
    ghost var w := reader.Unread();
    ghost var base := reader.consumed;
    var start := reader.Position();
    assert w != [] && reader.sequence.chunks != [];
    assert ReaderScan(w, isComplete) == Scan(w, isComplete);
    r := PeekLoop(reader, start, isComplete, w, base);
  }

  /** The cursor overload's loop: from `start`, `base` bytes into the window,
      peeks at each byte; a comma or LF leaves by `ReturnTokenWithAdvance`, a
      CR by `ReadCarriageReturn`, and running out by `ReturnRest`. */
  method PeekLoop(reader: SequenceReader, start: SequencePosition, isComplete: bool,
                  ghost w: seq<byte>, ghost base: nat)
    returns (r: CursorResult)
    requires reader.Valid() && reader.sequence.chunks != []
    requires ValidPosition(reader.sequence.chunks, start) && Normalized(reader.sequence.chunks, start)
    requires Offset(reader.sequence.chunks, start) == Offset(reader.sequence.chunks, reader.sequence.start) + base
    requires base == reader.consumed && w == reader.sequence.Contents()[base..] && w != []
    modifies reader
    ensures reader.Valid()
    ensures CursorAgrees(r, Scan(w, isComplete), w, reader.sequence, base, reader.Unread())
  {
    var found, x := reader.TryPeek();
    while found
      invariant reader.Valid() && base <= reader.consumed <= base + |w|
      invariant w == reader.sequence.Contents()[base..]
      invariant NoDelimiter(w[..reader.consumed - base])
      invariant found ==> reader.consumed < base + |w| && x == w[reader.consumed - base]
      invariant !found ==> reader.consumed == base + |w|
      decreases base + |w| - reader.consumed
    {
      if x == COMMA {
        r := ReturnTokenWithAdvance(reader, start, ColumnEnd, isComplete, w, base);
        return;
      }
      if x == CR {
        r := ReadCarriageReturn(reader, start, isComplete, w, base);
        return;
      }
      if x == LF {
        r := ReturnTokenWithAdvance(reader, start, RowEnd, isComplete, w, base);
        return;
      }
      CsvScanProperties.NoDelimiterExtend(w, reader.consumed - base);
      reader.Advance(1);
      found, x := reader.TryPeek();
    }
    assert w[..|w|] == w;
    r := ReturnRest(reader, start, isComplete, w, base);
  }

  /** The cursor overload's fall-through return: the reader ran out without
      meeting a delimiter; the token is the slice from `start` to the end of
      the sequence and the reader stays at the end. */
  method ReturnRest(reader: SequenceReader, start: SequencePosition, isComplete: bool,
                    ghost w: seq<byte>, ghost base: nat)
    returns (r: CursorResult)
    requires reader.Valid() && reader.sequence.chunks != []
    requires ValidPosition(reader.sequence.chunks, start) && Normalized(reader.sequence.chunks, start)
    requires Offset(reader.sequence.chunks, start) == Offset(reader.sequence.chunks, reader.sequence.start) + base
    requires base <= reader.consumed && w == reader.sequence.Contents()[base..]
    requires reader.consumed == base + |w| && w != [] && NoDelimiter(w)
    ensures CursorAgrees(r, Scan(w, isComplete), w, reader.sequence, base, reader.Unread())
  {
    assert reader.Unread() == [];
    var token := reader.sequence.SliceFrom(start);
    SliceContents(reader.sequence, start, start);
    CsvScanProperties.FirstDelimiterIs(w, |w|);
    return CursorToken(if isComplete then DocumentEnd else ColumnPart, token);
  }

  /** The cursor overload's `returnTokenWithAdvance` exit, reached on a comma
      or LF: the reader sits on that byte after a delimiter-free run; the token
      runs from `start` to it and the reader is advanced one byte past it. */
  method ReturnTokenWithAdvance(reader: SequenceReader, start: SequencePosition, tokenType: CsvTokenType,
                                isComplete: bool, ghost w: seq<byte>, ghost base: nat)
    returns (r: CursorResult)
    requires reader.Valid() && reader.sequence.chunks != []
    requires ValidPosition(reader.sequence.chunks, start) && Normalized(reader.sequence.chunks, start)
    requires Offset(reader.sequence.chunks, start) == Offset(reader.sequence.chunks, reader.sequence.start) + base
    requires base <= reader.consumed && w == reader.sequence.Contents()[base..]
    requires reader.consumed < base + |w|
    requires NoDelimiter(w[..reader.consumed - base])
    requires (tokenType == ColumnEnd && w[reader.consumed - base] == COMMA)
          || (tokenType == RowEnd && w[reader.consumed - base] == LF)
    modifies reader
    ensures reader.Valid()
    ensures CursorAgrees(r, Scan(w, isComplete), w, reader.sequence, base, reader.Unread())
  {
    ghost var i := reader.consumed - base;
    var end := reader.Position();
    reader.Advance(1);
    var token := reader.sequence.Slice(start, end);
    ReaderSlice(reader.sequence, start, end, base, i);
    CsvScanProperties.FirstDelimiterIs(w, i);
    assert reader.Unread() == w[i + 1..];
    return CursorToken(tokenType, token);
  }

  /** The cursor overload's CR branch: the reader sits on a CR after a
      delimiter-free run. It steps over the CR and reads the next byte; with
      none, it rewinds onto the CR and answers NeedMore when the CR is at the
      start, else ColumnPart up to the CR; an LF gives RowEnd with both bytes
      consumed; any other byte throws. */
  method ReadCarriageReturn(reader: SequenceReader, start: SequencePosition,
                            isComplete: bool, ghost w: seq<byte>, ghost base: nat)
    returns (r: CursorResult)
    requires reader.Valid() && reader.sequence.chunks != []
    requires ValidPosition(reader.sequence.chunks, start) && Normalized(reader.sequence.chunks, start)
    requires Offset(reader.sequence.chunks, start) == Offset(reader.sequence.chunks, reader.sequence.start) + base
    requires base <= reader.consumed && w == reader.sequence.Contents()[base..]
    requires reader.consumed < base + |w|
    requires NoDelimiter(w[..reader.consumed - base]) && w[reader.consumed - base] == CR
    modifies reader
    ensures reader.Valid()
    ensures CursorAgrees(r, Scan(w, isComplete), w, reader.sequence, base, reader.Unread())
  {
    ghost var i := reader.consumed - base;
    var end := reader.Position();
    var token := reader.sequence.Slice(start, end);
    ReaderSlice(reader.sequence, start, end, base, i);
    CsvScanProperties.FirstDelimiterIs(w, i);

    reader.Advance(1);
    var more, x := reader.TryRead();
    if !more {
      // ran out of data: the CR may yet be followed by LF
      reader.Rewind(1);
      assert reader.Unread() == w[i..];
      if end == start {
        return CursorToken(NeedMore, Default);
      }
      assert i != 0 by {
        if i == 0 { NormalizedUnique(reader.sequence.chunks, end, start); }
      }
      return CursorToken(ColumnPart, token);
    }
    assert x == w[i + 1] && reader.Unread() == w[i + 2..];
    if x == LF {
      return CursorToken(RowEnd, token);
    }
    return CursorMalformed;
  }

  /** The reader's token: the slice between the positions of two consumed
      counts holds the unread bytes between them. */
  lemma ReaderSlice(sequence: ReadOnlySequence, start: SequencePosition, end: SequencePosition, base: nat, i: nat)
    requires sequence.IsWindow() && sequence.chunks != []
    requires ValidPosition(sequence.chunks, start) && ValidPosition(sequence.chunks, end)
    requires Offset(sequence.chunks, start) == Offset(sequence.chunks, sequence.start) + base
    requires Offset(sequence.chunks, end) == Offset(sequence.chunks, start) + i
    requires base + i <= sequence.Length()
    ensures sequence.Slice(start, end).Valid()
    ensures sequence.Slice(start, end).Contents() == sequence.Contents()[base..][..i]
  {
    SliceContents(sequence, start, end);
    assert sequence.Contents()[base..][..i] == sequence.Contents()[base..base + i];
  }

  // ---------------------------------------------------------------------------
  // The direct-traversal overload

  /** `GetPositionFast(offset, origin)`: `offset` bytes further within the
      segment of `origin`, without looking at the segments. Callers keep the
      offset within that segment; the segments are a ghost parameter, only
      there to state that. */
  function GetPositionFast(ghost chunks: seq<seq<byte>>, offset: nat, origin: SequencePosition): (p: SequencePosition)
    requires ValidPosition(chunks, origin) && origin.index + offset <= |chunks[origin.segment]|
    ensures p.segment == origin.segment
    ensures ValidPosition(chunks, p) && Offset(chunks, p) == Offset(chunks, origin) + offset
  {
    SequencePosition(origin.segment, origin.index + offset)
  }

  /** GetPositionFast lands on the same byte offset as GetPosition whenever it
      stays within the segment, and is the same position exactly when it does
      not reach the end of a segment other than the last. */
  lemma GetPositionFastAgrees(sequence: ReadOnlySequence, offset: nat, origin: SequencePosition)
    requires sequence.IsWindow() && sequence.chunks != []
    requires ValidPosition(sequence.chunks, origin)
    requires origin.index + offset <= |sequence.chunks[origin.segment]|
    ensures ValidPosition(sequence.chunks, GetPositionFast(sequence.chunks, offset, origin))
    ensures Offset(sequence.chunks, GetPositionFast(sequence.chunks, offset, origin)) == Offset(sequence.chunks, origin) + offset
    ensures Offset(sequence.chunks, origin) + offset <= |Flatten(sequence.chunks)|
    ensures GetPositionFast(sequence.chunks, offset, origin) == sequence.GetPosition(offset, origin)
        <==> (origin.index + offset < |sequence.chunks[origin.segment]|
              || origin.segment + 1 == |sequence.chunks|)
  {
    ChunkInFlatten(sequence.chunks, origin.segment);
    var p := sequence.GetPosition(offset, origin);
    if origin.index + offset == |sequence.chunks[origin.segment]| && origin.segment + 1 < |sequence.chunks| {
      // GetPosition is normalized, so it cannot sit at this segment's end
      assert p != GetPositionFast(sequence.chunks, offset, origin);
    }
  }

  /** What a TryAdvance leaves behind: `memory` is the rest of the segment at
      `cur` and `next` is the start of the segment after it. */
  predicate AtSegment(chunks: seq<seq<byte>>, cur: SequencePosition, next: Option<SequencePosition>, memory: seq<byte>) {
    ValidPosition(chunks, cur) && memory == chunks[cur.segment][cur.index..] && next == NextSegment(chunks, cur.segment)
  }

  /** The two-reference `TryAdvance`: `curPosition := nextPosition` and the
      library's TryGet on `nextPosition`, which yields the rest of that
      position's segment and moves `nextPosition` to the following segment. */
  method TryAdvanceSegment(sequence: ReadOnlySequence, nextPosition: Option<SequencePosition>)
    returns (found: bool, nextPosition': Option<SequencePosition>, curPosition: Option<SequencePosition>, memory: seq<byte>)
    requires sequence.IsWindow()
    requires nextPosition.Some? ==> ValidPosition(sequence.chunks, nextPosition.value)
    ensures curPosition == nextPosition
    ensures found <==> nextPosition.Some?
    ensures found ==> AtSegment(sequence.chunks, nextPosition.value, nextPosition', memory)
    ensures !found ==> nextPosition' == nextPosition && memory == []
  {
    curPosition := nextPosition;
    var got := sequence.TryGet(nextPosition);
    match got
    case Some(part) =>
      found, memory, nextPosition' := true, part.0, part.1;
    case None =>
      found, memory, nextPosition' := false, [], nextPosition;
  }

  /** The six-reference `TryAdvance`: moves one byte on from index `i` of the
      segment part at `curPosition`, to the next index of this span if it has
      one, else to index 0 of the next segment's span. It fails exactly when
      the byte at `i` is the last of the whole sequence. */
  method TryAdvanceIndex(sequence: ReadOnlySequence, nextPosition: Option<SequencePosition>,
                         curPosition: Option<SequencePosition>, span: seq<byte>, i: nat)
    returns (found: bool, nextPosition': Option<SequencePosition>, curPosition': Option<SequencePosition>,
             span': seq<byte>, i': nat)
    requires sequence.IsWindow() && sequence.chunks != []
    requires curPosition.Some? && AtSegment(sequence.chunks, curPosition.value, nextPosition, span)
    requires i < |span|
    ensures found <==> Offset(sequence.chunks, curPosition.value) + i + 1 < |Flatten(sequence.chunks)|
    ensures found ==>
      && curPosition'.Some? && AtSegment(sequence.chunks, curPosition'.value, nextPosition', span')
      && i' < |span'|
      && Offset(sequence.chunks, curPosition'.value) + i' == Offset(sequence.chunks, curPosition.value) + i + 1
    ensures found && i + 1 == |span| ==> curPosition' == nextPosition && i' == 0
    ensures i + 1 < |span| ==>
      found && curPosition' == curPosition && nextPosition' == nextPosition && span' == span && i' == i + 1
  {
    SegmentEnd(sequence.chunks, curPosition.value);
    i' := i + 1;
    nextPosition', curPosition', span' := nextPosition, curPosition, span;
    if i' != |span| {
      return true, nextPosition', curPosition', span', i';
    }
    var memory;
    found, nextPosition', curPosition', memory := TryAdvanceSegment(sequence, nextPosition);
    if found {
      ChunkInFlatten(sequence.chunks, curPosition'.value.segment);
      span' := memory;
      i' := 0;
      return true, nextPosition', curPosition', span', i';
    }
    return false, nextPosition', curPosition', span', i';
  }

  /** The direct-traversal overload: walks the segments of the window with the
      TryAdvance helpers and returns what Scan returns for the window's bytes;
      token and new window are slices of the same segments, or the default
      sequence. */
  method TryParse(sequence: ReadOnlySequence, isComplete: bool) returns (r: SequenceResult)
    requires sequence.IsWindow()
    ensures SequenceAgrees(r, sequence, isComplete)
  {
    ghost var w := sequence.Contents();
    ghost var chunks := sequence.chunks;
    ghost var base := if chunks == [] then 0 else Offset(chunks, sequence.start);
    if chunks != [] {
      WindowLength(sequence);
    }
    ghost var scanned: nat := 0;

    var nextPosition := sequence.Start();
    var found, curPosition, memory;
    found, nextPosition, curPosition, memory := TryAdvanceSegment(sequence, nextPosition);
    while found
      invariant scanned <= |w| && NoDelimiter(w[..scanned])
      invariant !found ==> scanned == |w|
      invariant found ==>
        && chunks != [] && curPosition.Some?
        && AtSegment(chunks, curPosition.value, nextPosition, memory)
        && Offset(chunks, curPosition.value) == base + scanned
      decreases if found then |chunks| - curPosition.value.segment else 0
    {
      var settled := ScanSpan(sequence, isComplete, nextPosition, curPosition.value, memory, w, scanned);
      if settled.Some? {
        return settled.value;
      }
      NextSegmentOffset(sequence, curPosition.value, memory, w, scanned);
      scanned := scanned + |memory|;
      found, nextPosition, curPosition, memory := TryAdvanceSegment(sequence, nextPosition);
    }
    assert w[..|w|] == w;
    r := EndOfSequence(sequence, isComplete);
  }

  /** The `for` loop over the span of one segment part, at `cur`, that follows
      `scanned` delimiter-free bytes of the window: the first delimiter in the
      span settles the outcome; with none (no result), the bytes up to the
      span's end are delimiter-free. */
  method ScanSpan(sequence: ReadOnlySequence, isComplete: bool, nextPosition: Option<SequencePosition>,
                  cur: SequencePosition, span: seq<byte>, ghost w: seq<byte>, ghost scanned: nat)
    returns (r: Option<SequenceResult>)
    requires sequence.IsWindow() && sequence.chunks != [] && w == sequence.Contents()
    requires AtSegment(sequence.chunks, cur, nextPosition, span)
    requires Offset(sequence.chunks, cur) == Offset(sequence.chunks, sequence.start) + scanned
    requires scanned <= |w| && NoDelimiter(w[..scanned])
    ensures r.Some? ==> SequenceAgrees(r.value, sequence, isComplete)
    ensures r.None? ==> scanned + |span| <= |w| && NoDelimiter(w[..scanned + |span|])
  {
    var i := 0;
    while i < |span|
      invariant i <= |span| && scanned + i <= |w|
      invariant NoDelimiter(w[..scanned + i])
    {
      var x := span[i];
      SpanByte(sequence, cur, span, i, w, scanned);
      if x == COMMA {
        var token := DelimiterToken(sequence, isComplete, cur, i, ColumnEnd, w, scanned + i);
        return Some(token);
      }
      if x == CR {
        var token := CarriageReturnToken(sequence, isComplete, nextPosition, cur, span, i, w, scanned + i);
        return Some(token);
      }
      if x == LF {
        var token := DelimiterToken(sequence, isComplete, cur, i, RowEnd, w, scanned + i);
        return Some(token);
      }
      CsvScanProperties.NoDelimiterExtend(w, scanned + i);
      i := i + 1;
    }
    return None;
  }

  /** After the segment part at `cur` has been scanned, the window's bytes run
      out exactly when there is no next segment, and the next segment starts
      at the offset just past the part. */
  lemma NextSegmentOffset(sequence: ReadOnlySequence, cur: SequencePosition, span: seq<byte>, w: seq<byte>, scanned: nat)
    requires sequence.IsWindow() && sequence.chunks != []
    requires ValidPosition(sequence.chunks, cur) && span == sequence.chunks[cur.segment][cur.index..]
    requires w == sequence.Contents()
    requires Offset(sequence.chunks, cur) == Offset(sequence.chunks, sequence.start) + scanned
    ensures scanned + |span| <= |w|
    ensures NextSegment(sequence.chunks, cur.segment).None? ==> scanned + |span| == |w|
    ensures NextSegment(sequence.chunks, cur.segment).Some? ==>
      var next := NextSegment(sequence.chunks, cur.segment).value;
      ValidPosition(sequence.chunks, next)
      && Offset(sequence.chunks, next) == Offset(sequence.chunks, sequence.start) + scanned + |span|
  {
    WindowLength(sequence);
    SegmentEnd(sequence.chunks, cur);
  }

  /** Byte `i` of the segment part at `cur` is the byte of the window that many
      bytes after the offset of `cur`. */
  lemma SpanByte(sequence: ReadOnlySequence, cur: SequencePosition, span: seq<byte>, i: nat, w: seq<byte>, scanned: nat)
    requires sequence.IsWindow() && sequence.chunks != []
    requires ValidPosition(sequence.chunks, cur) && span == sequence.chunks[cur.segment][cur.index..] && i < |span|
    requires w == sequence.Contents()
    requires Offset(sequence.chunks, cur) == Offset(sequence.chunks, sequence.start) + scanned
    ensures scanned + i < |w| && span[i] == w[scanned + i]
  {
    WindowLength(sequence);
    ByteAt(sequence.chunks, cur, i);
  }

  /** The direct overload's end of input: no delimiter in the whole window.
      Complete input makes the window the final token; otherwise an empty window
      needs more bytes and a non-empty one is a fragment. */
  method EndOfSequence(sequence: ReadOnlySequence, isComplete: bool) returns (r: SequenceResult)
    requires sequence.IsWindow() && NoDelimiter(sequence.Contents())
    ensures SequenceAgrees(r, sequence, isComplete)
  {
    ghost var w := sequence.Contents();
    assert w[..|w|] == w;
    CsvScanProperties.FirstDelimiterIs(w, |w|);
    if isComplete {
      return SequenceToken(DocumentEnd, sequence, Default);
    }
    if sequence.Length() == 0 {
      return SequenceToken(NeedMore, Default, sequence);
    }
    return SequenceToken(ColumnPart, sequence, Default);
  }

  /** The direct overload's comma and LF branches: a comma or LF at index `i` of
      the segment part at `cur` ends the token, which runs from the window's
      start to it (GetPositionFast); the new window starts just past it
      (GetPosition). */
  method DelimiterToken(sequence: ReadOnlySequence, isComplete: bool, cur: SequencePosition, i: nat,
                        tokenType: CsvTokenType, ghost w: seq<byte>, ghost k: nat)
    returns (r: SequenceResult)
    requires sequence.IsWindow() && sequence.chunks != []
    requires ValidPosition(sequence.chunks, cur) && cur.index + i < |sequence.chunks[cur.segment]|
    requires w == sequence.Contents() && k < |w|
    requires Offset(sequence.chunks, cur) + i == Offset(sequence.chunks, sequence.start) + k
    requires NoDelimiter(w[..k])
    requires (tokenType == ColumnEnd && w[k] == COMMA) || (tokenType == RowEnd && w[k] == LF)
    ensures SequenceAgrees(r, sequence, isComplete)
  {
    WindowLength(sequence);
    var end := GetPositionFast(sequence.chunks, i, cur);
    var next := sequence.GetPosition(i + 1, cur);
    CsvScanProperties.FirstDelimiterIs(w, k);
    assert Scan(w, isComplete) == Scanned(tokenType, w[..k], w[k + 1..]);
    SlicesAgree(sequence, isComplete, tokenType, end, next, k, k + 1);
    return SequenceToken(tokenType, sequence.Slice(sequence.start, end), sequence.SliceFrom(next));
  }

  /** The direct overload's CR branch: a CR at index `i` of the segment part at
      `cur`. The lookahead moves to the next index, crossing into the next
      segment when the CR ends one (TryAdvanceIndex); with no byte left the
      answer is PartialCarriageReturn's, otherwise CarriageReturnFollowedBy's. */
  method CarriageReturnToken(sequence: ReadOnlySequence, isComplete: bool, nextPosition: Option<SequencePosition>,
                             cur: SequencePosition, span: seq<byte>, i: nat, ghost w: seq<byte>, ghost k: nat)
    returns (r: SequenceResult)
    requires sequence.IsWindow() && sequence.chunks != []
    requires AtSegment(sequence.chunks, cur, nextPosition, span) && i < |span|
    requires w == sequence.Contents() && k < |w|
    requires Offset(sequence.chunks, cur) + i == Offset(sequence.chunks, sequence.start) + k
    requires NoDelimiter(w[..k]) && w[k] == CR
    ensures SequenceAgrees(r, sequence, isComplete)
  {
    var crlfPosition := GetPositionFast(sequence.chunks, i, cur);
    WindowLength(sequence);
    var more, nextPosition', curPosition', span', i' := TryAdvanceIndex(sequence, nextPosition, Some(cur), span, i);
    if !more {
      // ran out of data: the CR may yet be followed by LF
      r := PartialCarriageReturn(sequence, isComplete, crlfPosition, w, k);
      return;
    }
    r := CarriageReturnFollowedBy(sequence, isComplete, crlfPosition, curPosition'.value, span', i', w, k);
  }

  /** The CR lookahead finding a byte: the byte after the CR at `crlfPosition`
      is at index `i` of the segment part at `after`. An LF gives RowEnd, the
      token running up to the CR and the new window starting past the LF; any
      other byte throws. */
  method CarriageReturnFollowedBy(sequence: ReadOnlySequence, isComplete: bool, crlfPosition: SequencePosition,
                                  after: SequencePosition, span: seq<byte>, i: nat, ghost w: seq<byte>, ghost k: nat)
    returns (r: SequenceResult)
    requires sequence.IsWindow() && sequence.chunks != []
    requires ValidPosition(sequence.chunks, crlfPosition)
    requires crlfPosition.index < |sequence.chunks[crlfPosition.segment]|
    requires ValidPosition(sequence.chunks, after) && span == sequence.chunks[after.segment][after.index..] && i < |span|
    requires w == sequence.Contents() && k + 1 < |w|
    requires Offset(sequence.chunks, crlfPosition) == Offset(sequence.chunks, sequence.start) + k
    requires Offset(sequence.chunks, after) + i == Offset(sequence.chunks, sequence.start) + k + 1
    requires NoDelimiter(w[..k]) && w[k] == CR
    ensures SequenceAgrees(r, sequence, isComplete)
  {
    WindowLength(sequence);
    ByteAt(sequence.chunks, after, i);
    CsvScanProperties.ScanAtCr(w, k, isComplete);
    if span[i] == LF {
      var next := sequence.GetPosition(i + 1, after);
      SlicesAgree(sequence, isComplete, RowEnd, crlfPosition, next, k, k + 2);
      return SequenceToken(RowEnd, sequence.Slice(sequence.start, crlfPosition), sequence.SliceFrom(next));
    }
    return SequenceMalformed;
  }

  /** A token cut before the delimiter byte at `end`, `k` bytes into the
      window, with the new window from the normalized position `next`, `m`
      bytes into it: when Scan cuts the window's bytes there, this result is
      the one the direct overload must give. */
  lemma SlicesAgree(sequence: ReadOnlySequence, isComplete: bool, kind: CsvTokenType,
                    end: SequencePosition, next: SequencePosition, k: nat, m: nat)
    requires sequence.IsWindow() && sequence.chunks != []
    requires ValidPosition(sequence.chunks, end) && end.index < |sequence.chunks[end.segment]|
    requires ValidPosition(sequence.chunks, next) && Normalized(sequence.chunks, next)
    requires Offset(sequence.chunks, end) == Offset(sequence.chunks, sequence.start) + k
    requires Offset(sequence.chunks, next) == Offset(sequence.chunks, sequence.start) + m
    requires k <= m < sequence.Length() || (k < m <= sequence.Length())
    requires kind == ColumnEnd || kind == RowEnd || (kind == ColumnPart && m < sequence.Length())
    requires Scan(sequence.Contents(), isComplete)
          == Scanned(kind, sequence.Contents()[..k], sequence.Contents()[m..])
    ensures SequenceAgrees(SequenceToken(kind, sequence.Slice(sequence.start, end), sequence.SliceFrom(next)),
                           sequence, isComplete)
  {
    SliceContents(sequence, sequence.start, end);
    SliceContents(sequence, next, next);
    assert sequence.Contents()[0..k] == sequence.Contents()[..k];
  }

  /** The CR lookahead running out of data: the CR at `crlfPosition` is the last
      byte of the whole sequence. At the window's start nothing is consumed
      (NeedMore); otherwise the token runs up to the CR and the new window
      starts at the CR. */
  method PartialCarriageReturn(sequence: ReadOnlySequence, isComplete: bool, crlfPosition: SequencePosition,
                               ghost w: seq<byte>, ghost k: nat)
    returns (r: SequenceResult)
    requires sequence.IsWindow() && sequence.chunks != []
    requires ValidPosition(sequence.chunks, crlfPosition) && Normalized(sequence.chunks, crlfPosition)
    requires crlfPosition.index < |sequence.chunks[crlfPosition.segment]|
    requires w == sequence.Contents() && k + 1 == |w|
    requires Offset(sequence.chunks, crlfPosition) == Offset(sequence.chunks, sequence.start) + k
    requires NoDelimiter(w[..k]) && w[k] == CR
    ensures SequenceAgrees(r, sequence, isComplete)
  {
    CsvScanProperties.ScanAtCr(w, k, isComplete);
    if crlfPosition == sequence.start {
      return SequenceToken(NeedMore, Default, sequence);
    }
    assert k != 0 by {
      if k == 0 { NormalizedUnique(sequence.chunks, crlfPosition, sequence.start); }
    }
    SlicesAgree(sequence, isComplete, ColumnPart, crlfPosition, crlfPosition, k, k);
    return SequenceToken(ColumnPart, sequence.Slice(sequence.start, crlfPosition), sequence.SliceFrom(crlfPosition));
  }

  // ---------------------------------------------------------------------------
  // A CR LF split across two segments

  /** The window over the segments "ab\r" and "\ncd", from offset 0 of the
      first to the end of the second, holds "ab\r\ncd". */
  lemma TwoSegmentWindow()
    ensures var chunks: seq<seq<byte>> := [[97, 98, CR], [LF, 99, 100]];
      var sequence := ReadOnlySequence(chunks, SequencePosition(0, 0), EndOf(chunks));
      sequence.IsWindow() && sequence.Contents() == [97, 98, CR, LF, 99, 100]
  {
    var chunks: seq<seq<byte>> := [[97, 98, CR], [LF, 99, 100]];
    assert chunks[..1] == [[97, 98, CR]] && chunks[..1][..0] == [];
    assert Flatten(chunks[..1]) == [97, 98, CR];
    assert Flatten(chunks) == [97, 98, CR] + [LF, 99, 100];
    EndOfOffset(chunks);
  }

  /** Over the segments "ab\r" and "\ncd" the direct-traversal overload, which
      answers what Scan answers for its bytes, gives RowEnd with token "ab" and
      leaves "cd": the lookahead after the CR ending the first segment finds
      the LF in the second. */
  lemma CrLfAcrossSegments()
    ensures var chunks: seq<seq<byte>> := [[97, 98, CR], [LF, 99, 100]];
      var sequence := ReadOnlySequence(chunks, SequencePosition(0, 0), EndOf(chunks));
      && sequence.IsWindow()
      && sequence.Contents() == [97, 98, CR, LF, 99, 100]
      && Scan(sequence.Contents(), true) == Scanned(RowEnd, [97, 98], [99, 100])
      && Scan([99, 100], true) == Scanned(DocumentEnd, [99, 100], [])
  {
    TwoSegmentWindow();
    assert NoDelimiter([97, 98]) && NoDelimiter([99, 100]);
    CsvScanProperties.ScanRowEnd([97, 98, CR, LF, 99, 100], true, [97, 98], [99, 100]);
    CsvScanProperties.ScanDocumentEnd([99, 100], true, [99, 100], []);
  }
}
