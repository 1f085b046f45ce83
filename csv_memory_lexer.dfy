/** CsvMemoryLexer: the scan of CsvSpanLexer over an owned buffer. Token and
    window are views into that buffer, cut from the window rather than from the
    span the loop reads. */
module CsvMemoryLexer {
  import opened CsvScan
  import opened ReadOnlyMemories
  import CsvScanProperties

  datatype MemoryResult =
    | MemoryToken(kind: CsvTokenType, token: ReadOnlyMemory, rest: ReadOnlyMemory)
    | MemoryMalformed

  /** A memory outcome agrees with the scan result `s` of the bytes of
      `sequence`: the same outcome, and a token and new window holding the
      token and rest bytes. NeedMore gives the default token and leaves the
      window as it was; a token taking the whole window is the window itself,
      with the default memory left; otherwise the token is the view of the
      window's buffer from the window's start, and the new window the view
      running to the window's end. */
  ghost predicate MemoryAgrees(r: MemoryResult, sequence: ReadOnlyMemory, s: ScanResult)
    reads if r.MemoryToken? then {r.token.buffer, r.rest.buffer} else {}
  {
    (r.MemoryMalformed? <==> s.MalformedLineEnding?)
    && (r.MemoryToken? ==>
          && r.kind == s.kind
          && r.token.Valid() && r.rest.Valid()
          && r.token.Span() == s.token && r.rest.Span() == s.rest
          && (if s.kind == NeedMore then r.token == Default && r.rest == sequence
              else if TakesWindow(s) then r.token == sequence && r.rest == Default
              else
                && r.token.buffer == sequence.buffer && r.token.start == sequence.start
                && r.rest.buffer == sequence.buffer
                && r.rest.start + r.rest.length == sequence.start + sequence.length))
  }

  /** The memory agreement leaves no choice: two outcomes that agree with the
      same scan of the same window are the same outcome with the same views. */
  lemma MemoryAgreesUnique(r1: MemoryResult, r2: MemoryResult, sequence: ReadOnlyMemory, s: ScanResult)
    requires MemoryAgrees(r1, sequence, s) && MemoryAgrees(r2, sequence, s)
    ensures r1 == r2
  {
  }

  /** Scans `sequence.Span` from index 0 for `,`, CR or LF and returns the same
      outcome as the span lexer; the token and the new window are views into the
      window's own buffer, or the default memory. */
  method TryParse(sequence: ReadOnlyMemory, isComplete: bool) returns (r: MemoryResult)
    requires sequence.Valid()
    ensures MemoryAgrees(r, sequence, Scan(sequence.Span(), isComplete))
  {
    var span := sequence.Span();
    var i := 0;
    while i < |span|
      invariant i <= |span|
      invariant NoDelimiter(span[..i])
    {
      var x := span[i];
      if x == COMMA {
        CsvScanProperties.FirstDelimiterIs(span, i);
        return MemoryToken(ColumnEnd, sequence.Slice(0, i), sequence.SliceFrom(i + 1));
      }
      if x == CR {
        r := CarriageReturn(sequence, isComplete, span, i);
        return;
      }
      if x == LF {
        CsvScanProperties.FirstDelimiterIs(span, i);
        return MemoryToken(RowEnd, sequence.Slice(0, i), sequence.SliceFrom(i + 1));
      }
      i := i + 1;
    }
    assert span[..i] == span;
    r := EndOfSpan(sequence, isComplete);
  }

  /** The CR branch: a CR at index `i` after a delimiter-free run. A CR ending
      the window leaves the outcome open (NeedMore at the start, else the part
      before it); CR LF ends the row; a CR before any other byte throws. */
  method CarriageReturn(sequence: ReadOnlyMemory, isComplete: bool, span: seq<byte>, i: nat)
    returns (r: MemoryResult)
    requires sequence.Valid() && span == sequence.Span()
    requires i < |span| && NoDelimiter(span[..i]) && span[i] == CR
    ensures MemoryAgrees(r, sequence, Scan(span, isComplete))
  {
    CsvScanProperties.FirstDelimiterIs(span, i);
    var tokenSequence := sequence.Slice(0, i);
    if i + 1 == |span| {
      // ran out of data: the CR may yet be followed by LF
      if i == 0 {
        return MemoryToken(NeedMore, Default, sequence);
      }
      return MemoryToken(ColumnPart, tokenSequence, sequence.SliceFrom(i));
    }
    var x := span[i + 1];
    if x == LF {
      return MemoryToken(RowEnd, tokenSequence, sequence.SliceFrom(i + 2));
    }
    return MemoryMalformed;
  }

  /** No delimiter in the window: complete input makes the whole window the
      final token; otherwise an empty window needs more bytes and a non-empty
      one is a fragment. */
  method EndOfSpan(sequence: ReadOnlyMemory, isComplete: bool) returns (r: MemoryResult)
    requires sequence.Valid() && NoDelimiter(sequence.Span())
    ensures MemoryAgrees(r, sequence, Scan(sequence.Span(), isComplete))
  {
    var span := sequence.Span();
    assert span[..|span|] == span;
    CsvScanProperties.FirstDelimiterIs(span, |span|);
    if isComplete {
      return MemoryToken(DocumentEnd, sequence, Default);
    }
    if |span| == 0 {
      return MemoryToken(NeedMore, Default, sequence);
    }
    return MemoryToken(ColumnPart, sequence, Default);
  }
}
