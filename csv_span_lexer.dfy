/** CsvSpanLexer: the scan over one contiguous window held as a byte sequence.
    The by-ref window and the out token of the source become the `token` and
    `rest` of the returned ScanResult. */
module CsvSpanLexer {
  import opened CsvScan
  import CsvScanProperties

  /** Scans from index 0 for `,`, CR or LF. Returns the token type, the token and
      the window left after the call; a CR followed by a byte other than LF is
      the exception, returned as MalformedLineEnding. */
  method TryParse(sequence: seq<byte>, isComplete: bool) returns (r: ScanResult)
    ensures r == Scan(sequence, isComplete)
  {
    var span := sequence;
    var i := 0;
    while i < |span|
      invariant i <= |span|
      invariant NoDelimiter(span[..i])
    {
      var x := span[i];
      if x == COMMA {
        CsvScanProperties.FirstDelimiterIs(span, i);
        return Scanned(ColumnEnd, span[..i], span[i + 1..]);
      }
      if x == CR {
        CsvScanProperties.FirstDelimiterIs(span, i);
        var tokenSequence := span[..i];
        if i + 1 == |span| {
          // ran out of data: the CR may yet be followed by LF
          if i == 0 {
            return Scanned(NeedMore, [], sequence);
          }
          return Scanned(ColumnPart, tokenSequence, span[i..]);
        }
        x := span[i + 1];
        if x == LF {
          return Scanned(RowEnd, tokenSequence, span[i + 2..]);
        }
        return MalformedLineEnding;
      }
      if x == LF {
        CsvScanProperties.FirstDelimiterIs(span, i);
        return Scanned(RowEnd, span[..i], span[i + 1..]);
      }
      i := i + 1;
    }
    CsvScanProperties.FirstDelimiterIs(span, i);
    if isComplete {
      return Scanned(DocumentEnd, span, []);
    }
    if |span| == 0 {
      return Scanned(NeedMore, [], sequence);
    }
    return Scanned(ColumnPart, span, []);
  }
}
