/** The token-boundary scan shared by every lexer of the repository, stated once
    over the unconsumed window as a plain byte sequence. Each lexer is proved to
    return what Scan returns for the bytes its window holds. */
module CsvScan {

  newtype byte = b: int | 0 <= b < 256

  const COMMA: byte := 44
  const CR: byte := 13
  const LF: byte := 10

  /** The five outcomes of one lexer call. */
  datatype CsvTokenType = ColumnEnd | RowEnd | ColumnPart | DocumentEnd | NeedMore

  /** One call's outcome: a token type, the token bytes and the unconsumed rest of
      the window, or the exception thrown when a CR is followed by a byte other
      than LF. */
  datatype ScanResult =
    | Scanned(kind: CsvTokenType, token: seq<byte>, rest: seq<byte>)
    | MalformedLineEnding

  predicate IsDelimiter(x: byte) {
    x == COMMA || x == CR || x == LF
  }

  predicate NoDelimiter(s: seq<byte>) {
    forall k :: 0 <= k < |s| ==> !IsDelimiter(s[k])
  }

  /** The index of the first delimiter byte of `w`, or |w| when there is none. */
  lemma FirstDelimiterExists(w: seq<byte>)
    ensures exists i: nat :: i <= |w| && NoDelimiter(w[..i]) && (i < |w| ==> IsDelimiter(w[i]))
  {
    if NoDelimiter(w) { assert w[..|w|] == w; }
    else {
      var j :| 0 <= j < |w| && IsDelimiter(w[j]);
      var i := 0;
      while i < |w| && !IsDelimiter(w[i])
        invariant i <= j && NoDelimiter(w[..i])
      {
        assert w[..i+1] == w[..i] + [w[i]];
        i := i + 1;
      }
    }
  }
  ghost function FirstDelimiter(w: seq<byte>): (i: nat)
    ensures i <= |w|
    ensures NoDelimiter(w[..i])
    ensures i < |w| ==> IsDelimiter(w[i])
  {
    FirstDelimiterExists(w);
    var i: nat :| i <= |w| && NoDelimiter(w[..i]) && (i < |w| ==> IsDelimiter(w[i]));
    i
  }

  /** What a contiguous lexer returns for window `w`; the window after the call
      is the `rest` of the result (the window itself for NeedMore). */
  ghost function Scan(w: seq<byte>, isComplete: bool): ScanResult {
    var i := FirstDelimiter(w);
    if i == |w| then
      if isComplete then Scanned(DocumentEnd, w, [])
      else if |w| == 0 then Scanned(NeedMore, [], w)
      else Scanned(ColumnPart, w, [])
    else if w[i] == COMMA then Scanned(ColumnEnd, w[..i], w[i + 1..])
    else if w[i] == CR then
      if i + 1 == |w| then
        // the lone trailing CR is answered without looking at isComplete
        if i == 0 then Scanned(NeedMore, [], w)
        else Scanned(ColumnPart, w[..i], w[i..])
      else if w[i + 1] == LF then Scanned(RowEnd, w[..i], w[i + 2..])
      else MalformedLineEnding
    else Scanned(RowEnd, w[..i], w[i + 1..])
  }

  /** What the cursor lexer returns: it answers NeedMore for an empty reader
      whether or not the input is complete, and otherwise agrees with Scan. */
  ghost function ReaderScan(w: seq<byte>, isComplete: bool): ScanResult {
    if w == [] then Scanned(NeedMore, [], w) else Scan(w, isComplete)
  }

  /** The token is the whole window and nothing is left (DocumentEnd, or a
      fragment with no delimiter): the lexers hand the window itself back as
      the token and the new window is the default one. */
  predicate TakesWindow(s: ScanResult) {
    s.Scanned? && (s.kind == DocumentEnd || (s.kind == ColumnPart && s.rest == []))
  }

  /** The bytes a result of kind `kind` may have consumed between its token and
      its rest. */
  predicate IsSeparator(kind: CsvTokenType, sep: seq<byte>) {
    match kind
    case ColumnEnd => sep == [COMMA]
    case RowEnd => sep == [LF] || sep == [CR, LF]
    case _ => sep == []
  }

  /** Glues a field fragment in front of the result of scanning what follows it. */
  function Prepend(t: seq<byte>, r: ScanResult): ScanResult {
    match r
    case Scanned(kind, token, rest) => Scanned(kind, t + token, rest)
    case MalformedLineEnding => MalformedLineEnding
  }
}
