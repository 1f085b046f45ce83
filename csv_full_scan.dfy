/** Scanning a complete input call after call, as the repository's test loops do:
    each call is made on the window the previous one left, with `isComplete`
    set, until DocumentEnd or NeedMore comes back or the exception is thrown. */
module CsvFullScan {
  import opened CsvScan
  import opened CsvScanProperties

  /** One call of the drive: its token type, its token and the delimiter bytes
      it consumed after the token. */
  datatype Step = Step(kind: CsvTokenType, token: seq<byte>, separator: seq<byte>)

  /** The steps of a drive and the bytes still unconsumed when it stopped. */
  datatype Drive = Drive(steps: seq<Step>, left: seq<byte>, malformed: bool)

  /** The token bytes and separator bytes of the steps, in order. */
  function Rebuild(steps: seq<Step>): seq<byte> {
    if steps == [] then [] else steps[0].token + steps[0].separator + Rebuild(steps[1..])
  }

  /** Drives the scan over a complete input `w`. */
  ghost function ScanAll(w: seq<byte>): Drive
    decreases |w|
  {
    match Scan(w, true)
    case MalformedLineEnding => Drive([], w, true)
    case Scanned(kind, token, rest) =>
      ScanDecomposes(w, true);
      var step := Step(kind, token, w[|token|..|w| - |rest|]);
      if kind == DocumentEnd || kind == NeedMore then Drive([step], rest, false)
      else
        var d := ScanAll(rest);
        Drive([step] + d.steps, d.left, d.malformed)
  }

  /** A step whose bytes come first, in front of steps that rebuild the rest,
      rebuilds the whole. */
  lemma RebuildGlue(step: Step, w: seq<byte>, rest: seq<byte>, steps: seq<Step>, left: seq<byte>)
    requires w == step.token + step.separator + rest
    requires Rebuild(steps) + left == rest
    ensures Rebuild([step] + steps) + left == w
  {
    assert ([step] + steps)[1..] == steps;
    assert Rebuild([step] + steps) == step.token + step.separator + Rebuild(steps);
  }

  /** Round trip: the tokens with the delimiter bytes each consumed, followed
      by whatever was left unconsumed, are the input. */
  lemma {:induction false} ScanAllRebuilds(w: seq<byte>)
    ensures Rebuild(ScanAll(w).steps) + ScanAll(w).left == w
    decreases |w|
  {
    ScanDecomposes(w, true);
    var s := Scan(w, true);
    if s.MalformedLineEnding? {
      assert ScanAll(w) == Drive([], w, true);
    } else {
      var step := Step(s.kind, s.token, w[|s.token|..|w| - |s.rest|]);
      assert w == step.token + step.separator + s.rest;
      if s.kind == DocumentEnd || s.kind == NeedMore {
        assert ScanAll(w) == Drive([step], s.rest, false);
        RebuildGlue(step, w, s.rest, [], s.rest);
      } else {
        var d := ScanAll(s.rest);
        ScanAllRebuilds(s.rest);
        assert ScanAll(w) == Drive([step] + d.steps, d.left, d.malformed);
        RebuildGlue(step, w, s.rest, d.steps, d.left);
      }
    }
  }

  /** Every token of a drive is free of delimiters and every separator is the
      one its token type implies: a comma after ColumnEnd, LF or CR LF after
      RowEnd, nothing otherwise. */
  lemma {:induction false} ScanAllSeparators(w: seq<byte>)
    ensures forall k :: 0 <= k < |ScanAll(w).steps| ==>
      NoDelimiter(ScanAll(w).steps[k].token) && IsSeparator(ScanAll(w).steps[k].kind, ScanAll(w).steps[k].separator)
    decreases |w|
  {
    ScanDecomposes(w, true);
    var s := Scan(w, true);
    if s.Scanned? && s.kind != DocumentEnd && s.kind != NeedMore {
      var step := Step(s.kind, s.token, w[|s.token|..|w| - |s.rest|]);
      var d := ScanAll(s.rest);
      ScanAllSeparators(s.rest);
      var steps := [step] + d.steps;
      assert ScanAll(w).steps == steps;
      forall k | 1 <= k < |steps|
        ensures NoDelimiter(steps[k].token) && IsSeparator(steps[k].kind, steps[k].separator)
      {
        assert steps[k] == d.steps[k - 1];
      }
    }
  }

  /** The last of the steps is DocumentEnd with nothing left, or NeedMore with
      the lone CR left. */
  predicate StopsAtEnd(steps: seq<Step>, left: seq<byte>) {
    && steps != []
    && (steps[|steps| - 1].kind == DocumentEnd || steps[|steps| - 1].kind == NeedMore)
    && (steps[|steps| - 1].kind == DocumentEnd ==> left == [])
    && (steps[|steps| - 1].kind == NeedMore ==> left == [CR])
  }

  /** Putting a step in front keeps how the steps stop. */
  lemma StopsAtEndPrepend(step: Step, steps: seq<Step>, left: seq<byte>)
    requires StopsAtEnd(steps, left)
    ensures StopsAtEnd([step] + steps, left)
  {
    var all := [step] + steps;
    assert all[|all| - 1] == steps[|steps| - 1];
  }

  /** How a drive stops: after a DocumentEnd that consumed everything, on a
      NeedMore that left the lone CR ending the input, or on the exception
      with the malformed line ending still in the window. */
  lemma {:induction false} ScanAllEnds(w: seq<byte>)
    ensures ScanAll(w).malformed ==> Scan(ScanAll(w).left, true) == MalformedLineEnding
    ensures !ScanAll(w).malformed ==> StopsAtEnd(ScanAll(w).steps, ScanAll(w).left)
    decreases |w|
  {
    ScanDecomposes(w, true);
    var s := Scan(w, true);
    if s.MalformedLineEnding? {
      assert ScanAll(w) == Drive([], w, true);
    } else {
      var step := Step(s.kind, s.token, w[|s.token|..|w| - |s.rest|]);
      if s.kind == DocumentEnd {
        ScanDocumentEnd(w, true, s.token, s.rest);
        assert ScanAll(w) == Drive([step], s.rest, false);
      } else if s.kind == NeedMore {
        ScanNeedMore(w, true, s.token, s.rest);
        assert ScanAll(w) == Drive([step], s.rest, false);
      } else {
        var d := ScanAll(s.rest);
        ScanAllEnds(s.rest);
        assert ScanAll(w) == Drive([step] + d.steps, d.left, d.malformed);
        if !d.malformed {
          StopsAtEndPrepend(step, d.steps, d.left);
        }
      }
    }
  }

  /** No step of a drive before the last is DocumentEnd or NeedMore. */
  lemma {:induction false} ScanAllStopsOnce(w: seq<byte>)
    ensures forall k :: 0 <= k < |ScanAll(w).steps| - 1 ==>
      ScanAll(w).steps[k].kind != DocumentEnd && ScanAll(w).steps[k].kind != NeedMore
    decreases |w|
  {
    ScanDecomposes(w, true);
    var s := Scan(w, true);
    if s.Scanned? && s.kind != DocumentEnd && s.kind != NeedMore {
      var step := Step(s.kind, s.token, w[|s.token|..|w| - |s.rest|]);
      var d := ScanAll(s.rest);
      ScanAllStopsOnce(s.rest);
      var steps := [step] + d.steps;
      assert ScanAll(w).steps == steps;
      forall k | 1 <= k < |steps| - 1
        ensures steps[k].kind != DocumentEnd && steps[k].kind != NeedMore
      {
        assert steps[k] == d.steps[k - 1];
        assert d.steps[k - 1].kind != DocumentEnd && d.steps[k - 1].kind != NeedMore;
      }
    }
  }

  /** One scan of a complete window ending in LF: it is a ColumnEnd or a
      RowEnd, and either leaves a window that still ends in LF or is a RowEnd
      that leaves the empty window. */
  lemma ScanEndingInLf(w: seq<byte>)
    requires w != [] && w[|w| - 1] == LF && Scan(w, true).Scanned?
    ensures Scan(w, true).kind == ColumnEnd || Scan(w, true).kind == RowEnd
    ensures Scan(w, true).rest == [] ==> Scan(w, true).kind == RowEnd
    ensures Scan(w, true).rest != [] ==> Scan(w, true).rest[|Scan(w, true).rest| - 1] == LF
  {
    var s := Scan(w, true);
    ScanDecomposes(w, true);
    ScanDocumentEnd(w, true, s.token, s.rest);
    ScanNeedMore(w, true, s.token, s.rest);
    ScanColumnPart(w, true, s.token, s.rest);
    assert IsDelimiter(w[|w| - 1]);
    var sep := w[|s.token|..|w| - |s.rest|];
    if s.rest == [] {
      assert w == s.token + sep;
      assert sep[|sep| - 1] == LF;
    } else {
      assert w == (s.token + sep) + s.rest;
    }
  }

  /** The steps end with a RowEnd and then a DocumentEnd with an empty token
      that consumed nothing. */
  predicate EndsWithEmptyFinal(steps: seq<Step>) {
    |steps| >= 2 && steps[|steps| - 1] == Step(DocumentEnd, [], []) && steps[|steps| - 2].kind == RowEnd
  }

  /** Putting a step in front keeps the ending. */
  lemma EndsWithEmptyFinalPrepend(step: Step, steps: seq<Step>)
    requires EndsWithEmptyFinal(steps)
    ensures EndsWithEmptyFinal([step] + steps)
  {
    var all := [step] + steps;
    assert all[|all| - 1] == steps[|steps| - 1] && all[|all| - 2] == steps[|steps| - 2];
  }

  /** A complete input ending in LF that is not malformed is driven to a
      RowEnd leaving the empty window, which is then answered with DocumentEnd,
      an empty token and nothing left. The cursor overload answers that same
      empty, complete window with NeedMore, so a harness comparing token types
      sees the two differ at that last step. */
  lemma {:induction false} DriveEndingInLf(w: seq<byte>)
    requires w != [] && w[|w| - 1] == LF && !ScanAll(w).malformed
    ensures EndsWithEmptyFinal(ScanAll(w).steps) && ScanAll(w).left == []
    ensures ReaderScan([], true) == Scanned(NeedMore, [], [])
    decreases |w|
  {
    var s := Scan(w, true);
    assert s.Scanned?;
    ScanEndingInLf(w);
    ScanDecomposes(w, true);
    var step := Step(s.kind, s.token, w[|s.token|..|w| - |s.rest|]);
    var d := ScanAll(s.rest);
    assert ScanAll(w) == Drive([step] + d.steps, d.left, d.malformed);
    if s.rest == [] {
      ScanDocumentEnd([], true, [], []);
      assert d == Drive([Step(DocumentEnd, [], [])], [], false);
      assert [step] + d.steps == [step, Step(DocumentEnd, [], [])];
    } else {
      DriveEndingInLf(s.rest);
      EndsWithEmptyFinalPrepend(step, d.steps);
    }
  }

  /** On a complete input, a lone CR, and for the cursor lexer an empty
      window, are answered with NeedMore and an unchanged window, so a driver
      repeating the call until DocumentEnd makes no further progress. */
  lemma CompleteScanStalls()
    ensures Scan([CR], true) == Scanned(NeedMore, [], [CR])
    ensures ReaderScan([], true) == Scanned(NeedMore, [], [])
  {
    ScanNeedMore([CR], true, [], [CR]);
  }

  /** A drive goes on past a ColumnEnd, RowEnd or ColumnPart step with the
      window that step left. */
  lemma ScanAllContinues(w: seq<byte>, kind: CsvTokenType, t: seq<byte>, sep: seq<byte>, r: seq<byte>)
    requires Scan(w, true) == Scanned(kind, t, r) && kind != DocumentEnd && kind != NeedMore
    requires w == t + sep + r
    ensures ScanAll(w) == Drive([Step(kind, t, sep)] + ScanAll(r).steps, ScanAll(r).left, ScanAll(r).malformed)
  {
    assert w[|t|..|w| - |r|] == sep;
  }

  /** The last step of the scenario below: "ghi" on its own is the final token. */
  lemma FinalTokenDrive()
    ensures ScanAll([103, 104, 105]) == Drive([Step(DocumentEnd, [103, 104, 105], [])], [], false)
  {
    var w: seq<byte> := [103, 104, 105];
    assert NoDelimiter(w);
    ScanDocumentEnd(w, true, w, []);
    assert w[|w|..|w| - 0] == [];
  }

  /** The middle of the scenario below: "def\r\nghi" is a row end then the final token. */
  lemma RowThenFinalDrive()
    ensures ScanAll([100, 101, 102, CR, LF, 103, 104, 105])
         == Drive([Step(RowEnd, [100, 101, 102], [CR, LF]), Step(DocumentEnd, [103, 104, 105], [])], [], false)
  {
    var rest: seq<byte> := [103, 104, 105];
    var w: seq<byte> := [100, 101, 102] + [CR, LF] + rest;
    assert w == [100, 101, 102, CR, LF, 103, 104, 105];
    assert NoDelimiter([100, 101, 102]);
    ScanRowEnd(w, true, [100, 101, 102], rest);
    ScanAllContinues(w, RowEnd, [100, 101, 102], [CR, LF], rest);
    FinalTokenDrive();
  }

  /** The scenario "abc,def\r\nghi", complete: ColumnEnd "abc", RowEnd "def"
      with the CR LF consumed, DocumentEnd "ghi". */
  lemma ThreeTokenDocument()
    ensures ScanAll([97, 98, 99, COMMA, 100, 101, 102, CR, LF, 103, 104, 105])
         == Drive([Step(ColumnEnd, [97, 98, 99], [COMMA]),
                   Step(RowEnd, [100, 101, 102], [CR, LF]),
                   Step(DocumentEnd, [103, 104, 105], [])], [], false)
  {
    var rest: seq<byte> := [100, 101, 102, CR, LF, 103, 104, 105];
    var w: seq<byte> := [97, 98, 99] + [COMMA] + rest;
    assert w == [97, 98, 99, COMMA, 100, 101, 102, CR, LF, 103, 104, 105];
    assert NoDelimiter([97, 98, 99]);
    ScanColumnEnd(w, true, [97, 98, 99], rest);
    ScanAllContinues(w, ColumnEnd, [97, 98, 99], [COMMA], rest);
    RowThenFinalDrive();
  }
}
