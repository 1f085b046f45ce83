/** Properties of the scan: one characterisation per outcome (together they fix
    Scan completely), the decomposition of the window into token, consumed
    delimiter and rest, and what happens when a fragment is resumed. */
module CsvScanProperties {
  import opened CsvScan

  /** FirstDelimiter is the unique index with no delimiter before it and a
      delimiter (or the end) at it. */
  lemma FirstDelimiterIs(w: seq<byte>, i: nat)
    requires i <= |w|
    requires NoDelimiter(w[..i])
    requires i < |w| ==> IsDelimiter(w[i])
    ensures FirstDelimiter(w) == i
  {
  }

  /** The outcomes once the first delimiter is a CR at `k`: a lone trailing CR
      (NeedMore at the start, else a fragment before it), CR LF, or the
      exception. */
  lemma ScanAtCr(w: seq<byte>, k: nat, isComplete: bool)
    requires k < |w| && NoDelimiter(w[..k]) && w[k] == CR
    ensures k + 1 == |w| && k == 0 ==> Scan(w, isComplete) == Scanned(NeedMore, [], w)
    ensures k + 1 == |w| && k > 0 ==> Scan(w, isComplete) == Scanned(ColumnPart, w[..k], w[k..])
    ensures k + 1 < |w| && w[k + 1] == LF ==> Scan(w, isComplete) == Scanned(RowEnd, w[..k], w[k + 2..])
    ensures k + 1 < |w| && w[k + 1] != LF ==> Scan(w, isComplete) == MalformedLineEnding
  {
    FirstDelimiterIs(w, k);
  }

  lemma NoDelimiterExtend(w: seq<byte>, i: nat)
    requires i < |w| && NoDelimiter(w[..i]) && !IsDelimiter(w[i])
    ensures NoDelimiter(w[..i + 1])
  {
    assert w[..i + 1] == w[..i] + [w[i]];
  }

  lemma NoDelimiterConcat(a: seq<byte>, b: seq<byte>)
    requires NoDelimiter(a) && NoDelimiter(b)
    ensures NoDelimiter(a + b)
  {
    forall k | 0 <= k < |a + b| ensures !IsDelimiter((a + b)[k]) {
      if k < |a| { assert (a + b)[k] == a[k]; } else { assert (a + b)[k] == b[k - |a|]; }
    }
  }

  /** Scanning behind a delimiter-free fragment shifts the first delimiter. */
  lemma FirstDelimiterAfterFragment(t: seq<byte>, e: seq<byte>)
    requires NoDelimiter(t)
    ensures FirstDelimiter(t + e) == |t| + FirstDelimiter(e)
  {
    var i := FirstDelimiter(e);
    var w := t + e;
    assert w[..|t| + i] == t + e[..i];
    NoDelimiterConcat(t, e[..i]);
    if i < |e| { assert w[|t| + i] == e[i]; }
    FirstDelimiterIs(w, |t| + i);
  }

  /** A comma ends a column: ColumnEnd comes back exactly when the window is a
      delimiter-free token, a comma, and the rest. */
  lemma ScanColumnEnd(w: seq<byte>, isComplete: bool, t: seq<byte>, r: seq<byte>)
    ensures Scan(w, isComplete) == Scanned(ColumnEnd, t, r)
        <==> NoDelimiter(t) && w == t + [COMMA] + r
  {
    var i := FirstDelimiter(w);
    if Scan(w, isComplete) == Scanned(ColumnEnd, t, r) {
      assert w == w[..i] + [w[i]] + w[i + 1..];
    }
    if NoDelimiter(t) && w == t + [COMMA] + r {
      assert w[..|t|] == t;
      FirstDelimiterIs(w, |t|);
      assert w[|t| + 1..] == r;
    }
  }

  /** An LF, or a CR followed by LF, ends a row; the line-end bytes belong to
      neither the token nor the rest. */
  lemma ScanRowEnd(w: seq<byte>, isComplete: bool, t: seq<byte>, r: seq<byte>)
    ensures Scan(w, isComplete) == Scanned(RowEnd, t, r)
        <==> NoDelimiter(t) && (w == t + [LF] + r || w == t + [CR, LF] + r)
  {
    var i := FirstDelimiter(w);
    if Scan(w, isComplete) == Scanned(RowEnd, t, r) {
      if w[i] == CR {
        assert w == w[..i] + [CR, LF] + w[i + 2..];
      } else {
        assert w == w[..i] + [w[i]] + w[i + 1..];
      }
    }
    if NoDelimiter(t) && w == t + [LF] + r {
      assert w[..|t|] == t;
      FirstDelimiterIs(w, |t|);
      assert w[|t| + 1..] == r;
    }
    if NoDelimiter(t) && w == t + [CR, LF] + r {
      assert w[..|t|] == t;
      FirstDelimiterIs(w, |t|);
      assert w[|t| + 2..] == r;
    }
  }

  /** A fragment comes back when an incomplete window holds no delimiter, or
      when the window ends in a lone CR after a non-empty field: that CR stays
      in the window, whether or not the input is complete. */
  lemma ScanColumnPart(w: seq<byte>, isComplete: bool, t: seq<byte>, r: seq<byte>)
    ensures Scan(w, isComplete) == Scanned(ColumnPart, t, r)
        <==> ((!isComplete && w != [] && NoDelimiter(w) && t == w && r == [])
              || (t != [] && NoDelimiter(t) && w == t + [CR] && r == [CR]))
  {
    var i := FirstDelimiter(w);
    if Scan(w, isComplete) == Scanned(ColumnPart, t, r) && i < |w| {
      assert w == w[..i] + [CR];
    }
    if !isComplete && w != [] && NoDelimiter(w) && t == w && r == [] {
      assert w[..|w|] == w;
      FirstDelimiterIs(w, |w|);
    }
    if t != [] && NoDelimiter(t) && w == t + [CR] && r == [CR] {
      assert w[..|t|] == t;
      FirstDelimiterIs(w, |t|);
    }
  }

  /** The whole window is the final token exactly when the input is complete and
      the window holds no delimiter (the empty window included). */
  lemma ScanDocumentEnd(w: seq<byte>, isComplete: bool, t: seq<byte>, r: seq<byte>)
    ensures Scan(w, isComplete) == Scanned(DocumentEnd, t, r)
        <==> isComplete && NoDelimiter(w) && t == w && r == []
  {
    if isComplete && NoDelimiter(w) {
      assert w[..|w|] == w;
      FirstDelimiterIs(w, |w|);
    }
  }

  /** Nothing is consumed and no token produced exactly for an empty incomplete
      window, or for a window holding only a CR (complete or not). */
  lemma ScanNeedMore(w: seq<byte>, isComplete: bool, t: seq<byte>, r: seq<byte>)
    ensures Scan(w, isComplete) == Scanned(NeedMore, t, r)
        <==> t == [] && r == w && ((!isComplete && w == []) || w == [CR])
  {
    if w == [CR] {
      assert w[..0] == [];
      FirstDelimiterIs(w, 0);
    }
    if w == [] {
      FirstDelimiterIs(w, 0);
    }
  }

  /** The exception is thrown exactly when the first delimiter is a CR followed
      by a byte other than LF. */
  lemma ScanMalformed(w: seq<byte>, isComplete: bool)
    ensures Scan(w, isComplete) == MalformedLineEnding
        <==> exists k :: 0 <= k < |w| - 1 && NoDelimiter(w[..k]) && w[k] == CR && w[k + 1] != LF
  {
    var i := FirstDelimiter(w);
    if Scan(w, isComplete) == MalformedLineEnding {
      assert 0 <= i < |w| - 1 && NoDelimiter(w[..i]) && w[i] == CR && w[i + 1] != LF;
    }
    if exists k :: 0 <= k < |w| - 1 && NoDelimiter(w[..k]) && w[k] == CR && w[k + 1] != LF {
      var k :| 0 <= k < |w| - 1 && NoDelimiter(w[..k]) && w[k] == CR && w[k + 1] != LF;
      FirstDelimiterIs(w, k);
    }
  }

  /** `w` is the token `t`, then the delimiter bytes a result of kind `kind`
      consumes, then the rest `r`; the token holds no delimiter. */
  predicate SplitsInto(w: seq<byte>, kind: CsvTokenType, t: seq<byte>, r: seq<byte>) {
    && NoDelimiter(t)
    && |t| + |r| <= |w|
    && w == t + w[|t|..|w| - |r|] + r
    && IsSeparator(kind, w[|t|..|w| - |r|])
  }

  /** Cutting `w` into the delimiter-free part before `i`, the `n` separator
      bytes at `i` and the rest. */
  lemma SplitAt(w: seq<byte>, kind: CsvTokenType, i: nat, n: nat)
    requires i + n <= |w| && NoDelimiter(w[..i]) && IsSeparator(kind, w[i..i + n])
    ensures SplitsInto(w, kind, w[..i], w[i + n..])
  {
    assert |w[i + n..]| == |w| - i - n;
    assert w[i..|w| - |w[i + n..]|] == w[i..i + n];
    assert w == w[..i] + w[i..i + n] + w[i + n..];
  }

  /** Every token result splits the window into the token, the delimiter bytes
      its kind consumed, and the rest; the rest is a strictly shorter suffix
      unless nothing could be consumed. */
  lemma ScanDecomposes(w: seq<byte>, isComplete: bool)
    ensures var s := Scan(w, isComplete);
      s.Scanned? ==>
        && SplitsInto(w, s.kind, s.token, s.rest)
        && (|s.rest| < |w| || s.kind == NeedMore || w == [])
  {
    var i := FirstDelimiter(w);
    if i == |w| {
      assert w[..|w|] == w;
      if isComplete || |w| > 0 { SplitAt(w, Scan(w, isComplete).kind, |w|, 0); }
      else { SplitAt(w, NeedMore, 0, 0); }
    } else if w[i] == CR {
      if i + 1 == |w| {
        if i == 0 { SplitAt(w, NeedMore, 0, 0); }
        else { SplitAt(w, ColumnPart, i, 0); }
      } else if w[i + 1] == LF {
        assert w[i..i + 2] == [CR, LF];
        SplitAt(w, RowEnd, i, 2);
      }
    } else {
      assert w[i..i + 1] == [w[i]];
      SplitAt(w, if w[i] == COMMA then ColumnEnd else RowEnd, i, 1);
    }
  }

  /** Scanning a window that starts with a delimiter-free fragment gives the
      result of scanning what follows the fragment, with the fragment glued to
      the front of its token, except where that scan could consume nothing. */
  lemma ScanAfterFragment(t: seq<byte>, e: seq<byte>, isComplete: bool)
    requires NoDelimiter(t)
    requires !(Scan(e, isComplete).Scanned? && Scan(e, isComplete).kind == NeedMore)
    ensures Scan(t + e, isComplete) == Prepend(t, Scan(e, isComplete))
  {
    var w := t + e;
    var i := FirstDelimiter(e);
    FirstDelimiterAfterFragment(t, e);
    assert w[..|t| + i] == t + e[..i];
    if i == |e| {
      assert e[..i] == e;
    } else {
      assert w[|t| + i] == e[i];
      assert w[|t| + i + 1..] == e[i + 1..];
      assert w[|t| + i..] == e[i..];
      if i + 1 < |e| {
        assert w[|t| + i + 1] == e[i + 1];
        assert w[|t| + i + 2..] == e[i + 2..];
      }
    }
  }

  /** Incremental feeding: after a ColumnPart result, extending the window with
      newly arrived bytes and scanning again yields, behind the fragment, what
      scanning the extended remainder yields. */
  lemma ScanResumes(w: seq<byte>, e: seq<byte>, wasComplete: bool, isComplete: bool)
    requires Scan(w, wasComplete).Scanned? && Scan(w, wasComplete).kind == ColumnPart
    requires var r := Scan(w, wasComplete).rest;
      !(Scan(r + e, isComplete).Scanned? && Scan(r + e, isComplete).kind == NeedMore)
    ensures var s := Scan(w, wasComplete);
      Scan(w + e, isComplete) == Prepend(s.token, Scan(s.rest + e, isComplete))
  {
    var s := Scan(w, wasComplete);
    ScanColumnPart(w, wasComplete, s.token, s.rest);
    assert w + e == s.token + (s.rest + e);
    ScanAfterFragment(s.token, s.rest + e, isComplete);
  }

  /** A lone trailing CR is answered the same way whether or not the input is
      complete: a complete input ending in CR never yields DocumentEnd for it. */
  lemma LoneTrailingCrIgnoresCompleteness(t: seq<byte>)
    requires NoDelimiter(t)
    ensures Scan(t + [CR], true) == Scan(t + [CR], false)
    ensures Scan(t + [CR], true)
         == if t == [] then Scanned(NeedMore, [], [CR]) else Scanned(ColumnPart, t, [CR])
  {
    var w := t + [CR];
    assert w[..|t|] == t;
    FirstDelimiterIs(w, |t|);
    assert w[|t|..] == [CR];
  }

  /** The cursor lexer departs from the contiguous ones on exactly one input:
      the empty, complete window. */
  lemma ReaderScanDiffers(w: seq<byte>, isComplete: bool)
    ensures ReaderScan(w, isComplete) != Scan(w, isComplete) <==> w == [] && isComplete
  {
    if w == [] {
      FirstDelimiterIs(w, 0);
    }
  }

  /** A complete input ending in an LF: after its last RowEnd the contiguous
      lexers report DocumentEnd for the empty window and the cursor lexer
      reports NeedMore, so a harness comparing the two token types would see them
      differ at that step. */
  lemma TrailingLineEndDisagreement()
    ensures Scan([97, LF], true) == Scanned(RowEnd, [97], [])
    ensures Scan([], true) == Scanned(DocumentEnd, [], [])
    ensures ReaderScan([], true) == Scanned(NeedMore, [], [])
  {
    var w: seq<byte> := [97, LF];
    assert w[..1] == [97];
    FirstDelimiterIs(w, 1);
    FirstDelimiterIs([], 0);
  }
}
