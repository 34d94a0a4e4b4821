module JoseChecks {
  import opened Wrappers
  import opened JavaRegex
  import opened JosePatterns

  /** `$` can match at most at three places, so `find()` succeeds exactly when
      the input, or the input minus a final line terminator, ends with a match. */
  lemma {:induction false} FoundAtEndCases(s: string, shape: seq<Segment>)
    ensures FoundAtEnd(s, shape) <==>
      EndsWithMatch(s, shape)
      || (DollarAt(s, |s| - 1) && EndsWithMatch(s[..|s| - 1], shape))
      || (DollarAt(s, |s| - 2) && EndsWithMatch(s[..|s| - 2], shape))
  {
    if FoundAtEnd(s, shape) {
      var i, j :| 0 <= i <= j <= |s| && Matches(s[i..j], shape) && DollarAt(s, j);
      DollarNearEnd(s, j);
      assert s[i..j] == s[..j][i..];
      if j == |s| {
        assert s[..j] == s;
      }
    }
    forall j | |s| - 2 <= j <= |s| && 0 <= j && (j == |s| || DollarAt(s, j)) && EndsWithMatch(s[..j], shape)
      ensures FoundAtEnd(s, shape)
    {
      var i :| 0 <= i <= j && Matches(s[..j][i..], shape);
      assert s[i..j] == s[..j][i..];
      assert DollarAt(s, j);
    }
    assert s[..|s|] == s;
  }

  /** The recogniser, tried at each place where `$` can match, decides `find()`. */
  lemma RecogniserDecidesFind(s: string, shape: seq<Segment>)
    ensures FoundAtEnd(s, shape) <==>
      HasMatchingSuffix(s, shape)
      || (|s| >= 1 && DollarAt(s, |s| - 1) && HasMatchingSuffix(s[..|s| - 1], shape))
      || (|s| >= 2 && DollarAt(s, |s| - 2) && HasMatchingSuffix(s[..|s| - 2], shape))
  {
    FoundAtEndCases(s, shape);
    HasMatchingSuffixCorrect(s, shape);
    if |s| >= 1 {
      HasMatchingSuffixCorrect(s[..|s| - 1], shape);
    }
    if |s| >= 2 {
      HasMatchingSuffixCorrect(s[..|s| - 2], shape);
    }
  }

  /** The common shape of `Finder.checkJwsPattern` and `Finder.checkJwePattern`:
      false for null or empty, otherwise whether `find()` succeeds. */
  function CheckPattern(candidate: Option<string>, shape: seq<Segment>): (r: bool)
    ensures r <==> candidate.Some? && candidate.value != "" && FoundAtEnd(candidate.value, shape)
  {
    if candidate.None? || candidate.value == "" then false
    else
      var s := candidate.value;
      RecogniserDecidesFind(s, shape);
      HasMatchingSuffix(s, shape)
      || (|s| >= 1 && DollarAt(s, |s| - 1) && HasMatchingSuffix(s[..|s| - 1], shape))
      || (|s| >= 2 && DollarAt(s, |s| - 2) && HasMatchingSuffix(s[..|s| - 2], shape))
  }

  /** `Finder.checkJwsPattern`. */
  function CheckJwsPattern(candidate: Option<string>): (r: bool)
    ensures r <==> candidate.Some? && candidate.value != "" && FoundAtEnd(candidate.value, JwsShape)
  {
    CheckPattern(candidate, JwsShape)
  }

  /** `Finder.checkJwePattern`. */
  function CheckJwePattern(candidate: Option<string>): (r: bool)
    ensures r <==> candidate.Some? && candidate.value != "" && FoundAtEnd(candidate.value, JweShape)
  {
    CheckPattern(candidate, JweShape)
  }

  /** The first segment of both patterns, `ey[C]+`. */
  predicate IsEyRun(x: string) {
    |x| >= 3 && MatchesE(x[0]) && MatchesY(x[1]) && AllClass(x[2..])
  }

  /** A compact JWS as the pattern reads it: three dot-separated pieces, the
      first two `ey` followed by class characters, the third possibly empty. */
  predicate IsJwsText(t: string) {
    var p := SplitDots(t);
    |p| == 3 && IsEyRun(p[0]) && IsEyRun(p[1]) && AllClass(p[2])
  }

  /** A compact JWE as the pattern reads it: five dot-separated pieces, the
      first `ey` followed by class characters, the other four non-empty. */
  predicate IsJweText(t: string) {
    var p := SplitDots(t);
    |p| == 5 && IsEyRun(p[0]) &&
    forall k :: 1 <= k < 5 ==> |p[k]| >= 1 && AllClass(p[k])
  }

  lemma JwsShapeMeaning(t: string)
    ensures Matches(t, JwsShape) <==> IsJwsText(t)
  {
    MatchesBySplit(t, JwsShape);
    JwsPieces(SplitDots(t));
  }

  lemma JwsPieces(p: seq<string>)
    ensures PiecesMatch(p, JwsShape) <==>
      |p| == 3 && IsEyRun(p[0]) && IsEyRun(p[1]) && AllClass(p[2])
  {
    if |p| == 3 {
      assert SegmentMatches(Head, p[0]) <==> IsEyRun(p[0]);
      assert SegmentMatches(Head, p[1]) <==> IsEyRun(p[1]);
    }
  }

  lemma JweShapeMeaning(t: string)
    ensures Matches(t, JweShape) <==> IsJweText(t)
  {
    MatchesBySplit(t, JweShape);
    JwePieces(SplitDots(t));
  }

  lemma JwePieces(p: seq<string>)
    ensures PiecesMatch(p, JweShape) <==>
      |p| == 5 && IsEyRun(p[0]) && forall k :: 1 <= k < 5 ==> |p[k]| >= 1 && AllClass(p[k])
  {
    if |p| == 5 {
      assert SegmentMatches(Head, p[0]) <==> IsEyRun(p[0]);
      if IsEyRun(p[0]) && forall k :: 1 <= k < 5 ==> |p[k]| >= 1 && AllClass(p[k]) {
        forall k | 0 <= k < 5 ensures SegmentMatches(JweShape[k], p[k]) {
          if k > 0 {
            assert JweShape[k] == Body;
          }
        }
      }
      if PiecesMatch(p, JweShape) {
        forall k | 1 <= k < 5 ensures |p[k]| >= 1 && AllClass(p[k]) {
          assert JweShape[k] == Body;
        }
      }
    }
  }

  /** Without a final line terminator, `checkJwsPattern` holds exactly when
      some suffix of the candidate is a compact JWS. */
  lemma CheckJwsPatternSuffix(s: string)
    requires s != "" && !IsLineTerminator(s[|s| - 1])
    ensures CheckJwsPattern(Some(s)) <==> exists i :: 0 <= i < |s| && IsJwsText(s[i..])
  {
    FoundAtEndCases(s, JwsShape);
    if CheckJwsPattern(Some(s)) {
      var i :| 0 <= i <= |s| && Matches(s[i..], JwsShape);
      JwsShapeMeaning(s[i..]);
      assert i < |s|;
    }
    if exists i :: 0 <= i < |s| && IsJwsText(s[i..]) {
      var i :| 0 <= i < |s| && IsJwsText(s[i..]);
      JwsShapeMeaning(s[i..]);
    }
  }

  /** Without a final line terminator, `checkJwePattern` holds exactly when
      some suffix of the candidate is a compact JWE. */
  lemma CheckJwePatternSuffix(s: string)
    requires s != "" && !IsLineTerminator(s[|s| - 1])
    ensures CheckJwePattern(Some(s)) <==> exists i :: 0 <= i < |s| && IsJweText(s[i..])
  {
    FoundAtEndCases(s, JweShape);
    if CheckJwePattern(Some(s)) {
      var i :| 0 <= i <= |s| && Matches(s[i..], JweShape);
      JweShapeMeaning(s[i..]);
      assert i < |s|;
    }
    if exists i :: 0 <= i < |s| && IsJweText(s[i..]) {
      var i :| 0 <= i < |s| && IsJweText(s[i..]);
      JweShapeMeaning(s[i..]);
    }
  }

  /** A JWE candidate with an empty piece among its dot-separated pieces is
      not a compact JWE. */
  lemma JweEmptyPieceRejected(t: string, k: int)
    requires 0 <= k < |SplitDots(t)| && SplitDots(t)[k] == ""
    ensures !Matches(t, JweShape)
  {
    var p := SplitDots(t);
    MatchesBySplit(t, JweShape);
    if |p| == 5 {
      assert !SegmentMatches(JweShape[k], p[k]);
    }
  }

  /** `find()` does not anchor at the start: putting text in front of a
      candidate that is matched keeps it matched. */
  lemma {:induction false} FoundAtEndPrefix(p: string, s: string, shape: seq<Segment>)
    requires |shape| > 1 && FoundAtEnd(s, shape)
    ensures FoundAtEnd(p + s, shape)
  {
    var i, j :| 0 <= i <= j <= |s| && Matches(s[i..j], shape) && DollarAt(s, j);
    var t := p + s;
    assert t[|p| + i..|p| + j] == s[i..j];
    assert i < j;
    assert t[|p| + j - 1] == s[j - 1];
    if j < |s| {
      assert t[|p| + j] == s[j];
    }
    if j + 1 < |s| {
      assert t[|p| + j + 1] == s[j + 1];
    }
    assert DollarAt(t, |p| + j);
  }

  lemma CheckPatternsPrefix(p: string, s: string)
    ensures CheckJwsPattern(Some(s)) ==> CheckJwsPattern(Some(p + s))
    ensures CheckJwePattern(Some(s)) ==> CheckJwePattern(Some(p + s))
  {
    if CheckJwsPattern(Some(s)) {
      FoundAtEndPrefix(p, s, JwsShape);
    }
    if CheckJwePattern(Some(s)) {
      FoundAtEndPrefix(p, s, JweShape);
    }
  }

  /** The match must reach the end, so the last character of a candidate
      that is found is in `[a-zA-Z0-9\-_\.]` or is a line terminator. */
  lemma {:induction false} FoundAtEndLastChar(s: string, shape: seq<Segment>)
    requires |shape| > 1 && FoundAtEnd(s, shape)
    ensures s != "" && (IsTokenChar(s[|s| - 1]) || IsLineTerminator(s[|s| - 1]))
  {
    var i, j :| 0 <= i <= j <= |s| && Matches(s[i..j], shape) && DollarAt(s, j);
    DollarNearEnd(s, j);
    MatchedTextAlphabet(s[i..j], shape);
    if j == |s| {
      assert s[i..j][j - i - 1] == s[|s| - 1];
    }
  }

  lemma CheckPatternsBadLastChar(s: string)
    requires s != "" && !IsTokenChar(s[|s| - 1]) && !IsLineTerminator(s[|s| - 1])
    ensures !CheckJwsPattern(Some(s)) && !CheckJwePattern(Some(s))
  {
    if CheckJwsPattern(Some(s)) {
      FoundAtEndLastChar(s, JwsShape);
    }
    if CheckJwePattern(Some(s)) {
      FoundAtEndLastChar(s, JweShape);
    }
  }
}
