/**
 * `Finder.checkJwsPattern` and `Finder.checkJwePattern`: does a candidate end
 * with a compact JWS or JWE serialization?
 *
 * Both regular expressions are a dot-separated sequence of segment shapes
 * followed by `$`, searched for with `Matcher.find()`:
 *   JWS  `ey[C]+\.ey[C]+\.([C]+)?$`            = [Head, Head, OptionalBody]
 *   JWE  `ey[C]+\.[C]+\.[C]+\.[C]+\.[C]+$`     = [Head, Body, Body, Body, Body]
 * where `[C]` is `[a-zA-Z0-9\-_]`. `Matches` is the language of a shape,
 * `FoundAtEnd` is what `find()` decides, and `HasMatchingSuffix` is the
 * hand-coded recogniser that the check functions use.
 */
module JosePatterns {
  import opened Wrappers
  import opened JavaRegex

  datatype Segment =
    | Head          // ey[C]+
    | Body          // [C]+
    | OptionalBody  // ([C]+)?

  predicate SegmentMatches(k: Segment, t: string) {
    AllClass(t) &&
    match k
    case Head => |t| >= 3 && MatchesE(t[0]) && MatchesY(t[1])
    case Body => |t| >= 1
    case OptionalBody => true
  }

  const JwsShape: seq<Segment> := [Head, Head, OptionalBody]
  const JweShape: seq<Segment> := [Head, Body, Body, Body, Body]

  /** `t` is in the language of the segments of `shape` joined by `\.`. */
  ghost predicate Matches(t: string, shape: seq<Segment>)
    decreases |shape|
  {
    if |shape| <= 1 then
      |shape| == 1 && SegmentMatches(shape[0], t)
    else
      exists d :: 0 <= d < |t| && t[d] == '.' &&
        Matches(t[..d], shape[..|shape| - 1]) && SegmentMatches(shape[|shape| - 1], t[d + 1..])
  }

  /** Some suffix of `p` is in the language of `shape`. */
  ghost predicate EndsWithMatch(p: string, shape: seq<Segment>) {
    exists i :: 0 <= i <= |p| && Matches(p[i..], shape)
  }

  /** What `Pattern.compile("(" + shape + ")$").matcher(s).find()` decides:
      a match starts somewhere and ends where `$` matches. */
  ghost predicate FoundAtEnd(s: string, shape: seq<Segment>) {
    exists i, j :: 0 <= i <= j <= |s| && Matches(s[i..j], shape) && DollarAt(s, j)
  }

  /**
   * Backward recogniser for `EndsWithMatch`. Segments hold no dot, so every
   * segment but the first is the whole class run before the end or before
   * the next dot; only the first segment may start inside its run.
   */
  function HasMatchingSuffix(p: string, shape: seq<Segment>): bool
    decreases |shape|
  {
    if |shape| == 0 then false
    else
      var n := TrailingClassRun(p);
      var last := shape[|shape| - 1];
      if |shape| == 1 then
        exists i | |p| - n <= i <= |p| :: SegmentMatches(last, p[i..])
      else
        SegmentMatches(last, p[|p| - n..]) && n < |p| && p[|p| - n - 1] == '.' &&
        HasMatchingSuffix(p[..|p| - n - 1], shape[..|shape| - 1])
  }

  lemma {:induction false} HasMatchingSuffixCorrect(p: string, shape: seq<Segment>)
    ensures HasMatchingSuffix(p, shape) <==> EndsWithMatch(p, shape)
    decreases |shape|
  {
    if |shape| == 1 {
      FirstSegmentCorrect(p, shape);
    } else if |shape| > 1 {
      var n := TrailingClassRun(p);
      if SegmentMatches(shape[|shape| - 1], p[|p| - n..]) && n < |p| && p[|p| - n - 1] == '.' {
        HasMatchingSuffixCorrect(p[..|p| - n - 1], shape[..|shape| - 1]);
        if EndsWithMatch(p[..|p| - n - 1], shape[..|shape| - 1]) {
          ExtendAtDot(p, |p| - n - 1, shape);
        }
      }
      if EndsWithMatch(p, shape) {
        SplitSuffixMatch(p, shape);
        HasMatchingSuffixCorrect(p[..|p| - n - 1], shape[..|shape| - 1]);
      }
    }
  }

  /** A one-segment match is a suffix of the trailing class run. */
  lemma FirstSegmentCorrect(p: string, shape: seq<Segment>)
    requires |shape| == 1
    ensures HasMatchingSuffix(p, shape) <==> EndsWithMatch(p, shape)
  {
    var n := TrailingClassRun(p);
    if EndsWithMatch(p, shape) {
      var i :| 0 <= i <= |p| && Matches(p[i..], shape);
      ClassSuffixInRun(p, i);
    }
    if HasMatchingSuffix(p, shape) {
      var i :| |p| - n <= i <= |p| && SegmentMatches(shape[0], p[i..]);
      assert Matches(p[i..], shape);
    }
  }

  /** Joining a match of the leading segments and a match of the last one
      with a dot matches the whole shape. */
  lemma JoinMatch(u: string, v: string, shape: seq<Segment>)
    requires |shape| > 1
    requires Matches(u, shape[..|shape| - 1]) && SegmentMatches(shape[|shape| - 1], v)
    ensures Matches(u + ['.'] + v, shape)
  {
    var t := u + ['.'] + v;
    assert t[..|u|] == u;
    assert t[|u| + 1..] == v;
  }

  /** A suffix match of the leading segments before a dot, followed by a
      match of the last segment, is a suffix match of the whole shape. */
  lemma ExtendAtDot(p: string, m: nat, shape: seq<Segment>)
    requires |shape| > 1 && m < |p| && p[m] == '.'
    requires SegmentMatches(shape[|shape| - 1], p[m + 1..])
    requires EndsWithMatch(p[..m], shape[..|shape| - 1])
    ensures EndsWithMatch(p, shape)
  {
    var i :| 0 <= i <= m && Matches(p[..m][i..], shape[..|shape| - 1]);
    JoinMatch(p[..m][i..], p[m + 1..], shape);
    SliceAtDot(p, i, m);
    assert Matches(p[i..], shape);
  }

  lemma SliceAtDot(p: string, i: nat, m: nat)
    requires i <= m < |p| && p[m] == '.'
    ensures p[i..] == p[..m][i..] + ['.'] + p[m + 1..]
  {
  }

  /** In a suffix match of a shape with several segments, the last segment is
      the whole trailing run and the rest matches a suffix before its dot. */
  lemma SplitSuffixMatch(p: string, shape: seq<Segment>)
    requires |shape| > 1 && EndsWithMatch(p, shape)
    ensures TrailingClassRun(p) < |p| && p[|p| - TrailingClassRun(p) - 1] == '.'
    ensures SegmentMatches(shape[|shape| - 1], p[|p| - TrailingClassRun(p)..])
    ensures EndsWithMatch(p[..|p| - TrailingClassRun(p) - 1], shape[..|shape| - 1])
  {
    var m := SplitDotOfSuffixMatch(p, shape);
    DotBoundsRun(p, m + 1);
  }

  /** The dot in front of the last segment of a suffix match. */
  lemma SplitDotOfSuffixMatch(p: string, shape: seq<Segment>) returns (m: nat)
    requires |shape| > 1 && EndsWithMatch(p, shape)
    ensures m < |p| && p[m] == '.'
    ensures SegmentMatches(shape[|shape| - 1], p[m + 1..])
    ensures EndsWithMatch(p[..m], shape[..|shape| - 1])
  {
    var i :| 0 <= i <= |p| && Matches(p[i..], shape);
    var d :| 0 <= d < |p[i..]| && p[i..][d] == '.' && Matches(p[i..][..d], shape[..|shape| - 1])
             && SegmentMatches(shape[|shape| - 1], p[i..][d + 1..]);
    m := i + d;
    SliceAt(p, i, d);
  }

  lemma SliceAt(p: string, i: nat, d: nat)
    requires i + d < |p|
    ensures p[i..][d] == p[i + d]
    ensures p[i..][d + 1..] == p[i + d + 1..]
    ensures p[i..][..d] == p[..i + d][i..]
  {
  }

  /** Every character of a matched text is in `[a-zA-Z0-9\-_\.]`. */
  lemma {:induction false} MatchedTextAlphabet(t: string, shape: seq<Segment>)
    requires Matches(t, shape)
    ensures AllTokenChars(t)
    decreases |shape|
  {
    if |shape| > 1 {
      var d :| 0 <= d < |t| && t[d] == '.' &&
        Matches(t[..d], shape[..|shape| - 1]) && SegmentMatches(shape[|shape| - 1], t[d + 1..]);
      MatchedTextAlphabet(t[..d], shape[..|shape| - 1]);
      forall k | 0 <= k < |t| ensures IsTokenChar(t[k]) {
        if k < d {
          assert t[..d][k] == t[k];
        } else if k > d {
          assert t[d + 1..][k - d - 1] == t[k];
        }
      }
    }
  }

  /** Index of the last '.' in `t`, or -1 when there is none. */
  function LastDot(t: string): (d: int)
    ensures -1 <= d < |t|
    ensures d >= 0 ==> t[d] == '.'
    ensures forall k :: d < k < |t| ==> t[k] != '.'
  {
    if |t| == 0 then -1
    else if t[|t| - 1] == '.' then |t| - 1
    else LastDot(t[..|t| - 1])
  }

  /** The pieces joined back together with a '.' between neighbours. */
  function JoinDots(pieces: seq<string>): string
    requires |pieces| >= 1
  {
    if |pieces| == 1 then pieces[0]
    else JoinDots(pieces[..|pieces| - 1]) + ['.'] + pieces[|pieces| - 1]
  }

  /** The pieces of `t` between its dots, empty pieces included. */
  function SplitDots(t: string): (pieces: seq<string>)
    ensures |pieces| >= 1
    ensures JoinDots(pieces) == t
    ensures forall k :: 0 <= k < |pieces| ==> '.' !in pieces[k]
    decreases |t|
  {
    var d := LastDot(t);
    if d < 0 then [t]
    else
      var init := SplitDots(t[..d]);
      var last := t[d + 1..];
      assert (init + [last])[..|init|] == init;
      assert t == t[..d] + ['.'] + last;
      assert forall k :: 0 <= k < |last| ==> last[k] == t[d + 1 + k];
      init + [last]
  }

  /** A text matches a shape exactly when it has one piece per segment and
      each piece matches its segment. */
  lemma {:induction false} MatchesBySplit(t: string, shape: seq<Segment>)
    ensures Matches(t, shape) <==> PiecesMatch(SplitDots(t), shape)
    decreases |shape|
  {
    var d := LastDot(t);
    if |shape| <= 1 {
      SingleSegmentBySplit(t, shape);
    } else if d >= 0 {
      MatchesBySplit(t[..d], shape[..|shape| - 1]);
      PiecesMatchSnoc(SplitDots(t[..d]), t[d + 1..], shape);
      if Matches(t, shape) {
        MatchSplitsAtLastDot(t, shape);
      }
      if PiecesMatch(SplitDots(t), shape) {
        JoinAtLastDot(t, shape);
      }
    }
  }

  lemma SingleSegmentBySplit(t: string, shape: seq<Segment>)
    requires |shape| <= 1
    ensures Matches(t, shape) <==> PiecesMatch(SplitDots(t), shape)
  {
    var d := LastDot(t);
    if d >= 0 {
      assert !AllClass(t) by { assert !IsClassChar(t[d]); }
      assert |SplitDots(t)| >= 2;
    }
  }

  lemma JoinAtLastDot(t: string, shape: seq<Segment>)
    requires |shape| > 1 && LastDot(t) >= 0
    requires Matches(t[..LastDot(t)], shape[..|shape| - 1])
    requires SegmentMatches(shape[|shape| - 1], t[LastDot(t) + 1..])
    ensures Matches(t, shape)
  {
  }

  /** One piece per segment, each piece matching its segment. */
  predicate PiecesMatch(pieces: seq<string>, shape: seq<Segment>) {
    |pieces| == |shape| && forall k :: 0 <= k < |shape| ==> SegmentMatches(shape[k], pieces[k])
  }

  lemma PiecesMatchSnoc(pieces: seq<string>, piece: string, shape: seq<Segment>)
    requires |shape| > 0
    ensures PiecesMatch(pieces + [piece], shape) <==>
      PiecesMatch(pieces, shape[..|shape| - 1]) && SegmentMatches(shape[|shape| - 1], piece)
  {
    if PiecesMatch(pieces, shape[..|shape| - 1]) && SegmentMatches(shape[|shape| - 1], piece) {
      forall k | 0 <= k < |shape| ensures SegmentMatches(shape[k], (pieces + [piece])[k]) {
        if k < |shape| - 1 {
          assert shape[..|shape| - 1][k] == shape[k];
        }
      }
    }
    if PiecesMatch(pieces + [piece], shape) {
      forall k | 0 <= k < |shape| - 1 ensures SegmentMatches(shape[..|shape| - 1][k], pieces[k]) {
        assert (pieces + [piece])[k] == pieces[k];
      }
    }
  }

  /** In a match of several segments the last separating dot is the last dot. */
  lemma MatchSplitsAtLastDot(t: string, shape: seq<Segment>)
    requires |shape| > 1 && Matches(t, shape)
    ensures LastDot(t) >= 0
    ensures Matches(t[..LastDot(t)], shape[..|shape| - 1])
    ensures SegmentMatches(shape[|shape| - 1], t[LastDot(t) + 1..])
  {
    var e :| 0 <= e < |t| && t[e] == '.' &&
      Matches(t[..e], shape[..|shape| - 1]) && SegmentMatches(shape[|shape| - 1], t[e + 1..]);
    forall k | e < k < |t| ensures t[k] != '.' {
      assert t[e + 1..][k - e - 1] == t[k];
    }
    assert LastDot(t) == e;
  }

}
