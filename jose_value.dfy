/**
 * `Finder.getJoseValue`: the first compact serialization inside a candidate,
 * as `find()` and `group(0)` return it for the pattern
 * `ey[C]+\.[C]+\.([C]+)?([C.]+)*` (case-insensitive, `[C]` = `[a-zA-Z0-9\-_]`).
 *
 * `find()` reports the leftmost start position at which the pattern matches.
 * Every quantifier is greedy and nothing follows them, so at that start the
 * backtracking engine stops at its first success, which is the longest match.
 */
module JoseValue {
  import opened Wrappers
  import opened JavaRegex

  /** The pattern matches `s` from `i` to `j`. `([C]+)?([C.]+)*` matches
      exactly the strings over `[C.]`, so after the second dot any such
      string may follow. */
  ghost predicate MatchAt(s: string, i: int, j: int) {
    0 <= i && i + 2 <= j <= |s| && MatchesE(s[i]) && MatchesY(s[i + 1]) &&
    exists d1, d2 :: i + 2 < d1 && d1 + 1 < d2 < j &&
      ClassSpan(s, i + 2, d1) && s[d1] == '.' && ClassSpan(s, d1 + 1, d2) && s[d2] == '.' &&
      TokenSpan(s, d2 + 1, j)
  }

  /** The whole of `t` is in the language of the pattern. */
  ghost predicate JoseText(t: string) {
    MatchAt(t, 0, |t|)
  }

  /** The position just after `ey[C]+\.[C]+\.` when that prefix of the
      pattern matches at `i`. Each `[C]+` has to take its whole class run,
      since the character after a shorter run is a class character and not
      the dot that must follow. */
  function HeadEnd(s: string, i: nat): Option<nat>
    requires i <= |s|
  {
    if i + 2 <= |s| && MatchesE(s[i]) && MatchesY(s[i + 1]) then
      var m1 := ClassRunEnd(s, i + 2);
      if i + 2 < m1 < |s| && s[m1] == '.' then
        var m2 := ClassRunEnd(s, m1 + 1);
        if m1 + 1 < m2 < |s| && s[m2] == '.' then Some(m2 + 1) else None
      else None
    else None
  }

  /** Where the prefix matches, the pattern matches from `i` to every end
      between the prefix and the end of the following `[C.]` run. */
  lemma HeadEndSound(s: string, i: nat, j: nat)
    requires i <= |s| && HeadEnd(s, i).Some?
    requires HeadEnd(s, i).value <= j <= TokenRunEnd(s, HeadEnd(s, i).value)
    ensures MatchAt(s, i, j)
  {
    var m1 := ClassRunEnd(s, i + 2);
    var m2 := ClassRunEnd(s, m1 + 1);
    assert TokenSpan(s, m2 + 1, j);
    assert i + 2 < m1 && m1 + 1 < m2 < j && ClassSpan(s, i + 2, m1) && ClassSpan(s, m1 + 1, m2);
  }

  /** Every match from `i` passes through the prefix and stays inside the
      following `[C.]` run. */
  lemma HeadEndComplete(s: string, i: nat, j: nat)
    requires MatchAt(s, i, j)
    ensures HeadEnd(s, i).Some?
    ensures HeadEnd(s, i).value <= j <= TokenRunEnd(s, HeadEnd(s, i).value)
  {
    var d1, d2 :| i + 2 < d1 && d1 + 1 < d2 < j &&
      ClassSpan(s, i + 2, d1) && s[d1] == '.' && ClassSpan(s, d1 + 1, d2) && s[d2] == '.' &&
      TokenSpan(s, d2 + 1, j);
    ClassRunEndAt(s, i + 2, d1);
    ClassRunEndAt(s, d1 + 1, d2);
    TokenRunCovers(s, d2 + 1, j);
  }

  /** Whether the pattern matches at `i`, and if so, where its longest match
      there ends. */
  lemma HeadEndDecides(s: string, i: nat)
    requires i <= |s|
    ensures HeadEnd(s, i).None? ==> forall j :: !MatchAt(s, i, j)
    ensures HeadEnd(s, i).Some? ==>
      MatchAt(s, i, TokenRunEnd(s, HeadEnd(s, i).value)) &&
      forall j :: MatchAt(s, i, j) ==> j <= TokenRunEnd(s, HeadEnd(s, i).value)
  {
    forall j | MatchAt(s, i, j)
      ensures HeadEnd(s, i).Some? && j <= TokenRunEnd(s, HeadEnd(s, i).value)
    {
      HeadEndComplete(s, i, j);
    }
    if HeadEnd(s, i).Some? {
      HeadEndSound(s, i, TokenRunEnd(s, HeadEnd(s, i).value));
    }
  }

  /** `i` to `j` is the match `find()` reports: no match starts earlier and
      none from `i` ends later. */
  ghost predicate LeftmostLongest(s: string, i: int, j: int) {
    MatchAt(s, i, j) &&
    (forall a, b :: 0 <= a < i ==> !MatchAt(s, a, b)) &&
    (forall b :: j < b ==> !MatchAt(s, i, b))
  }

  /** The search of `find()` from position `i` on. */
  function FindFrom(s: string, i: nat): (r: Option<(nat, nat)>)
    requires i <= |s|
    requires forall a, b :: 0 <= a < i ==> !MatchAt(s, a, b)
    ensures r.None? ==> forall a, b :: !MatchAt(s, a, b)
    ensures r.Some? ==> LeftmostLongest(s, r.value.0, r.value.1)
    decreases |s| - i
  {
    HeadEndDecides(s, i);
    match HeadEnd(s, i)
    case Some(h) => Some((i, TokenRunEnd(s, h)))
    case None =>
      if i == |s| then
        assert forall a, b :: i < a ==> !MatchAt(s, a, b);
        None
      else FindFrom(s, i + 1)
  }

  /** `Finder.getJoseValue`: null (None) when the pattern matches nowhere,
      otherwise the leftmost, longest match. */
  function GetJoseValue(candidate: string): (r: Option<string>)
    ensures r.None? <==> forall i, j :: !MatchAt(candidate, i, j)
    ensures r.Some? ==> exists i, j :: LeftmostLongest(candidate, i, j) && r.value == candidate[i..j]
  {
    match FindFrom(candidate, 0)
    case None => None
    case Some((i, j)) => Some(candidate[i..j])
  }

  /** A match read as a text of its own is still a match. */
  lemma MatchAtSlice(s: string, i: int, j: int)
    requires MatchAt(s, i, j)
    ensures JoseText(s[i..j])
  {
    var t := s[i..j];
    var d1, d2 :| i + 2 < d1 && d1 + 1 < d2 < j &&
      ClassSpan(s, i + 2, d1) && s[d1] == '.' && ClassSpan(s, d1 + 1, d2) && s[d2] == '.' &&
      TokenSpan(s, d2 + 1, j);
    assert forall k :: 0 <= k < |t| ==> t[k] == s[i + k];
    assert ClassSpan(t, 2, d1 - i) && ClassSpan(t, d1 - i + 1, d2 - i) && TokenSpan(t, d2 - i + 1, |t|);
    assert t[d1 - i] == '.' && t[d2 - i] == '.';
  }

  /** A text of the pattern starts with `ey` in either case, consists of
      `[a-zA-Z0-9\-_\.]` characters only and holds at least two dots, the
      first of them not before the fourth character and not next to the
      second. */
  lemma JoseTextShape(t: string)
    requires JoseText(t)
    ensures |t| >= 5 && MatchesE(t[0]) && MatchesY(t[1])
    ensures forall k :: 0 <= k < |t| ==> IsTokenChar(t[k])
    ensures exists d1, d2 :: 2 < d1 && d1 + 1 < d2 < |t| && t[d1] == '.' && t[d2] == '.'
  {
    var d1, d2 :| 2 < d1 && d1 + 1 < d2 < |t| &&
      ClassSpan(t, 2, d1) && t[d1] == '.' && ClassSpan(t, d1 + 1, d2) && t[d2] == '.' &&
      TokenSpan(t, d2 + 1, |t|);
    forall k | 0 <= k < |t| ensures IsTokenChar(t[k]) {
      if k < 2 {
        assert IsClassChar(t[k]);
      } else if k < d1 {
        assert IsClassChar(t[k]);
      } else if d1 < k < d2 {
        assert IsClassChar(t[k]);
      }
    }
  }

  /** The returned value is a text of the pattern on its own: see JoseTextShape. */
  lemma JoseValueShape(candidate: string)
    requires GetJoseValue(candidate).Some?
    ensures JoseText(GetJoseValue(candidate).value)
    ensures var v := GetJoseValue(candidate).value;
      |v| >= 5 && MatchesE(v[0]) && MatchesY(v[1]) &&
      (forall k :: 0 <= k < |v| ==> IsTokenChar(v[k])) &&
      exists d1, d2 :: 2 < d1 && d1 + 1 < d2 < |v| && v[d1] == '.' && v[d2] == '.'
  {
    var v := GetJoseValue(candidate).value;
    var i, j :| LeftmostLongest(candidate, i, j) && v == candidate[i..j];
    MatchAtSlice(candidate, i, j);
    JoseTextShape(v);
  }

  /** A match can absorb a following `[a-zA-Z0-9\-_\.]` character. */
  lemma MatchAtExtend(s: string, i: int, j: int)
    requires MatchAt(s, i, j) && j < |s| && IsTokenChar(s[j])
    ensures MatchAt(s, i, j + 1)
  {
    var d1, d2 :| i + 2 < d1 && d1 + 1 < d2 < j &&
      ClassSpan(s, i + 2, d1) && s[d1] == '.' && ClassSpan(s, d1 + 1, d2) && s[d2] == '.' &&
      TokenSpan(s, d2 + 1, j);
    assert TokenSpan(s, d2 + 1, j + 1);
  }

  /** The value is extended greedily: the candidate's next character, if
      any, is outside `[a-zA-Z0-9\-_\.]`. */
  lemma JoseValueMaximal(candidate: string)
    requires GetJoseValue(candidate).Some?
    ensures exists i, j ::
              (LeftmostLongest(candidate, i, j) && GetJoseValue(candidate).value == candidate[i..j] &&
               (j == |candidate| || !IsTokenChar(candidate[j])))
  {
    var (i, j) := FindFrom(candidate, 0).value;
    assert GetJoseValue(candidate).value == candidate[i..j];
    if j < |candidate| && IsTokenChar(candidate[j]) {
      MatchAtExtend(candidate, i, j);
    }
    assert LeftmostLongest(candidate, i, j);
  }

  /** A text of the pattern is its own value. */
  lemma JoseTextIsOwnValue(t: string)
    requires JoseText(t)
    ensures GetJoseValue(t) == Some(t)
  {
    assert LeftmostLongest(t, 0, |t|);
    LeftmostLongestIsValue(t, 0, |t|);
    assert t[0..|t|] == t;
  }

  /** Applying `getJoseValue` to its own result returns that result. */
  lemma JoseValueIdempotent(candidate: string)
    requires GetJoseValue(candidate).Some?
    ensures GetJoseValue(GetJoseValue(candidate).value) == GetJoseValue(candidate)
  {
    JoseValueShape(candidate);
    JoseTextIsOwnValue(GetJoseValue(candidate).value);
  }

  /** The leftmost, longest match determines the value. */
  lemma LeftmostLongestIsValue(candidate: string, i: int, j: int)
    requires LeftmostLongest(candidate, i, j)
    ensures GetJoseValue(candidate) == Some(candidate[i..j])
  {
    assert GetJoseValue(candidate).Some?;
    var a, b :| LeftmostLongest(candidate, a, b) && GetJoseValue(candidate).value == candidate[a..b];
    assert MatchAt(candidate, i, j) && MatchAt(candidate, a, b);
    assert a == i;
    assert MatchAt(candidate, i, b);
    assert b == j;
  }
}
