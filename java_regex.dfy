/**
 * The pieces of java.util.regex semantics that the patterns in
 * `eu.dety.burp.joseph.utilities.Finder` rely on: the character class
 * `[a-zA-Z0-9\-_]`, the case-insensitive literals `e` and `y`, and the
 * end anchor `$` compiled without MULTILINE and without UNIX_LINES.
 */
module JavaRegex {

  /** `[a-zA-Z0-9\-_]`. CASE_INSENSITIVE without UNICODE_CASE folds US-ASCII
      letters only, and both cases are already in the class, so the flag does
      not change it. */
  predicate IsClassChar(c: char) {
    ('a' <= c <= 'z') || ('A' <= c <= 'Z') || ('0' <= c <= '9') || c == '-' || c == '_'
  }

  /** `[a-zA-Z0-9\-_\.]`, the alphabet of a compact serialization. */
  predicate IsTokenChar(c: char) {
    IsClassChar(c) || c == '.'
  }

  /** The literal `e` under ASCII case folding. */
  predicate MatchesE(c: char) {
    c == 'e' || c == 'E'
  }

  /** The literal `y` under ASCII case folding. */
  predicate MatchesY(c: char) {
    c == 'y' || c == 'Y'
  }

  /** Every character of `t` is a class character. */
  predicate AllClass(t: string) {
    ClassSpan(t, 0, |t|)
  }

  /** Every character of `t` is in `[a-zA-Z0-9\-_\.]`. */
  predicate AllTokenChars(t: string) {
    TokenSpan(t, 0, |t|)
  }

  /** Java's line terminators when UNIX_LINES is not set. */
  predicate IsLineTerminator(c: char) {
    c == '\n' || c == '\r' || c == '\U{0085}' || c == '\U{2028}' || c == '\U{2029}'
  }

  /**
   * Whether `$` (without MULTILINE) matches at position `j` of `s`: at the
   * end of the input, just before a final "\r\n", or just before one final
   * line terminator, except between a '\r' and a '\n'.
   */
  predicate DollarAt(s: string, j: int) {
    0 <= j <= |s| &&
    (j == |s|
     || (j == |s| - 2 && s[j] == '\r' && s[j + 1] == '\n')
     || (j == |s| - 1 && IsLineTerminator(s[j]) && !(s[j] == '\n' && j > 0 && s[j - 1] == '\r')))
  }

  /** A `$` can only match at the end or at most two characters before it. */
  lemma DollarNearEnd(s: string, j: int)
    requires DollarAt(s, j)
    ensures |s| - 2 <= j <= |s|
    ensures j < |s| ==> IsLineTerminator(s[|s| - 1])
  {
  }

  /** Length of the longest suffix of `p` made of class characters. */
  function TrailingClassRun(p: string): (n: nat)
    ensures n <= |p|
    ensures AllClass(p[|p| - n..])
    ensures n < |p| ==> !IsClassChar(p[|p| - n - 1])
  {
    if |p| == 0 || !IsClassChar(p[|p| - 1]) then 0
    else
      var n' := TrailingClassRun(p[..|p| - 1]);
      assert p[|p| - (n' + 1)..] == p[..|p| - 1][|p| - 1 - n'..] + [p[|p| - 1]];
      n' + 1
  }

  /** Every all-class suffix of `p` lies inside the trailing class run. */
  lemma ClassSuffixInRun(p: string, m: int)
    requires 0 <= m <= |p| && AllClass(p[m..])
    ensures |p| - TrailingClassRun(p) <= m
  {
  }

  /** An all-class suffix preceded by a dot is exactly the trailing class run. */
  lemma DotBoundsRun(p: string, m: int)
    requires 0 < m <= |p| && AllClass(p[m..]) && p[m - 1] == '.'
    ensures m == |p| - TrailingClassRun(p)
  {
    ClassSuffixInRun(p, m);
  }

  /** Every character of `s` from `a` up to `b` is a class character. */
  predicate ClassSpan(s: string, a: int, b: int)
    requires 0 <= a <= b <= |s|
  {
    forall k :: a <= k < b ==> IsClassChar(s[k])
  }

  /** Every character of `s` from `a` up to `b` is in `[a-zA-Z0-9\-_\.]`. */
  predicate TokenSpan(s: string, a: int, b: int)
    requires 0 <= a <= b <= |s|
  {
    forall k :: a <= k < b ==> IsTokenChar(s[k])
  }

  /** End of the longest run of class characters starting at `k`. */
  function ClassRunEnd(s: string, k: nat): (m: nat)
    requires k <= |s|
    ensures k <= m <= |s|
    ensures ClassSpan(s, k, m)
    ensures m < |s| ==> !IsClassChar(s[m])
    decreases |s| - k
  {
    if k == |s| || !IsClassChar(s[k]) then k else ClassRunEnd(s, k + 1)
  }

  /** End of the longest run of `[a-zA-Z0-9\-_\.]` characters starting at `k`. */
  function TokenRunEnd(s: string, k: nat): (m: nat)
    requires k <= |s|
    ensures k <= m <= |s|
    ensures TokenSpan(s, k, m)
    ensures m < |s| ==> !IsTokenChar(s[m])
    decreases |s| - k
  {
    if k == |s| || !IsTokenChar(s[k]) then k else TokenRunEnd(s, k + 1)
  }

  /** A class run that stops at a non-class character ends exactly there. */
  lemma ClassRunEndAt(s: string, k: nat, m: nat)
    requires k <= m < |s| && ClassSpan(s, k, m) && !IsClassChar(s[m])
    ensures ClassRunEnd(s, k) == m
  {
  }

  /** The token run from `k` covers every all-token-character stretch from `k`. */
  lemma TokenRunCovers(s: string, k: nat, m: nat)
    requires k <= m <= |s| && TokenSpan(s, k, m)
    ensures m <= TokenRunEnd(s, k)
  {
  }
}
