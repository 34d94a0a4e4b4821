# JOSE token recognition in JOSEPH's Finder

JOSEPH is a Burp Suite extension for testing JSON Web Signature (JWS) and
JSON Web Encryption (JWE) implementations. Its class
`eu.dety.burp.joseph.utilities.Finder` decides whether a request carries a
JOSE value and where it is. This project models that class in Dafny:

- `checkJwsPattern` and `checkJwePattern` (module `JoseChecks`). Each is
  an unanchored `find()` of a case-insensitive regex that ends in `$`. The
  model gives the regex's language as a shape of dot-separated segments
  (`JosePatterns.Matches`) and Java's `$` without MULTILINE as
  `JavaRegex.DollarAt`. A Java `null` candidate is `None`. Each check is
  computed by a backward recogniser, `JosePatterns.HasMatchingSuffix`, which
  is proved equal to the regex semantics.
- `getJoseValue` (module `JoseValue`). It returns the leftmost match of its
  pattern, extended as far as the greedy quantifiers reach, or `None` where
  the source returns `null`. The tail `([C]+)?([C.]+)*` is modelled as the
  equivalent `[C.]*`.
- `checkHeaderAndParameterForJwsPattern` and
  `checkHeaderAndParameterForJwePattern` (module `JoseSelection`). These
  are two `for` loops: one over the header lines, then one over the
  parameters. Each qualifying entry overwrites the result. In the model,
  Burp's `IRequestInfo` becomes a sequence of header lines and a sequence of
  parameters, and `PreferencesPanel.getParameterNames()` becomes a set of
  names passed as an argument. Both loops are proved against the functional
  specification `Selection`.

`JavaRegex` holds the character classes, Java's line terminators and the
semantics of `$`. `JoseExamples` works through concrete inputs.

## Model

| member | source | states |
|---|---|---|
| JavaRegex.IsClassChar | src/main/java/eu/dety/burp/joseph/utilities/Finder.java:47 | The class `[a-zA-Z0-9\-_]`: ASCII letters of both cases, digits, `-` and `_`. CASE_INSENSITIVE does not change it. |
| JavaRegex.IsTokenChar | src/main/java/eu/dety/burp/joseph/utilities/Finder.java:79 | The class `[a-zA-Z0-9\-_\.]`: a class character or a dot. |
| JavaRegex.MatchesE | src/main/java/eu/dety/burp/joseph/utilities/Finder.java:47 | The literal `e` under CASE_INSENSITIVE without UNICODE_CASE: `e` or `E`. |
| JavaRegex.MatchesY | src/main/java/eu/dety/burp/joseph/utilities/Finder.java:47 | The literal `y` under the same flag: `y` or `Y`. |
| JavaRegex.IsLineTerminator | src/main/java/eu/dety/burp/joseph/utilities/Finder.java:47 | Java's line terminators without UNIX_LINES: `\n`, `\r`, U+0085, U+2028 and U+2029. |
| JavaRegex.DollarAt | src/main/java/eu/dety/burp/joseph/utilities/Finder.java:47 | `$` without MULTILINE: at the end of input, or before a final `\r\n`, or before one final terminator that is not the `\n` of a `\r\n`. |
| JosePatterns.SegmentMatches | src/main/java/eu/dety/burp/joseph/utilities/Finder.java:47-64 | One dot-free piece of the patterns: `ey` then one or more class chars (Head), one or more class chars (Body), or zero or more class chars (the optional JWS signature). |
| JosePatterns.Matches | src/main/java/eu/dety/burp/joseph/utilities/Finder.java:47-64 | A text is in a shape's language when it is one segment match, or a match of the leading segments, a dot and a match of the last segment. |
| JosePatterns.FoundAtEnd | src/main/java/eu/dety/burp/joseph/utilities/Finder.java:47-50 | What `find()` decides: some substring s[i..j] is in the shape's language and `$` matches at j. |
| JosePatterns.JwsShape | src/main/java/eu/dety/burp/joseph/utilities/Finder.java:47 | The regex `ey[C]+\.ey[C]+\.([C]+)?` as dot-separated segments: Head, Head, OptionalBody. |
| JosePatterns.JweShape | src/main/java/eu/dety/burp/joseph/utilities/Finder.java:64 | The regex `ey[C]+` followed by four `\.[C]+` as segments: Head, Body, Body, Body, Body. |
| JosePatterns.EndsWithMatch | src/main/java/eu/dety/burp/joseph/utilities/Finder.java:47-50 | Some suffix of the text, possibly empty, is in the shape's language. |
| JoseChecks.IsJwsText | src/main/java/eu/dety/burp/joseph/utilities/Finder.java:47 | The split reading of a compact JWS: exactly three dot-separated pieces, the first two `ey` followed by at least one class char, the third all class chars and possibly empty. |
| JoseChecks.IsJweText | src/main/java/eu/dety/burp/joseph/utilities/Finder.java:64 | The split reading of a compact JWE: exactly five dot-separated pieces, the first `ey` followed by at least one class char, the other four non-empty runs of class chars. |
| JoseValue.JoseText | src/main/java/eu/dety/burp/joseph/utilities/Finder.java:79 | The whole text is in the language of the pattern at Finder.java:79. |
| JosePatterns.HasMatchingSuffix | src/main/java/eu/dety/burp/joseph/utilities/Finder.java:47-50 | The computable recogniser the checks run: the last segment is the trailing class run, preceded by a dot and a recursive suffix match of the leading segments; the first segment may start anywhere inside its run. |
| JosePatterns.SplitDots | src/main/java/eu/dety/burp/joseph/utilities/Finder.java:47-64 | The pieces of a text between its dots: at least one, none containing a dot, and joined back with dots they give the text. |
| JoseChecks.JwsPieces | src/main/java/eu/dety/burp/joseph/utilities/Finder.java:47 | Pieces match the JWS shape iff there are three: an `ey` run, an `ey` run, then zero or more class chars. |
| JoseChecks.JwePieces | src/main/java/eu/dety/burp/joseph/utilities/Finder.java:64 | Pieces match the JWE shape iff there are five: an `ey` run, then four non-empty class runs. |
| JoseValue.MatchAt | src/main/java/eu/dety/burp/joseph/utilities/Finder.java:79 | The pattern at Finder.java:79 matches s[i..j]: `ey` in either case, class chars up to a dot, one or more class chars up to a second dot, then any token chars up to j. |
| JoseValue.HeadEnd | src/main/java/eu/dety/burp/joseph/utilities/Finder.java:79 | Where the greedy prefix `ey[C]+.[C]+.` from i ends, or None when it does not match there. |
| JoseValue.LeftmostLongest | src/main/java/eu/dety/burp/joseph/utilities/Finder.java:80-82 | The span `find()` and `group(0)` pick: a match at the smallest start with a match, ending at the largest end from that start. |
| JoseSelection.CheckFor | src/main/java/eu/dety/burp/joseph/utilities/Finder.java:97 | The pattern check for the type, on a possibly null candidate: `checkJwsPattern` at Finder.java:97 and 104, `checkJwePattern` at Finder.java:124 and 131. |
| JoseSelection.HeaderQualifies | src/main/java/eu/dety/burp/joseph/utilities/Finder.java:97 | The header condition, also at Finder.java:124: the header name is configured and the whole header line passes the check. |
| JoseSelection.ParameterQualifies | src/main/java/eu/dety/burp/joseph/utilities/Finder.java:104 | The parameter condition, also at Finder.java:131: the parameter name is configured and its value, which may be null, passes the check; a null value never does. |
| JoseChecks.CheckJwsPattern | src/main/java/eu/dety/burp/joseph/utilities/Finder.java:43-51 | The result is true iff the candidate is non-null and non-empty and some substring s[i..j] is in the JWS language with `$` matching at j. |
| JoseChecks.CheckJwePattern | src/main/java/eu/dety/burp/joseph/utilities/Finder.java:60-69 | The same statement for the JWE language. |
| JoseChecks.CheckPattern | src/main/java/eu/dety/burp/joseph/utilities/Finder.java:44-50 | The shared body of both checks: false for null or empty, otherwise a `find()` ending where `$` matches. |
| JoseChecks.FoundAtEndCases | src/main/java/eu/dety/burp/joseph/utilities/Finder.java:47-50 | A match ending at `$` ends at the last position, or one or two characters before it in front of a final line terminator. |
| JoseChecks.RecogniserDecidesFind | src/main/java/eu/dety/burp/joseph/utilities/Finder.java:48-50 | The unanchored `find()` with `$` holds iff the backward recogniser accepts the input or the input minus its final one or two terminator characters. |
| JoseChecks.JwsShapeMeaning | src/main/java/eu/dety/burp/joseph/utilities/Finder.java:47 | A text is in the JWS language iff it splits at its dots into exactly three pieces: `ey` plus at least one class char, the same again, then zero or more class chars. |
| JoseChecks.JweShapeMeaning | src/main/java/eu/dety/burp/joseph/utilities/Finder.java:64 | A text is in the JWE language iff it splits into exactly five pieces: `ey` plus at least one class char, then four non-empty class runs. |
| JoseChecks.CheckJwsPatternSuffix | src/main/java/eu/dety/burp/joseph/utilities/Finder.java:47-50 | For a non-empty candidate not ending in a line terminator, `checkJwsPattern` holds iff some non-empty suffix is a compact JWS. |
| JoseChecks.CheckJwePatternSuffix | src/main/java/eu/dety/burp/joseph/utilities/Finder.java:64-68 | For a non-empty candidate not ending in a line terminator, `checkJwePattern` holds iff some non-empty suffix is a compact JWE. |
| JoseChecks.JweEmptyPieceRejected | src/main/java/eu/dety/burp/joseph/utilities/Finder.java:64 | A text with an empty dot-separated piece is not in the JWE language. |
| JoseChecks.FoundAtEndPrefix | src/main/java/eu/dety/burp/joseph/utilities/Finder.java:48-50 | A match found at the end of s is also found at the end of p + s. |
| JoseChecks.CheckPatternsPrefix | src/main/java/eu/dety/burp/joseph/utilities/Finder.java:48-50 | If either check accepts s, it also accepts p + s for every prefix p. |
| JoseChecks.FoundAtEndLastChar | src/main/java/eu/dety/burp/joseph/utilities/Finder.java:47 | When a match is found, the input's last char is in `[A-Za-z0-9-_.]` or is a line terminator. |
| JoseChecks.CheckPatternsBadLastChar | src/main/java/eu/dety/burp/joseph/utilities/Finder.java:47 | A candidate whose last char is neither a token char nor a line terminator is rejected by both checks. |
| JosePatterns.HasMatchingSuffixCorrect | src/main/java/eu/dety/burp/joseph/utilities/Finder.java:47 | The backward recogniser accepts p iff some suffix of p is in the shape's language. |
| JosePatterns.FirstSegmentCorrect | src/main/java/eu/dety/burp/joseph/utilities/Finder.java:47 | The recogniser is correct for a one-segment shape. |
| JosePatterns.JoinMatch | src/main/java/eu/dety/burp/joseph/utilities/Finder.java:47 | Joining a match of the leading segments and a match of the last segment with a dot gives a match of the whole shape. |
| JosePatterns.ExtendAtDot | src/main/java/eu/dety/burp/joseph/utilities/Finder.java:47 | A suffix match before a dot, followed by a match of the last segment, is a suffix match of the whole shape. |
| JosePatterns.SplitSuffixMatch | src/main/java/eu/dety/burp/joseph/utilities/Finder.java:47 | In a suffix match of several segments, the last segment is exactly the trailing class run after a dot, and the rest matches a suffix before that dot. |
| JosePatterns.SplitDotOfSuffixMatch | src/main/java/eu/dety/burp/joseph/utilities/Finder.java:47 | A suffix match of several segments has a dot in front of its last segment, with a suffix match of the leading segments before it. |
| JosePatterns.MatchedTextAlphabet | src/main/java/eu/dety/burp/joseph/utilities/Finder.java:47-64 | A matched text consists of `[A-Za-z0-9-_.]` characters only. |
| JosePatterns.MatchesBySplit | src/main/java/eu/dety/burp/joseph/utilities/Finder.java:47-64 | A text is in a shape's language iff its split at every dot has one piece per segment, each piece matching its segment. |
| JosePatterns.SingleSegmentBySplit | src/main/java/eu/dety/burp/joseph/utilities/Finder.java:47-64 | The split characterisation for a one-segment shape. |
| JosePatterns.JoinAtLastDot | src/main/java/eu/dety/burp/joseph/utilities/Finder.java:47-64 | A match of the leading segments, a dot, then a match of the last segment is a match of the whole shape. |
| JosePatterns.PiecesMatchSnoc | src/main/java/eu/dety/burp/joseph/utilities/Finder.java:47-64 | Pieces plus one more piece match a shape iff the pieces match its leading segments and the new piece matches its last segment. |
| JosePatterns.MatchSplitsAtLastDot | src/main/java/eu/dety/burp/joseph/utilities/Finder.java:47-64 | A match of several segments splits at its last dot. |
| JosePatterns.LastDot | src/main/java/eu/dety/burp/joseph/utilities/Finder.java:47-64 | The result is -1 when the text has no dot, and otherwise the index of its last dot. |
| JoseValue.HeadEndSound | src/main/java/eu/dety/burp/joseph/utilities/Finder.java:79 | When `ey[C]+.[C]+.` matches from i, every end from that prefix to its token run is a match. |
| JoseValue.HeadEndComplete | src/main/java/eu/dety/burp/joseph/utilities/Finder.java:79 | Every match starting at i ends between the prefix end and the end of its token run. |
| JoseValue.HeadEndDecides | src/main/java/eu/dety/burp/joseph/utilities/Finder.java:79 | Whether a match starts at i, and its longest end, are decided by the greedy prefix. |
| JoseValue.FindFrom | src/main/java/eu/dety/burp/joseph/utilities/Finder.java:80-82 | If no match starts before i, the result is None iff no match exists; otherwise it is the leftmost start with its longest end. |
| JoseValue.GetJoseValue | src/main/java/eu/dety/burp/joseph/utilities/Finder.java:78-83 | The result is None iff no substring matches; otherwise it is the substring at the leftmost start with the longest end. |
| JoseValue.MatchAtSlice | src/main/java/eu/dety/burp/joseph/utilities/Finder.java:79 | A match inside a string is a match of the substring on its own. |
| JoseValue.JoseTextShape | src/main/java/eu/dety/burp/joseph/utilities/Finder.java:79 | A matched text is at least five chars long, starts with `ey` in either case, uses only `[A-Za-z0-9-_.]` and has a dot after the `ey` run and another after the next run. |
| JoseValue.JoseValueShape | src/main/java/eu/dety/burp/joseph/utilities/Finder.java:79-82 | A non-null result is a substring of the candidate and has the shape above. |
| JoseValue.MatchAtExtend | src/main/java/eu/dety/burp/joseph/utilities/Finder.java:79 | A match followed by a token char extends by one. |
| JoseValue.JoseValueMaximal | src/main/java/eu/dety/burp/joseph/utilities/Finder.java:79-82 | A non-null result is the substring at a leftmost-longest span, and the character after that span, if any, is not in `[A-Za-z0-9-_.]`. |
| JoseValue.JoseTextIsOwnValue | src/main/java/eu/dety/burp/joseph/utilities/Finder.java:79-82 | A string in the whole pattern's language is its own value. |
| JoseValue.JoseValueIdempotent | src/main/java/eu/dety/burp/joseph/utilities/Finder.java:79-82 | Applying `getJoseValue` to its own non-null result returns that result. |
| JoseValue.LeftmostLongestIsValue | src/main/java/eu/dety/burp/joseph/utilities/Finder.java:79-82 | Any leftmost-longest span is the one returned; the choice is unique. |
| JoseSelection.HeaderName | src/main/java/eu/dety/burp/joseph/utilities/Finder.java:97 | The name is the prefix of the header line before its first ':', or the whole line. |
| JoseSelection.LastSatisfying | src/main/java/eu/dety/burp/joseph/utilities/Finder.java:96-107 | None iff nothing satisfies the condition; otherwise the satisfying element with no later satisfying element. |
| JoseSelection.LastSatisfyingSnoc | src/main/java/eu/dety/burp/joseph/utilities/Finder.java:96-100 | Appending an element keeps the previous answer unless the new element qualifies, in which case it is the answer. |
| JoseSelection.Selection | src/main/java/eu/dety/burp/joseph/utilities/Finder.java:92-137 | None iff no header and no parameter qualifies; the type is the requested one; the origin is a parameter iff some parameter qualifies; the value is the last qualifying parameter, or else the last qualifying header. |
| JoseSelection.SelectionNextHeader | src/main/java/eu/dety/burp/joseph/utilities/Finder.java:96-100 | One more header line changes the selection only if it qualifies. |
| JoseSelection.SelectionNextParameter | src/main/java/eu/dety/burp/joseph/utilities/Finder.java:103-107 | One more parameter changes the selection only if it qualifies, and a qualifying one replaces any header. |
| JoseSelection.FindJoseParameter | src/main/java/eu/dety/burp/joseph/utilities/Finder.java:93-109 | The two loops compute `Selection` for the requested type. |
| JoseSelection.CheckHeaderAndParameterForJwsPattern | src/main/java/eu/dety/burp/joseph/utilities/Finder.java:92-110 | The JWS search returns `Selection` for JWS. |
| JoseSelection.CheckHeaderAndParameterForJwePattern | src/main/java/eu/dety/burp/joseph/utilities/Finder.java:119-137 | The JWE search returns `Selection` for JWE. |
| JavaRegex.DollarNearEnd | src/main/java/eu/dety/burp/joseph/utilities/Finder.java:47 | `$` matches only at the end or at most two chars before it, and then the last char is a line terminator. |
| JavaRegex.TrailingClassRun | src/main/java/eu/dety/burp/joseph/utilities/Finder.java:47 | The length of the longest all-class suffix. |
| JavaRegex.DotBoundsRun | src/main/java/eu/dety/burp/joseph/utilities/Finder.java:47 | An all-class suffix preceded by a dot is exactly the trailing class run. |
| JavaRegex.ClassRunEnd | src/main/java/eu/dety/burp/joseph/utilities/Finder.java:79 | The end of the longest class run from k. |
| JavaRegex.TokenRunEnd | src/main/java/eu/dety/burp/joseph/utilities/Finder.java:79 | The end of the longest run of `[A-Za-z0-9-_.]` from k. |
| JoseExamples.ShortJwsMatches | src/main/java/eu/dety/burp/joseph/utilities/Finder.java:47 | `ey1.ey2.s` is in the JWS language. |
| JoseExamples.JwsHeaderLineAccepted | src/main/java/eu/dety/burp/joseph/utilities/Finder.java:97 | The header line `x: ey1.ey2.s` passes `checkJwsPattern`. |
| JoseExamples.JweEmptySegmentRejected | src/main/java/eu/dety/burp/joseph/utilities/Finder.java:64 | `eyA..c.d.e` is rejected by `checkJwePattern`, since its second piece is empty. |
| JoseExamples.BearerMatch | src/main/java/eu/dety/burp/joseph/utilities/Finder.java:79-82 | In `Bearer eyA.b.c;x`, the span from 7 to 14 is the leftmost-longest match. |
| JoseExamples.JoseValueFromBearer | src/main/java/eu/dety/burp/joseph/utilities/Finder.java:79-82 | `getJoseValue` of `Bearer eyA.b.c;x` is `eyA.b.c`. |

## Left out

- The Bleichenbacher PKCS#1 attack engine and the GUI panels (`UIAttackerTab` and the attack panels) sit outside the Finder. The engine's source is not part of this model, and neither is the GUI.
- Burp's `IRequestInfo`, `IParameter` and `PreferencesPanel`: these are calls into code outside the Finder. They are replaced by a sequence of header lines, a sequence of name/value parameters (a value may be null, as `IParameter.getValue()` may return) and a set of configured names, so the configured names are an input rather than global state.
- The `JoseParameter` class: its constructors are not shown; the Finder only calls `new JoseParameter(header, …)` and `new JoseParameter(param, …)`. A record of the origin (the header line or the parameter) and the JOSE type replaces it.
- `getJoseValue(null)` throws in the source. The model takes a string, so the null case is not modelled.
- The cost of regex backtracking is not modelled; only the matched language and the span chosen are.
- Only US-ASCII letters fold, as in Java without UNICODE_CASE: `e`/`E` and `y`/`Y`, and the class already holds both cases, so no folding outside ASCII needs modelling.
- JoseChecks.CheckJwsPatternSuffix and JoseChecks.CheckJwePatternSuffix: these restate the check as a plain suffix property only for candidates that do not end in a line terminator. For candidates that do, `$` also matches before a final terminator; `CheckJwsPattern` and `CheckJwePattern` state that full behaviour.
- Java strings are UTF-16 code units; Dafny strings are sequences of Unicode scalar values, so a lone surrogate cannot be represented. No result depends on it, because every character a match uses is ASCII and a surrogate is neither a class character nor a line terminator.
