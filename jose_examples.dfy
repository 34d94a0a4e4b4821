/** Worked instances of the Finder's behaviour on concrete inputs. */
module JoseExamples {
  import opened Wrappers
  import opened JavaRegex
  import opened JosePatterns
  import opened JoseChecks
  import opened JoseValue

  /** The compact JWS `ey1.ey2.s` is in the JWS language. */
  lemma ShortJwsMatches()
    ensures Matches("ey1.ey2.s", JwsShape)
  {
    var t := "ey1.ey2.s";
    var u := t[..7];
    assert u == "ey1.ey2";
    assert t[8..] == "s";
    assert u[..3] == "ey1";
    assert u[4..] == "ey2";
    assert Matches(u, [Head, Head]);
    assert JwsShape[..2] == [Head, Head];
  }

  /** A whole header line passes `checkJwsPattern` when it ends with a
      compact JWS. */
  lemma JwsHeaderLineAccepted()
    ensures CheckJwsPattern(Some("x: ey1.ey2.s"))
  {
    var s := "x: ey1.ey2.s";
    ShortJwsMatches();
    assert s[3..|s|] == "ey1.ey2.s";
    assert DollarAt(s, |s|);
  }

  /** An empty piece between the dots makes `checkJwePattern` fail. */
  lemma JweEmptySegmentRejected()
    ensures !CheckJwePattern(Some("eyA..c.d.e"))
  {
    assert !HasMatchingSuffix("eyA..c.d.e", JweShape) by {
      assert "eyA..c.d.e"[..9] == "eyA..c.d.";
      assert TrailingClassRun("eyA..c.d.e") == 1;
      assert "eyA..c.d.e"[..8] == "eyA..c.d";
      assert JweShape[..4] == [Head, Body, Body, Body];
      JweEmptySegmentSteps();
    }
    RecogniserDecidesFind("eyA..c.d.e", JweShape);
  }

  lemma JweEmptySegmentSteps()
    ensures !HasMatchingSuffix("eyA..c.d", [Head, Body, Body, Body])
  {
    assert !HasMatchingSuffix("eyA.", [Head, Body]) by {
      assert TrailingClassRun("eyA.") == 0;
    }
    assert !HasMatchingSuffix("eyA..c", [Head, Body, Body]) by {
      assert "eyA..c"[..5] == "eyA..";
      assert TrailingClassRun("eyA..c") == 1;
      assert "eyA..c"[..4] == "eyA.";
      assert [Head, Body, Body][..2] == [Head, Body];
    }
    assert "eyA..c.d"[..7] == "eyA..c.";
    assert TrailingClassRun("eyA..c.d") == 1;
    assert "eyA..c.d"[..6] == "eyA..c";
    assert [Head, Body, Body, Body][..3] == [Head, Body, Body];
  }

  /** Where the value starts in `Bearer eyA.b.c;x`, and where it ends. */
  lemma BearerMatch(s: string)
    requires s == "Bearer eyA.b.c;x"
    ensures LeftmostLongest(s, 7, 14)
  {
    assert s[7] == 'e' && s[8] == 'y' && s[9] == 'A' && s[10] == '.';
    assert s[11] == 'b' && s[12] == '.' && s[13] == 'c' && s[14] == ';';
    assert ClassSpan(s, 9, 10) && ClassSpan(s, 11, 12) && TokenSpan(s, 13, 14);
    assert s[..7] == "Bearer ";
    forall a, b | 0 <= a < 7 ensures !MatchAt(s, a, b) {
      assert s[a] == s[..7][a];
      if a < 6 {
        assert s[a + 1] == s[..7][a + 1];
      }
    }
  }

  /** `getJoseValue` cuts the token out of a header value. */
  lemma JoseValueFromBearer(s: string)
    requires s == "Bearer eyA.b.c;x"
    ensures GetJoseValue(s) == Some("eyA.b.c")
  {
    BearerMatch(s);
    LeftmostLongestIsValue(s, 7, 14);
    assert s[7..14] == "eyA.b.c";
  }
}
