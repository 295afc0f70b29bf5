/**
 * Project-title normalisation (`cleanProjectTitle` in src/PageAssessmentsDAO.php):
 * delete every bold marker `'''`, then turn every `/the ` into `/`, then keep at most
 * 255 bytes. Case-sensitive, no trimming, no case folding.
 */
module ProjectTitle {
  import opened Bytes

  /** The bold-markup token `'''`. */
  const BOLD: Bytes := [APOSTROPHE, APOSTROPHE, APOSTROPHE]
  /** The subproject phrasing `/the ` (lower-case "the" only). */
  const SLASH_THE: Bytes := [SLASH, 116, 104, 101, 32]
  /** Column width of the project title, in bytes. */
  const MAX_TITLE_BYTES: nat := 255

  function StripBold(s: Bytes): Bytes { ReplaceAll(s, BOLD, []) }

  function StripSlashThe(s: Bytes): Bytes { ReplaceAll(s, SLASH_THE, [SLASH]) }

  /** `cleanProjectTitle`. */
  function CleanProjectTitle(project: Bytes): (r: Bytes)
    ensures |r| <= MAX_TITLE_BYTES
  {
    Prefix(StripSlashThe(StripBold(project)), MAX_TITLE_BYTES)
  }

  predicate StartsWith(s: Bytes, p: Bytes) { |p| <= |s| && s[..|p|] == p }

  /** Dropping a prefix cannot create an occurrence. */
  lemma {:induction false} NotContainsSuffix(s: Bytes, pat: Bytes, k: nat)
    requires k <= |s| && !Contains(s, pat)
    ensures !Contains(s[k..], pat)
  {
    forall i | 0 <= i <= |s[k..]| ensures !OccursAt(s[k..], pat, i) {
      assert !OccursAt(s, pat, k + i);
    }
  }

  /** Taking a prefix cannot create an occurrence. */
  lemma {:induction false} NotContainsPrefix(s: Bytes, pat: Bytes, n: nat)
    requires n <= |s| && !Contains(s, pat)
    ensures !Contains(s[..n], pat)
  {
    forall i | 0 <= i <= n ensures !OccursAt(s[..n], pat, i) {
      assert !OccursAt(s, pat, i);
    }
  }

  /** An occurrence in `[c] + t` away from the front is an occurrence in `t`. */
  lemma {:induction false} OccursAfterCons(c: byte, t: Bytes, pat: Bytes, i: nat)
    requires i >= 1 && OccursAt([c] + t, pat, i)
    ensures OccursAt(t, pat, i - 1)
  {
    assert ([c] + t)[i..i + |pat|] == t[i - 1..i - 1 + |pat|];
  }

  /** An occurrence at the front starts with the pattern's first byte. */
  lemma OccursAtFront(s: Bytes, pat: Bytes)
    ensures |pat| > 0 && OccursAt(s, pat, 0) ==> s[0] == pat[0]
  {
    if |pat| > 0 && OccursAt(s, pat, 0) {
      assert s[..|pat|][0] == s[0];
    }
  }

  /** `[c] + t` starts with `'''` exactly when `c` and the first two bytes of `t` are apostrophes. */
  lemma ConsOccursBold(c: byte, t: Bytes)
    ensures OccursAt([c] + t, BOLD, 0) <==> c == APOSTROPHE && StartsWith(t, [APOSTROPHE, APOSTROPHE])
  {
    if |t| >= 2 {
      assert ([c] + t)[..3] == [c, t[0], t[1]];
      assert t[..2] == [t[0], t[1]];
    }
  }

  /** The output of StripBold starts with one or two apostrophes only if its input does. */
  lemma {:induction false} StripBoldFront(t: Bytes)
    ensures StartsWith(StripBold(t), [APOSTROPHE]) ==> StartsWith(t, [APOSTROPHE])
    ensures StartsWith(StripBold(t), [APOSTROPHE, APOSTROPHE]) ==> StartsWith(t, [APOSTROPHE, APOSTROPHE])
    decreases |t|
  {
    if |t| < 3 {
    } else if t[..3] == BOLD {
      assert t[..2] == [APOSTROPHE, APOSTROPHE] && t[..1] == [APOSTROPHE];
    } else {
      var r := StripBold(t);
      assert r == [t[0]] + StripBold(t[1..]);
      StripBoldFront(t[1..]);
      if StartsWith(r, [APOSTROPHE, APOSTROPHE]) {
        assert StripBold(t[1..])[..1] == [r[1]];
        assert t[1..][..1] == [t[1]];
        assert t[..2] == [t[0], t[1]];
      }
    }
  }

  /** Every bold marker is gone after the first step. */
  lemma {:induction false} StripBoldRemovesBold(s: Bytes)
    ensures !Contains(StripBold(s), BOLD)
    decreases |s|
  {
    var r := StripBold(s);
    if |s| < 3 {
    } else if s[..3] == BOLD {
      assert r == StripBold(s[3..]);
      StripBoldRemovesBold(s[3..]);
    } else {
      var t := StripBold(s[1..]);
      assert r == [s[0]] + t;
      StripBoldRemovesBold(s[1..]);
      StripBoldFront(s[1..]);
      ConsOccursBold(s[0], t);
      ConsOccursBold(s[0], s[1..]);
      assert s == [s[0]] + s[1..];
      if Contains(r, BOLD) {
        var i :| 0 <= i <= |r| && OccursAt(r, BOLD, i);
        if i > 0 {
          OccursAfterCons(s[0], t, BOLD, i);
        }
      }
    }
  }

  /** StripSlashThe keeps the first byte, and the second when the first is an apostrophe. */
  lemma {:induction false} StripSlashTheFront(t: Bytes)
    ensures StartsWith(StripSlashThe(t), [APOSTROPHE]) ==> StartsWith(t, [APOSTROPHE])
    ensures StartsWith(StripSlashThe(t), [APOSTROPHE, APOSTROPHE]) ==> StartsWith(t, [APOSTROPHE, APOSTROPHE])
    decreases |t|
  {
    if |t| < 5 {
    } else if t[..5] == SLASH_THE {
    } else {
      var r := StripSlashThe(t);
      assert r == [t[0]] + StripSlashThe(t[1..]);
      StripSlashTheFront(t[1..]);
      if StartsWith(r, [APOSTROPHE, APOSTROPHE]) {
        assert StripSlashThe(t[1..])[..1] == [r[1]];
        assert t[1..][..1] == [t[1]];
        assert t[..2] == [t[0], t[1]];
      }
    }
  }

  /** Turning `/the ` into `/` cannot bring apostrophes together. */
  lemma {:induction false} StripSlashTheKeepsBoldFree(s: Bytes)
    requires !Contains(s, BOLD)
    ensures !Contains(StripSlashThe(s), BOLD)
    decreases |s|
  {
    var r := StripSlashThe(s);
    if |s| < 5 {
    } else if s[..5] == SLASH_THE {
      var t := StripSlashThe(s[5..]);
      assert r == [SLASH] + t;
      NotContainsSuffix(s, BOLD, 5);
      StripSlashTheKeepsBoldFree(s[5..]);
      OccursAtFront(r, BOLD);
      if Contains(r, BOLD) {
        var i :| 0 <= i <= |r| && OccursAt(r, BOLD, i);
        if i > 0 {
          OccursAfterCons(SLASH, t, BOLD, i);
        }
      }
    } else {
      var t := StripSlashThe(s[1..]);
      assert r == [s[0]] + t;
      NotContainsSuffix(s, BOLD, 1);
      StripSlashTheKeepsBoldFree(s[1..]);
      StripSlashTheFront(s[1..]);
      ConsOccursBold(s[0], t);
      ConsOccursBold(s[0], s[1..]);
      assert s == [s[0]] + s[1..];
      if Contains(r, BOLD) {
        var i :| 0 <= i <= |r| && OccursAt(r, BOLD, i);
        if i > 0 {
          OccursAfterCons(s[0], t, BOLD, i);
        }
      }
    }
  }

  /** A cleaned title never contains bold markup, whatever the input. */
  lemma CleanTitleHasNoBold(project: Bytes)
    ensures !Contains(CleanProjectTitle(project), BOLD)
  {
    var a := StripBold(project);
    StripBoldRemovesBold(project);
    StripSlashTheKeepsBoldFree(a);
    var b := StripSlashThe(a);
    if |b| > MAX_TITLE_BYTES {
      NotContainsPrefix(b, BOLD, MAX_TITLE_BYTES);
    }
  }

  /** A title that is short enough and has neither `'''` nor `/the ` is left alone. */
  lemma CleanTitleKeepsCleanInput(project: Bytes)
    requires |project| <= MAX_TITLE_BYTES
    requires !Contains(project, BOLD) && !Contains(project, SLASH_THE)
    ensures CleanProjectTitle(project) == project
  {
    ReplaceAllAbsent(project, BOLD, []);
    ReplaceAllAbsent(project, SLASH_THE, [SLASH]);
  }

  /** The result is the first 255 bytes of the title with both replacements applied. */
  lemma CleanTitleIsTruncation(project: Bytes)
    ensures var full := StripSlashThe(StripBold(project));
      CleanProjectTitle(project) == full[..|CleanProjectTitle(project)|] &&
      |CleanProjectTitle(project)| == if |full| <= MAX_TITLE_BYTES then |full| else MAX_TITLE_BYTES
  {
  }

  /** Bytes before the first byte that could start the pattern pass through unchanged. */
  lemma {:induction false} ReplaceAllSkipsPlainPrefix(u: Bytes, s: Bytes, pat: Bytes, rep: Bytes)
    requires |pat| > 0 && pat[0] !in u
    ensures ReplaceAll(u + s, pat, rep) == u + ReplaceAll(s, pat, rep)
    decreases |u|
  {
    if u != [] {
      var w := u + s;
      assert w[1..] == u[1..] + s;
      if |w| >= |pat| {
        assert w[..|pat|][0] == u[0];
      }
      ReplaceAllSkipsPlainPrefix(u[1..], s, pat, rep);
    } else {
      assert u + s == s;
    }
  }

  /** An occurrence at the front is replaced. */
  lemma ReplaceAllFront(s: Bytes, pat: Bytes, rep: Bytes)
    requires |pat| > 0
    ensures ReplaceAll(pat + s, pat, rep) == rep + ReplaceAll(s, pat, rep)
  {
    assert (pat + s)[..|pat|] == pat;
    assert (pat + s)[|pat|..] == s;
  }

  /**
   * A title of the shape `a/the '''b'''`, where `a` and `b` hold no apostrophe and no
   * slash, cleans to `a/b`.
   */
  lemma CleanTitleOfBoldSubproject(a: Bytes, b: Bytes)
    requires APOSTROPHE !in a && APOSTROPHE !in b && SLASH !in a && SLASH !in b
    requires |a| + 1 + |b| <= MAX_TITLE_BYTES
    ensures CleanProjectTitle(a + SLASH_THE + BOLD + b + BOLD) == a + [SLASH] + b
  {
    // Step 1: delete the two bold markers.
    calc {
      StripBold(a + SLASH_THE + BOLD + b + BOLD);
      { assert a + SLASH_THE + BOLD + b + BOLD == (a + SLASH_THE) + (BOLD + (b + BOLD));
        ReplaceAllSkipsPlainPrefix(a + SLASH_THE, BOLD + (b + BOLD), BOLD, []); }
      a + SLASH_THE + StripBold(BOLD + (b + BOLD));
      { ReplaceAllFront(b + BOLD, BOLD, []); }
      a + SLASH_THE + StripBold(b + BOLD);
      { ReplaceAllSkipsPlainPrefix(b, BOLD, BOLD, []);
        ReplaceAllFront([], BOLD, []); assert BOLD + [] == BOLD; }
      a + SLASH_THE + b;
    }
    // Step 2: `/the ` becomes `/`.
    calc {
      StripSlashThe(a + SLASH_THE + b);
      { assert a + SLASH_THE + b == a + (SLASH_THE + b);
        ReplaceAllSkipsPlainPrefix(a, SLASH_THE + b, SLASH_THE, [SLASH]); }
      a + StripSlashThe(SLASH_THE + b);
      { ReplaceAllFront(b, SLASH_THE, [SLASH]); }
      a + ([SLASH] + StripSlashThe(b));
      { assert b + [] == b;
        ReplaceAllSkipsPlainPrefix(b, [], SLASH_THE, [SLASH]); }
      a + [SLASH] + b;
    }
  }

  /** The unit test: "Drinks/the '''Coffee task force'''" becomes "Drinks/Coffee task force". */
  lemma CleanTitleExample()
    ensures CleanProjectTitle(Ascii("Drinks") + SLASH_THE + BOLD + Ascii("Coffee") + Ascii(" task") + Ascii(" force") + BOLD)
         == Ascii("Drinks") + [SLASH] + Ascii("Coffee") + Ascii(" task") + Ascii(" force")
  {
    CleanTitleOfText("Drinks", "Coffee", " task", " force");
  }

  /** CleanTitleOfThreePieces for pieces written as text. */
  lemma CleanTitleOfText(a: string, b1: string, b2: string, b3: string)
    requires '\'' !in a && '/' !in a && '\'' !in b1 && '/' !in b1
    requires '\'' !in b2 && '/' !in b2 && '\'' !in b3 && '/' !in b3
    requires |a| + 1 + |b1| + |b2| + |b3| <= MAX_TITLE_BYTES
    ensures CleanProjectTitle(Ascii(a) + SLASH_THE + BOLD + Ascii(b1) + Ascii(b2) + Ascii(b3) + BOLD)
         == Ascii(a) + [SLASH] + Ascii(b1) + Ascii(b2) + Ascii(b3)
  {
    AsciiPlain(a);
    AsciiPlain(b1);
    AsciiPlain(b2);
    AsciiPlain(b3);
    CleanTitleOfThreePieces(Ascii(a), Ascii(b1), Ascii(b2), Ascii(b3));
  }

  /** Text without apostrophes and slashes encodes to bytes without them. */
  lemma AsciiPlain(s: string)
    requires '\'' !in s && '/' !in s
    ensures APOSTROPHE !in Ascii(s) && SLASH !in Ascii(s)
  {
    AsciiExcludes(s, '\'');
    AsciiExcludes(s, '/');
  }

  /** CleanTitleOfBoldSubproject with the subproject name given in three pieces. */
  lemma CleanTitleOfThreePieces(a: Bytes, b1: Bytes, b2: Bytes, b3: Bytes)
    requires APOSTROPHE !in a && SLASH !in a
    requires APOSTROPHE !in b1 && SLASH !in b1
    requires APOSTROPHE !in b2 && SLASH !in b2
    requires APOSTROPHE !in b3 && SLASH !in b3
    requires |a| + 1 + |b1| + |b2| + |b3| <= MAX_TITLE_BYTES
    ensures CleanProjectTitle(a + SLASH_THE + BOLD + b1 + b2 + b3 + BOLD) == a + [SLASH] + b1 + b2 + b3
  {
    var b := b1 + b2 + b3;
    assert a + SLASH_THE + BOLD + b1 + b2 + b3 + BOLD == a + SLASH_THE + BOLD + b + BOLD;
    assert a + [SLASH] + b1 + b2 + b3 == a + [SLASH] + b;
    CleanTitleOfBoldSubproject(a, b);
  }

  /** The word `the ` that may follow `/the ` once more. */
  const THE_SPACE: Bytes := [116, 104, 101, 32]

  /** A leading `/the ` before text without apostrophes and slashes becomes `/`. */
  lemma CleanTitleOfSlashThe(x: Bytes)
    requires APOSTROPHE !in x && SLASH !in x && 1 + |x| <= MAX_TITLE_BYTES
    ensures CleanProjectTitle(SLASH_THE + x) == [SLASH] + x
  {
    assert APOSTROPHE !in SLASH_THE + x;
    assert SLASH_THE + x + [] == SLASH_THE + x;
    ReplaceAllSkipsPlainPrefix(SLASH_THE + x, [], BOLD, []);
    ReplaceAllFront(x, SLASH_THE, [SLASH]);
    assert x + [] == x;
    ReplaceAllSkipsPlainPrefix(x, [], SLASH_THE, [SLASH]);
  }

  /**
   * Cleaning is not idempotent: `/the the x` becomes `/the x`, which becomes `/x`,
   * for any `x` without apostrophes and slashes.
   */
  lemma CleanTitleTwiceDiffers(x: Bytes)
    requires APOSTROPHE !in x && SLASH !in x && 5 + |x| <= MAX_TITLE_BYTES
    ensures CleanProjectTitle(SLASH_THE + THE_SPACE + x) == SLASH_THE + x
    ensures CleanProjectTitle(SLASH_THE + x) == [SLASH] + x
    ensures CleanProjectTitle(CleanProjectTitle(SLASH_THE + THE_SPACE + x)) != CleanProjectTitle(SLASH_THE + THE_SPACE + x)
  {
    var theX := THE_SPACE + x;
    assert SLASH_THE + THE_SPACE + x == SLASH_THE + theX;
    assert [SLASH] + theX == SLASH_THE + x;
    CleanTitleOfSlashThe(theX);
    CleanTitleOfSlashThe(x);
    assert |[SLASH] + x| != |SLASH_THE + x|;
  }

  /** The instance "/the the x": one cleaning gives "/the x", a second gives "/x". */
  lemma CleanTitleNotIdempotent()
    ensures var s := SLASH_THE + THE_SPACE + Ascii("x");
      CleanProjectTitle(s) == SLASH_THE + Ascii("x") &&
      CleanProjectTitle(CleanProjectTitle(s)) == Ascii("/x") &&
      CleanProjectTitle(CleanProjectTitle(s)) != CleanProjectTitle(s)
  {
    AsciiPlain("x");
    CleanTitleTwiceDiffers(Ascii("x"));
    assert Ascii("/x") == [SLASH] + Ascii("x");
  }
}
