/**
 * The continuation cursor of the API query modules: a token `"A|B"` of two
 * decimal integers, the key of the first row a page did not show. The
 * ProjectPages modules write `"project_id|page_id"`, the PageAssessments module
 * `"page_id|project_id"`; `handleQueryContinuation` parses it and resumes the
 * query at that key.
 */
module Continuation {
  import opened Wrappers
  import opened Bytes
  import opened PhpInt

  /** The two integers of a cursor, in the order they appear in the token. */
  datatype Cursor = Cursor(first: int, second: int)

  /** `"$a|$b"`: the token written for the row with key (a, b). */
  function FormatCursor(c: Cursor): (token: Bytes)
    ensures PIPE in token
  {
    assert (IntToString(c.first) + [PIPE] + IntToString(c.second))[|IntToString(c.first)|] == PIPE;
    IntToString(c.first) + [PIPE] + IntToString(c.second)
  }

  /**
   * `handleQueryContinuation`'s checks: `explode('|', ...)` must give exactly two
   * parts and each must be the decimal string of its own `(int)` value; None is
   * `dieContinueUsageIf`. An accepted token is exactly the token of its cursor,
   * so nothing it carries is lost or made up by the casts.
   */
  function ParseCursor(token: Bytes): (r: Option<Cursor>)
    ensures r.Some? ==> InRange(r.value.first) && InRange(r.value.second)
    ensures r.Some? ==> token == FormatCursor(r.value)
  {
    var parts := Split(token, PIPE);
    if |parts| != 2 then None
    else
      var a := StringToInt(parts[0]);
      var b := StringToInt(parts[1]);
      if parts[0] != IntToString(a) || parts[1] != IntToString(b) then None
      else
        JoinSplit(token, PIPE);
        assert Join(parts, PIPE) == parts[0] + [PIPE] + parts[1];
        Some(Cursor(a, b))
  }

  /** Neither a digit nor the minus sign is the separator. */
  lemma {:induction false} DigitsHaveNoPipe(n: nat)
    ensures PIPE !in Digits(n)
  {
    if n >= 10 {
      DigitsHaveNoPipe(n / 10);
    }
  }

  lemma IntToStringHasNoPipe(n: int)
    ensures PIPE !in IntToString(n)
  {
    DigitsHaveNoPipe(if n < 0 then -n else n);
  }

  /** A token splits into the decimal strings of its two integers. */
  lemma SplitFormatCursor(c: Cursor)
    ensures Split(FormatCursor(c), PIPE) == [IntToString(c.first), IntToString(c.second)]
  {
    var parts := [IntToString(c.first), IntToString(c.second)];
    IntToStringHasNoPipe(c.first);
    IntToStringHasNoPipe(c.second);
    assert Join(parts, PIPE) == FormatCursor(c) by {
      assert parts[1..] == [IntToString(c.second)];
    }
    SplitJoin(parts, PIPE);
  }

  /** The token of a row whose key holds 64-bit integers parses back to that key. */
  lemma ParseFormatCursor(c: Cursor)
    requires InRange(c.first) && InRange(c.second)
    ensures ParseCursor(FormatCursor(c)) == Some(c)
  {
    SplitFormatCursor(c);
    StringToIntOfIntToString(c.first);
    StringToIntOfIntToString(c.second);
  }

  /** The tokens the check accepts are exactly the tokens of 64-bit keys, each read as its own key. */
  lemma ParseCursorIff(token: Bytes, c: Cursor)
    ensures ParseCursor(token) == Some(c) <==>
      InRange(c.first) && InRange(c.second) && token == FormatCursor(c)
  {
    if InRange(c.first) && InRange(c.second) && token == FormatCursor(c) {
      ParseFormatCursor(c);
    }
  }

  /** A token with no `|`, or with two or more, is rejected. */
  lemma ParseRejectsWrongArity(token: Bytes)
    requires |Split(token, PIPE)| != 2
    ensures ParseCursor(token) == None
  {
  }

  /** A token with one separator is rejected when either side is not canonical, e.g. "007", "x" or "". */
  lemma ParseRejectsNonCanonical(a: Bytes, b: Bytes)
    requires PIPE !in a && PIPE !in b
    requires !IsCanonicalInt(a) || !IsCanonicalInt(b)
    ensures ParseCursor(a + [PIPE] + b) == None
  {
    var parts := [a, b];
    assert Join(parts, PIPE) == a + [PIPE] + b by {
      assert parts[1..] == [b];
    }
    SplitJoin(parts, PIPE);
  }

  /** "007|1" is rejected although `(int)` reads its first part as 7. */
  lemma RejectsZeroPaddedProject(b: Bytes)
    requires PIPE !in b
    ensures ParseCursor(Ascii("007") + [PIPE] + b) == None
  {
    RejectsLeadingZeros();
    assert PIPE !in Ascii("007") by { AsciiExcludes("007", '|'); }
    ParseRejectsNonCanonical(Ascii("007"), b);
  }

  /** "|5" is rejected: the empty first part is not the string of 0. */
  lemma RejectsEmptyPart(b: Bytes)
    requires PIPE !in b
    ensures ParseCursor([PIPE] + b) == None
  {
    RejectsEmpty();
    assert [PIPE] + b == [] + [PIPE] + b;
    ParseRejectsNonCanonical([], b);
  }

  /**
   * The resume condition `A > P OR (A = P AND B >= Q)` the query adds for the
   * cursor (P, Q), on a row whose key is (A, B).
   */
  predicate Resumes(c: Cursor, first: int, second: int)
  {
    first > c.first || (first == c.first && second >= c.second)
  }

  /** Lexicographic order on integer sequences, an independent reference. */
  predicate LexLe(xs: seq<int>, ys: seq<int>)
    decreases |xs|
  {
    xs == [] || (ys != [] && (xs[0] < ys[0] || (xs[0] == ys[0] && LexLe(xs[1..], ys[1..]))))
  }

  /** The resume condition keeps exactly the keys lexicographically at or after the cursor. */
  lemma ResumesIsLexOrder(c: Cursor, first: int, second: int)
    ensures Resumes(c, first, second) <==> LexLe([c.first, c.second], [first, second])
  {
    assert [c.first, c.second][1..] == [c.second];
    assert [first, second][1..] == [second];
    assert [c.second][1..] == [];
    assert LexLe([c.second], [second]) <==> c.second <= second by {
      assert LexLe([], []);
    }
  }
}
