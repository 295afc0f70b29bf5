/**
 * What the three API query modules have in common beyond the cursor and the
 * paging loop: resolving requested project names to ids, the WHERE clause
 * (an IN-list on the leading key column and the resume condition), the
 * `LIMIT limit + 1`, and the ORDER BY they choose.
 *
 * The SELECT itself runs in the database. Its candidate rows, in the order the
 * chosen ORDER BY gives, are a parameter of the model; the model applies the
 * WHERE clause and the LIMIT to them.
 */
module ApiQuery {
  import opened Wrappers
  import opened Bytes
  import opened Storage
  import opened Continuation
  import opened Paging
  import opened PhpInt
  import PageAssessmentsDAO

  /** `getProjectId($project)` gives a truthy id: the title exists with a non-zero id. */
  predicate Found(t: ProjectTable, name: Bytes)
  {
    name in t.rows && t.rows[name].id != 0
  }

  /** The ids of the requested names that resolve, in request order (`$this->projectIds[] = $id`). */
  function ResolvedIds(t: ProjectTable, names: seq<Bytes>): (ids: seq<int>)
    ensures |ids| <= |names|
    decreases |names|
  {
    if names == [] then []
    else
      var init, n := names[..|names| - 1], names[|names| - 1];
      ResolvedIds(t, init) + (if Found(t, n) then [t.rows[n].id] else [])
  }

  /** The requested names that do not resolve, in request order: one badproject warning each. */
  function Unresolved(t: ProjectTable, names: seq<Bytes>): (bad: seq<Bytes>)
    ensures |bad| <= |names|
    decreases |names|
  {
    if names == [] then []
    else
      var init, n := names[..|names| - 1], names[|names| - 1];
      Unresolved(t, init) + (if Found(t, n) then [] else [n])
  }

  lemma ResolvedSnoc(t: ProjectTable, names: seq<Bytes>, n: Bytes)
    ensures ResolvedIds(t, names + [n]) == ResolvedIds(t, names) + (if Found(t, n) then [t.rows[n].id] else [])
    ensures Unresolved(t, names + [n]) == Unresolved(t, names) + (if Found(t, n) then [] else [n])
  {
    assert (names + [n])[..|names|] == names;
  }

  /** An id is resolved exactly when some requested name is a project with that non-zero id. */
  lemma {:induction false} ResolvedIdsIff(t: ProjectTable, names: seq<Bytes>, p: int)
    ensures p in ResolvedIds(t, names) <==> exists n :: n in names && Found(t, n) && t.rows[n].id == p
    decreases |names|
  {
    if names != [] {
      var init, last := names[..|names| - 1], names[|names| - 1];
      ResolvedIdsIff(t, init, p);
      SplitLast(names);
      if exists n :: n in names && Found(t, n) && t.rows[n].id == p {
        var n :| n in names && Found(t, n) && t.rows[n].id == p;
        if n != last {
          assert n in init;
        }
      }
    }
  }

  /** A name gets a warning exactly when it is requested and does not resolve. */
  lemma {:induction false} UnresolvedIff(t: ProjectTable, names: seq<Bytes>, n: Bytes)
    ensures n in Unresolved(t, names) <==> n in names && !Found(t, n)
    decreases |names|
  {
    if names != [] {
      var init := names[..|names| - 1];
      UnresolvedIff(t, init, n);
      SplitLast(names);
    }
  }

  /** Every requested name either adds an id or adds a warning, never both. */
  lemma {:induction false} ResolvedCount(t: ProjectTable, names: seq<Bytes>)
    ensures |ResolvedIds(t, names)| + |Unresolved(t, names)| == |names|
    decreases |names|
  {
    if names != [] {
      ResolvedCount(t, names[..|names| - 1]);
    }
  }

  /** Under the row invariants no id resolves exactly when no requested name is a project. */
  lemma NoneResolved(t: ProjectTable, names: seq<Bytes>)
    requires ProjectsValid(t)
    ensures ResolvedIds(t, names) == [] <==> forall n :: n in names ==> n !in t.rows
  {
    if ResolvedIds(t, names) == [] {
      forall n | n in names ensures n !in t.rows {
        if n in t.rows {
          ResolvedIdsIff(t, names, t.rows[n].id);
        }
      }
    } else {
      var p := ResolvedIds(t, names)[0];
      ResolvedIdsIff(t, names, p);
    }
  }

  /**
   * The loop over the `projects` parameter: `getProjectId` for each name, its
   * id kept when truthy, the name kept for a badproject warning otherwise.
   */
  method ConvertNames(db: Database, projects: seq<Bytes>) returns (ids: seq<int>, bad: seq<Bytes>)
    ensures ids == ResolvedIds(db.projects, projects)
    ensures bad == Unresolved(db.projects, projects)
  {
    ids, bad := [], [];
    var k := 0;
    while k < |projects|
      invariant 0 <= k <= |projects|
      invariant ids == ResolvedIds(db.projects, projects[..k])
      invariant bad == Unresolved(db.projects, projects[..k])
    {
      var project := projects[k];
      var id := PageAssessmentsDAO.GetProjectId(db, project);
      ResolvedSnoc(db.projects, projects[..k], project);
      assert projects[..k + 1] == projects[..k] + [project];
      if id.Some? && id.value != 0 {
        ids := ids + [id.value];
      } else {
        bad := bad + [project];
      }
      k := k + 1;
    }
    assert projects[..k] == projects;
  }

  /** The warnings the ProjectPages modules add to the result. */
  datatype Warning = NoGeneratorAssessments | BadProject(name: Bytes)

  /** One badproject warning per name, in order. */
  function BadProjects(names: seq<Bytes>): seq<Warning>
  {
    seq(|names|, i requires 0 <= i < |names| => BadProject(names[i]))
  }

  /** The two ORDER BY clauses: on both key columns, or on the second one only. */
  datatype Order = FirstThenSecond | SecondOnly

  /** Row `x` comes strictly before row `y` under the order. */
  predicate Before(order: Order, x: Row, y: Row)
  {
    match order
    case FirstThenSecond => x.first < y.first || (x.first == y.first && x.second < y.second)
    case SecondOnly => x.second < y.second
  }

  /** The rows come in the order the ORDER BY clause asks for (keys are unique). */
  predicate SortedBy(rows: seq<Row>, order: Order)
  {
    forall i, j :: 0 <= i < j < |rows| ==> Before(order, rows[i], rows[j])
  }

  /**
   * An ORDER BY on the second column only is the key order the cursor relies
   * on when every row has the same first column, as it does under an IN-list
   * of a single id; an ORDER BY on both columns is the key order itself.
   */
  lemma OrderAgreesWithKey(rows: seq<Row>, order: Order, ids: seq<int>)
    requires order == SecondOnly ==> |ids| == 1 && forall i :: 0 <= i < |rows| ==> rows[i].first in ids
    ensures SortedBy(rows, order) <==> StrictlySorted(rows)
  {
    if order == SecondOnly {
      assert forall i :: 0 <= i < |rows| ==> rows[i].first == ids[0];
    }
  }

  /** The WHERE clause: the IN-list on the first key column (none when empty) and the resume condition. */
  datatype Where = Where(ids: seq<int>, resume: Option<Cursor>)

  predicate Matches(w: Where, row: Row)
  {
    && (w.ids == [] || row.first in w.ids)
    && (w.resume.None? || Resumes(w.resume.value, row.first, row.second))
  }

  /** The candidate rows the WHERE clause keeps, in order. */
  function Filter(rows: seq<Row>, w: Where): (r: seq<Row>)
    ensures |r| <= |rows|
    decreases |rows|
  {
    if rows == [] then []
    else (if Matches(w, rows[0]) then [rows[0]] else []) + Filter(rows[1..], w)
  }

  /** The WHERE clause keeps exactly the candidate rows that match it. */
  lemma {:induction false} FilterMembers(rows: seq<Row>, w: Where)
    ensures forall x :: x in Filter(rows, w) <==> x in rows && Matches(w, x)
    decreases |rows|
  {
    if rows != [] {
      FilterMembers(rows[1..], w);
      assert rows == [rows[0]] + rows[1..];
    }
  }

  /** `SELECT ... WHERE w LIMIT limit + 1` on the candidate rows. */
  function Select(rows: seq<Row>, w: Where, limit: nat): (r: seq<Row>)
    ensures |r| <= limit + 1
    ensures forall x :: x in r ==> x in rows && Matches(w, x)
  {
    FilterMembers(rows, w);
    FirstRows(Filter(rows, w), limit + 1)
  }

  /** The resume cursor of the `continue` parameter, when it is given and parses. */
  function Resume(cont: Option<Bytes>): Option<Cursor>
  {
    if cont.Some? then ParseCursor(cont.value) else None
  }

  /** `dieContinueUsageIf` fires: a `continue` parameter is given and does not parse. */
  predicate BadContinue(cont: Option<Bytes>)
  {
    cont.Some? && ParseCursor(cont.value).None?
  }

  /** What a request ends with: the continue usage error, or a page of results. */
  datatype Outcome = ContinueUsageError | Done(page: Page)

  /** The generator-mode page: the first `limit` rows and the token of the next one. */
  function GeneratorPage(rows: seq<Row>, limit: nat): Page
  {
    Page(FirstRows(rows, limit), if |rows| > limit then Some(FormatCursor(KeyOf(rows[limit]))) else None)
  }

  /** The page of the list or the generator loop. */
  function PageOf(generator: bool, rows: seq<Row>, limit: nat, fits: seq<bool>): Page
  {
    if generator then GeneratorPage(rows, limit) else ListPage(rows, limit, fits)
  }

  /** Runs the list loop or the generator loop of `run` over the selected rows. */
  method RunLoop(generator: bool, rows: seq<Row>, limit: nat, fits: seq<bool>) returns (page: Page)
    ensures page == PageOf(generator, rows, limit, fits)
  {
    if generator {
      var processed, cont := GenerateRows(rows, limit);
      page := Page(processed, cont);
    } else {
      var shown, cont := ListRows(rows, limit, fits);
      page := Page(shown, cont);
    }
  }

  /**
   * A page over any rows shows at most `limit` of them, and its token, when
   * set, is the token of one of them.
   */
  lemma PageRows(generator: bool, rows: seq<Row>, limit: nat, fits: seq<bool>)
    ensures var page := PageOf(generator, rows, limit, fits);
      && |page.shown| <= limit
      && (forall x :: x in page.shown ==> x in rows)
      && (page.cont.Some? ==> exists i :: 0 <= i < |rows| && page.cont.value == FormatCursor(KeyOf(rows[i])))
  {
    if !generator {
      ListPageBound(rows, limit, fits);
      var s := StopFrom(rows, limit, fits, 0);
      forall x | x in ListPage(rows, limit, fits).shown ensures x in rows {
        assert x in rows[..s];
      }
    }
  }

  /**
   * A page over the selected rows shows at most `limit` rows, each one a
   * candidate that passes the WHERE clause; a token, when set, parses back to
   * the key of a candidate that passes the WHERE clause too.
   */
  lemma PageOfSelect(generator: bool, all: seq<Row>, w: Where, limit: nat, fits: seq<bool>)
    requires forall i :: 0 <= i < |all| ==> InRange(all[i].first) && InRange(all[i].second)
    ensures var page := PageOf(generator, Select(all, w, limit), limit, fits);
      && |page.shown| <= limit
      && (forall x :: x in page.shown ==> x in all && Matches(w, x))
      && (page.cont.Some? ==> exists x :: x in all && Matches(w, x) && ParseCursor(page.cont.value) == Some(KeyOf(x)))
  {
    var rows := Select(all, w, limit);
    var page := PageOf(generator, rows, limit, fits);
    PageRows(generator, rows, limit, fits);
    if page.cont.Some? {
      var i :| 0 <= i < |rows| && page.cont.value == FormatCursor(KeyOf(rows[i]));
      assert rows[i] in rows;
      ParseFormatCursor(KeyOf(rows[i]));
    }
  }

  /**
   * A page over the selected rows shows at most `limit` rows, each a candidate
   * row that passes the WHERE clause; the list loop shows only named rows.
   */
  lemma ShownRowsMatch(generator: bool, all: seq<Row>, w: Where, limit: nat, fits: seq<bool>)
    ensures var page := PageOf(generator, FirstRows(Filter(all, w), limit + 1), limit, fits);
      && |page.shown| <= limit
      && forall x :: x in page.shown ==> x in all && Matches(w, x) && (!generator ==> Truthy(x.name))
  {
    var rows := FirstRows(Filter(all, w), limit + 1);
    var page := PageOf(generator, rows, limit, fits);
    PageRows(generator, rows, limit, fits);
    if !generator {
      ListPageBound(rows, limit, fits);
    }
    FilterMembers(all, w);
    forall x | x in page.shown ensures x in all && Matches(w, x) {
      assert x in rows;
    }
  }

  /** The resume condition in the WHERE clause is ResumeFrom applied to the rows the IN-list keeps. */
  lemma {:induction false} FilterResume(all: seq<Row>, ids: seq<int>, c: Cursor)
    ensures Filter(all, Where(ids, Some(c))) == ResumeFrom(Filter(all, Where(ids, None)), c)
    decreases |all|
  {
    if all != [] {
      FilterResume(all[1..], ids, c);
      var g := Filter(all, Where(ids, None));
      var g1 := Filter(all[1..], Where(ids, None));
      var x := all[0];
      if Matches(Where(ids, None), x) {
        assert g == [x] + g1;
        assert g != [] && g[0] == x && g[1..] == g1;
        assert ResumeFrom(g, c) == (if Resumes(c, x.first, x.second) then [x] else []) + ResumeFrom(g1, c);
      } else {
        assert g == g1;
        assert !Matches(Where(ids, Some(c)), x);
      }
    }
  }

  /** On sorted rows a resume condition keeps a suffix: everything from the first row at or after the cursor. */
  lemma {:induction false} ResumeIsSuffix(rows: seq<Row>, c: Cursor) returns (m: nat)
    requires StrictlySorted(rows)
    ensures m <= |rows| && ResumeFrom(rows, c) == rows[m..]
    decreases |rows|
  {
    if rows == [] {
      m := 0;
    } else if Resumes(c, rows[0].first, rows[0].second) {
      forall i | 0 <= i < |rows| ensures Resumes(c, rows[i].first, rows[i].second) {
        if i > 0 {
          assert Before(FirstThenSecond, rows[0], rows[i]);
        }
      }
      ResumeAfterFirst(rows, c);
      m := 0;
    } else {
      SortedTail(rows);
      var m1 := ResumeIsSuffix(rows[1..], c);
      m := m1 + 1;
      assert rows[1..][m1..] == rows[m..];
    }
  }

  /**
   * Continuation loses and repeats nothing. Take the rows the IN-list keeps,
   * in key order, and any resume cursor of the current request. When a list
   * page stops at row `s` of the rows the request matched, its token parses
   * back to that row's key. The next request, sent with that token, matches
   * exactly the rows from `s` on. The page shows the named rows before `s`.
   */
  lemma ContinueResumesAtStop(all: seq<Row>, ids: seq<int>, c0: Option<Cursor>, limit: nat, fits: seq<bool>)
    requires StrictlySorted(Filter(all, Where(ids, None)))
    requires forall i :: 0 <= i < |all| ==> InRange(all[i].first) && InRange(all[i].second)
    ensures var matched := Filter(all, Where(ids, c0));
      var rows := FirstRows(matched, limit + 1);
      var s := StopFrom(rows, limit, fits, 0);
      var page := ListPage(rows, limit, fits);
      page.cont.Some? ==>
        && s < |matched|
        && ParseCursor(page.cont.value) == Some(KeyOf(matched[s]))
        && Filter(all, Where(ids, Some(KeyOf(matched[s])))) == matched[s..]
        && page.shown == Shown(matched[..s])
  {
    var g := Filter(all, Where(ids, None));
    var m := MatchedSuffix(all, ids, c0);
    var matched := Filter(all, Where(ids, c0));
    var s := StopFrom(FirstRows(matched, limit + 1), limit, fits, 0);
    CandidatesInRange(all, Where(ids, None));
    SuffixStopParses(g, m, limit, fits);
    if s < |matched| {
      ResumeAtSuffixRow(all, ids, m, s);
    }
  }

  /** Resuming at row `s` of the suffix from `m` of the rows the IN-list keeps matches exactly the rows from there on. */
  lemma ResumeAtSuffixRow(all: seq<Row>, ids: seq<int>, m: nat, s: nat)
    requires StrictlySorted(Filter(all, Where(ids, None)))
    requires m + s < |Filter(all, Where(ids, None))|
    ensures var g := Filter(all, Where(ids, None));
      Filter(all, Where(ids, Some(KeyOf(g[m..][s])))) == g[m..][s..]
  {
    var g := Filter(all, Where(ids, None));
    ResumeAtRow(g, m + s);
    DropDrop(g, m, s);
    FilterResume(all, ids, KeyOf(g[m + s]));
  }

  /** The rows a request matches are a suffix of the rows the IN-list keeps. */
  lemma MatchedSuffix(all: seq<Row>, ids: seq<int>, c0: Option<Cursor>) returns (m: nat)
    requires StrictlySorted(Filter(all, Where(ids, None)))
    ensures m <= |Filter(all, Where(ids, None))|
    ensures Filter(all, Where(ids, c0)) == Filter(all, Where(ids, None))[m..]
  {
    m := 0;
    if c0.Some? {
      FilterResume(all, ids, c0.value);
      m := ResumeIsSuffix(Filter(all, Where(ids, None)), c0.value);
    }
  }

  /** The rows the WHERE clause keeps hold the 64-bit keys of candidate rows. */
  lemma CandidatesInRange(all: seq<Row>, w: Where)
    requires forall i :: 0 <= i < |all| ==> InRange(all[i].first) && InRange(all[i].second)
    ensures var g := Filter(all, w);
      forall j :: 0 <= j < |g| ==> InRange(g[j].first) && InRange(g[j].second)
  {
    var g := Filter(all, w);
    FilterMembers(all, w);
    forall j | 0 <= j < |g| ensures InRange(g[j].first) && InRange(g[j].second) {
      assert g[j] in all;
    }
  }

  /** On sorted rows with 64-bit keys, row `j`'s token parses back and resumes at row `j`. */
  lemma StopKeyResumes(g: seq<Row>, j: nat)
    requires StrictlySorted(g) && j < |g|
    requires forall i :: 0 <= i < |g| ==> InRange(g[i].first) && InRange(g[i].second)
    ensures ParseCursor(FormatCursor(KeyOf(g[j]))) == Some(KeyOf(g[j]))
    ensures ResumeFrom(g, KeyOf(g[j])) == g[j..]
  {
    ParseFormatCursor(KeyOf(g[j]));
    ResumeAtRow(g, j);
  }

  lemma DropDrop(g: seq<Row>, m: nat, s: nat)
    requires m + s < |g|
    ensures g[m..][s] == g[m + s] && g[m..][s..] == g[m + s..]
  {
  }

  /** The token a list page of the suffix from `m` emits parses back to the key of the row it stopped at. */
  lemma SuffixStopParses(g: seq<Row>, m: nat, limit: nat, fits: seq<bool>)
    requires StrictlySorted(g) && m <= |g|
    requires forall i :: 0 <= i < |g| ==> InRange(g[i].first) && InRange(g[i].second)
    ensures var matched := g[m..];
      var rows := FirstRows(matched, limit + 1);
      var s := StopFrom(rows, limit, fits, 0);
      var page := ListPage(rows, limit, fits);
      && (page.cont.Some? ==> s < |matched| && ParseCursor(page.cont.value) == Some(KeyOf(matched[s])))
      && page.shown == Shown(matched[..s])
  {
    var matched := g[m..];
    var s := StopFrom(FirstRows(matched, limit + 1), limit, fits, 0);
    SuffixStop(g, m, limit, fits);
    if s < |matched| {
      StopKeyResumes(g, m + s);
      DropDrop(g, m, s);
    }
  }

  /** Where a list page of the suffix from `m` stops, and what it shows before. */
  lemma SuffixStop(g: seq<Row>, m: nat, limit: nat, fits: seq<bool>)
    requires m <= |g|
    ensures var matched := g[m..];
      var rows := FirstRows(matched, limit + 1);
      var s := StopFrom(rows, limit, fits, 0);
      var page := ListPage(rows, limit, fits);
      && (page.cont.Some? <==> s < |rows|)
      && (s < |rows| ==> s < |matched| && page.cont == Some(FormatCursor(KeyOf(g[m + s]))))
      && page.shown == Shown(matched[..s])
  {
    var matched := g[m..];
    var rows := FirstRows(matched, limit + 1);
    var s := StopFrom(rows, limit, fits, 0);
    StopRowToken(rows, limit, fits);
    assert rows[..s] == matched[..s];
  }
  /** The generator page stops at row `limit`; the list page where its loop leaves. */
  function StopOf(generator: bool, rows: seq<Row>, limit: nat, fits: seq<bool>): nat
  {
    if generator then limit else StopFrom(rows, limit, fits, 0)
  }

  /** What a page puts out of the rows it went through: all of them to the page set, or the named ones to the list. */
  function Output(generator: bool, rows: seq<Row>): seq<Row>
  {
    if generator then rows else Shown(rows)
  }

  /** The generator-mode half of PageContinues. */
  lemma GeneratorContinues(all: seq<Row>, ids: seq<int>, c0: Option<Cursor>, limit: nat)
    requires StrictlySorted(Filter(all, Where(ids, None)))
    requires forall i :: 0 <= i < |all| ==> InRange(all[i].first) && InRange(all[i].second)
    ensures var matched := Filter(all, Where(ids, c0));
      var page := GeneratorPage(FirstRows(matched, limit + 1), limit);
      && (page.cont.Some? ==>
        && limit < |matched|
        && ParseCursor(page.cont.value) == Some(KeyOf(matched[limit]))
        && Filter(all, Where(ids, Some(KeyOf(matched[limit])))) == matched[limit..]
        && page.shown == matched[..limit])
      && (page.cont.None? ==> page.shown == matched)
  {
    var g := Filter(all, Where(ids, None));
    var m := MatchedSuffix(all, ids, c0);
    var matched := Filter(all, Where(ids, c0));
    SuffixGeneratorStop(g, m, limit);
    if limit < |matched| {
      CandidatesInRange(all, Where(ids, None));
      StopKeyResumes(g, m + limit);
      DropDrop(g, m, limit);
      FilterResume(all, ids, KeyOf(g[m + limit]));
    }
  }

  /** Where a generator page of the suffix from `m` stops, and what it puts out. */
  lemma SuffixGeneratorStop(g: seq<Row>, m: nat, limit: nat)
    requires m <= |g|
    ensures var matched := g[m..];
      var page := GeneratorPage(FirstRows(matched, limit + 1), limit);
      && (page.cont.Some? <==> limit < |matched|)
      && (limit < |matched| ==> page.cont == Some(FormatCursor(KeyOf(g[m + limit]))) && page.shown == matched[..limit])
      && (limit >= |matched| ==> page.shown == matched)
  {
  }

  /** A list page without a token went through every matched row. */
  lemma ListLastPage(matched: seq<Row>, limit: nat, fits: seq<bool>)
    ensures var page := ListPage(FirstRows(matched, limit + 1), limit, fits);
      page.cont.None? ==> page.shown == Shown(matched)
  {
    var rows := FirstRows(matched, limit + 1);
    StopWithinLimit(rows, limit, fits, 0);
    assert rows[..|rows|] == rows;
  }

  /**
   * Continuation loses and repeats nothing, in either mode. When a page over
   * the matched rows sets a token, it stopped at a matched row `s`: the token
   * parses back to that row's key, the request sent with it matches exactly
   * the rows from `s` on, and the page put out its share of the rows before
   * `s`. A page without a token put out its share of every matched row.
   */
  lemma PageContinues(generator: bool, all: seq<Row>, ids: seq<int>, c0: Option<Cursor>, limit: nat, fits: seq<bool>)
    requires StrictlySorted(Filter(all, Where(ids, None)))
    requires forall i :: 0 <= i < |all| ==> InRange(all[i].first) && InRange(all[i].second)
    ensures var matched := Filter(all, Where(ids, c0));
      var rows := FirstRows(matched, limit + 1);
      var page := PageOf(generator, rows, limit, fits);
      var s := StopOf(generator, rows, limit, fits);
      && (page.cont.Some? ==>
        && s < |matched|
        && ParseCursor(page.cont.value) == Some(KeyOf(matched[s]))
        && Filter(all, Where(ids, Some(KeyOf(matched[s])))) == matched[s..]
        && page.shown == Output(generator, matched[..s]))
      && (page.cont.None? ==> page.shown == Output(generator, Filter(all, Where(ids, c0))))
  {
    if generator {
      GeneratorContinues(all, ids, c0, limit);
    } else {
      ContinueResumesAtStop(all, ids, c0, limit, fits);
      ListLastPage(Filter(all, Where(ids, c0)), limit, fits);
    }
  }

  /**
   * When the database returns the rows in the order the ORDER BY asks for, and
   * that order is on the second column only just when the IN-list holds one
   * id, the rows come in key order.
   */
  lemma OrderedRowsAreSorted(all: seq<Row>, ids: seq<int>, order: Order)
    requires order == SecondOnly ==> |ids| == 1
    requires SortedBy(Filter(all, Where(ids, None)), order)
    ensures StrictlySorted(Filter(all, Where(ids, None)))
  {
    var g := Filter(all, Where(ids, None));
    if order == SecondOnly {
      FilterMembers(all, Where(ids, None));
      forall i | 0 <= i < |g| ensures g[i].first in ids {
        assert g[i] in g;
      }
    }
    OrderAgreesWithKey(g, order, ids);
  }
}
