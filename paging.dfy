/**
 * The limit+1 paging loop of the API query modules. The SELECT asks for one
 * row more than `limit`; the loop counts every row it takes, stops at the
 * first row past the limit or at the first row the result does not accept,
 * and writes that row's key as the continue token. Rows whose project name is
 * falsy are skipped but still counted.
 */
module Paging {
  import opened Wrappers
  import opened Bytes
  import opened PhpInt
  import opened Continuation

  /**
   * A selected row: its key in the order the module's token writes it
   * (project, page for ProjectPages; page, project for PageAssessments) and
   * the project name the join brought along.
   */
  datatype Row = Row(first: int, second: int, name: Bytes)

  function KeyOf(row: Row): Cursor
  {
    Cursor(row.first, row.second)
  }

  /** PHP truthiness of a string: "" and "0" are the falsy ones. */
  predicate Truthy(s: Bytes)
  {
    s != [] && s != [ZERO]
  }

  /**
   * What `$result->addValue(...)` answers for the row at position `i`; the
   * result's size bound is outside the model, so it is an oracle, and
   * positions past its end fit.
   */
  predicate Fits(fits: seq<bool>, i: int)
  {
    !(0 <= i < |fits|) || fits[i]
  }

  /** The loop leaves at row `i`: it is the (limit+1)-th row, or a shown row that does not fit. */
  predicate StopsAt(rows: seq<Row>, limit: nat, fits: seq<bool>, i: nat)
    requires i < |rows|
  {
    i + 1 > limit || (Truthy(rows[i].name) && !Fits(fits, i))
  }

  /** The first position at or after `i` where the loop leaves, or `|rows|` when it runs out of rows. */
  function StopFrom(rows: seq<Row>, limit: nat, fits: seq<bool>, i: nat): (s: nat)
    requires i <= |rows|
    ensures i <= s <= |rows|
    ensures forall j :: i <= j < s ==> !StopsAt(rows, limit, fits, j)
    ensures s < |rows| ==> StopsAt(rows, limit, fits, s)
    decreases |rows| - i
  {
    if i == |rows| || StopsAt(rows, limit, fits, i) then i
    else StopFrom(rows, limit, fits, i + 1)
  }

  /** The rows with a truthy name, in order. */
  function Shown(rows: seq<Row>): (r: seq<Row>)
    ensures |r| <= |rows|
    ensures forall x :: x in r ==> x in rows && Truthy(x.name)
    ensures forall x :: x in rows && Truthy(x.name) ==> x in r
    decreases |rows|
  {
    if rows == [] then []
    else
      var init, last := rows[..|rows| - 1], rows[|rows| - 1];
      SplitLast(rows);
      Shown(init) + (if Truthy(last.name) then [last] else [])
  }

  lemma ShownSnoc(rows: seq<Row>, row: Row)
    ensures Shown(rows + [row]) == Shown(rows) + (if Truthy(row.name) then [row] else [])
  {
    assert (rows + [row])[..|rows|] == rows;
  }

  /** The first `n` rows, or all of them when there are fewer; the generic form of SQL's LIMIT. */
  function FirstRows(rows: seq<Row>, n: nat): (r: seq<Row>)
    ensures |r| <= n && |r| <= |rows| && r == rows[..|r|]
    ensures |rows| <= n ==> r == rows
    ensures |rows| > n ==> |r| == n
  {
    if |rows| <= n then rows else rows[..n]
  }

  /** What one page shows and the continue token it sets, if any. */
  datatype Page = Page(shown: seq<Row>, cont: Option<Bytes>)

  /** The list-mode page: the counted rows are those before the stop, the token is the stop row's key. */
  function ListPage(rows: seq<Row>, limit: nat, fits: seq<bool>): Page
  {
    var s := StopFrom(rows, limit, fits, 0);
    Page(Shown(rows[..s]), if s < |rows| then Some(FormatCursor(KeyOf(rows[s]))) else None)
  }

  /**
   * The list-mode loop (src/Api/ApiQueryProjectPages.php:58-85 and its two
   * copies): count every row, break at the (limit+1)-th with its token, skip a
   * falsy name, break with the row's token when it does not fit, else show it.
   */
  method ListRows(rows: seq<Row>, limit: nat, fits: seq<bool>) returns (shown: seq<Row>, cont: Option<Bytes>)
    ensures Page(shown, cont) == ListPage(rows, limit, fits)
  {
    shown := [];
    cont := None;
    var count := 0;
    var k := 0;
    while k < |rows|
      invariant 0 <= k <= |rows| && count == k
      invariant StopFrom(rows, limit, fits, k) == StopFrom(rows, limit, fits, 0)
      invariant shown == Shown(rows[..k])
      invariant cont == None
    {
      var row := rows[k];
      count := count + 1;
      if count > limit {
        cont := Some(FormatCursor(KeyOf(row)));
        return;
      }
      TakeOneMore(rows, k);
      ShownSnoc(rows[..k], row);
      if !Truthy(row.name) {
        k := k + 1;
        continue;
      }
      var fit := Fits(fits, k);
      if !fit {
        cont := Some(FormatCursor(KeyOf(row)));
        return;
      }
      shown := shown + [row];
      k := k + 1;
    }
    TakeAll(rows);
  }

  /**
   * The generator-mode loop (src/Api/ApiQueryProjectPages.php:90-98): every
   * row up to the limit goes to the page set, names unchecked; the
   * (limit+1)-th row, if there is one, gives the token.
   */
  method GenerateRows(rows: seq<Row>, limit: nat) returns (processed: seq<Row>, cont: Option<Bytes>)
    ensures processed == FirstRows(rows, limit)
    ensures |rows| > limit ==> cont == Some(FormatCursor(KeyOf(rows[limit])))
    ensures |rows| <= limit ==> cont == None
  {
    processed := [];
    cont := None;
    var count := 0;
    var k := 0;
    while k < |rows|
      invariant 0 <= k <= |rows| && count == k && k <= limit
      invariant processed == rows[..k]
      invariant cont == None
    {
      var row := rows[k];
      count := count + 1;
      if count > limit {
        cont := Some(FormatCursor(KeyOf(row)));
        return;
      }
      TakeOneMore(rows, k);
      processed := processed + [row];
      k := k + 1;
    }
    TakeAll(rows);
  }

  /** With no limit reached and everything fitting, the loop stops exactly at the limit or the end. */
  lemma {:induction false} StopWhenAllFit(rows: seq<Row>, limit: nat, i: nat)
    requires i <= |rows| && i <= limit
    ensures StopFrom(rows, limit, [], i) == if |rows| <= limit then |rows| else limit
    decreases |rows| - i
  {
    if i < |rows| && i < limit {
      StopWhenAllFit(rows, limit, i + 1);
    }
  }

  /** The loop never counts more than `limit` rows, so never shows more than `limit`. */
  lemma {:induction false} StopWithinLimit(rows: seq<Row>, limit: nat, fits: seq<bool>, i: nat)
    requires i <= |rows| && i <= limit
    ensures StopFrom(rows, limit, fits, i) <= limit
    decreases |rows| - i
  {
    if i < |rows| && !StopsAt(rows, limit, fits, i) {
      StopWithinLimit(rows, limit, fits, i + 1);
    }
  }

  /**
   * A list page shows at most `limit` rows, each with a truthy name, taken in
   * order from the first `limit` rows; every truthy-named row before the stop
   * is shown.
   */
  lemma ListPageBound(rows: seq<Row>, limit: nat, fits: seq<bool>)
    ensures var s := StopFrom(rows, limit, fits, 0);
      && s <= limit
      && ListPage(rows, limit, fits).shown == Shown(rows[..s])
      && |ListPage(rows, limit, fits).shown| <= limit
      && (forall x :: x in ListPage(rows, limit, fits).shown ==> Truthy(x.name) && x in rows[..s])
  {
    StopWithinLimit(rows, limit, fits, 0);
  }

  /** When every row fits, a token is set exactly when there are more than `limit` rows, and it is row `limit`'s. */
  lemma ListPageAllFit(rows: seq<Row>, limit: nat)
    ensures var page := ListPage(rows, limit, []);
      && (page.cont.Some? <==> |rows| > limit)
      && (|rows| > limit ==> page.cont == Some(FormatCursor(KeyOf(rows[limit]))))
      && page.shown == Shown(FirstRows(rows, limit))
  {
    StopWhenAllFit(rows, limit, 0);
  }

  /** Rows with falsy names still count: `limit` nameless rows then more give an empty page with a token. */
  lemma NamelessRowsStillCount(rows: seq<Row>, limit: nat, fits: seq<bool>)
    requires |rows| > limit
    requires forall j :: 0 <= j < |rows| ==> !Truthy(rows[j].name)
    ensures ListPage(rows, limit, fits) == Page([], Some(FormatCursor(KeyOf(rows[limit]))))
  {
    NamelessStop(rows, limit, fits, 0);
    NoneShown(rows[..limit]);
  }

  lemma {:induction false} NoneShown(rows: seq<Row>)
    requires forall j :: 0 <= j < |rows| ==> !Truthy(rows[j].name)
    ensures Shown(rows) == []
    decreases |rows|
  {
    if rows != [] {
      NoneShown(rows[..|rows| - 1]);
    }
  }

  lemma {:induction false} NamelessStop(rows: seq<Row>, limit: nat, fits: seq<bool>, i: nat)
    requires i <= limit < |rows|
    requires forall j :: 0 <= j < |rows| ==> !Truthy(rows[j].name)
    ensures StopFrom(rows, limit, fits, i) == limit
    decreases limit - i
  {
    if i < limit {
      NamelessStop(rows, limit, fits, i + 1);
    }
  }

  /** With every name truthy and every row fitting, list mode shows what generator mode processes. */
  lemma ListIsGeneratorWhenAllShown(rows: seq<Row>, limit: nat)
    requires forall j :: 0 <= j < |rows| ==> Truthy(rows[j].name)
    ensures ListPage(rows, limit, []).shown == FirstRows(rows, limit)
  {
    StopWhenAllFit(rows, limit, 0);
    AllShown(FirstRows(rows, limit));
  }

  lemma {:induction false} AllShown(rows: seq<Row>)
    requires forall j :: 0 <= j < |rows| ==> Truthy(rows[j].name)
    ensures Shown(rows) == rows
    decreases |rows|
  {
    if rows != [] {
      var init := rows[..|rows| - 1];
      AllShown(init);
      SplitLast(rows);
    }
  }

  /** The keys strictly increase in lexicographic order, as ORDER BY on a unique key delivers them. */
  predicate StrictlySorted(rows: seq<Row>)
  {
    forall i, j :: 0 <= i < j < |rows| ==>
      rows[i].first < rows[j].first || (rows[i].first == rows[j].first && rows[i].second < rows[j].second)
  }

  /** The rows the resume condition of cursor `c` keeps, in order. */
  function ResumeFrom(rows: seq<Row>, c: Cursor): seq<Row>
    decreases |rows|
  {
    if rows == [] then []
    else (if Resumes(c, rows[0].first, rows[0].second) then [rows[0]] else []) + ResumeFrom(rows[1..], c)
  }

  /** Dropping the first row keeps the rows sorted. */
  lemma SortedTail(rows: seq<Row>)
    requires StrictlySorted(rows) && rows != []
    ensures StrictlySorted(rows[1..])
  {
    forall a, b | 0 <= a < b < |rows[1..]|
      ensures rows[1..][a].first < rows[1..][b].first ||
        (rows[1..][a].first == rows[1..][b].first && rows[1..][a].second < rows[1..][b].second)
    {
      assert rows[1..][a] == rows[a + 1] && rows[1..][b] == rows[b + 1];
    }
  }

  /** On sorted rows, resuming at the key of row `j` gives back exactly the rows from `j` on. */
  lemma {:induction false} ResumeAtRow(rows: seq<Row>, j: nat)
    requires StrictlySorted(rows) && j < |rows|
    ensures ResumeFrom(rows, KeyOf(rows[j])) == rows[j..]
    decreases j
  {
    var c := KeyOf(rows[j]);
    if j == 0 {
      ResumeKeepsAll(rows, c);
    } else {
      assert !Resumes(c, rows[0].first, rows[0].second) by {
        assert 0 < j;
      }
      assert ResumeFrom(rows, c) == ResumeFrom(rows[1..], c);
      SortedTail(rows);
      assert rows[1..][j - 1] == rows[j];
      ResumeAtRow(rows[1..], j - 1);
      assert rows[1..][j - 1..] == rows[j..];
    }
  }

  /** On sorted rows, the resume condition of the first row's key keeps them all. */
  lemma ResumeKeepsAll(rows: seq<Row>, c: Cursor)
    requires StrictlySorted(rows) && |rows| > 0 && KeyOf(rows[0]) == c
    ensures ResumeFrom(rows, c) == rows
  {
    forall i | 0 <= i < |rows| ensures Resumes(c, rows[i].first, rows[i].second) {
      if i > 0 {
        assert rows[0].first < rows[i].first || (rows[0].first == rows[i].first && rows[0].second < rows[i].second);
      }
    }
    ResumeAfterFirst(rows, c);
  }

  /** Rows all past the cursor are all kept. */
  lemma {:induction false} ResumeAfterFirst(rows: seq<Row>, c: Cursor)
    requires forall i :: 0 <= i < |rows| ==> Resumes(c, rows[i].first, rows[i].second)
    ensures ResumeFrom(rows, c) == rows
    decreases |rows|
  {
    if rows != [] {
      ResumeAfterFirst(rows[1..], c);
      assert rows == [rows[0]] + rows[1..];
    }
  }

  /**
   * Paging loses and repeats nothing: when a page stops at a row whose key
   * holds 64-bit integers, its token parses back to that row's key, and
   * resuming there over the same sorted rows yields exactly the rows the page
   * did not count.
   */
  lemma NextPageResumesAtStop(rows: seq<Row>, limit: nat, fits: seq<bool>)
    requires StrictlySorted(rows)
    requires forall i :: 0 <= i < |rows| ==> InRange(rows[i].first) && InRange(rows[i].second)
    ensures var s := StopFrom(rows, limit, fits, 0);
      var page := ListPage(rows, limit, fits);
      page.cont.Some? ==>
        && s < |rows|
        && ParseCursor(page.cont.value) == Some(KeyOf(rows[s]))
        && rows[..s] + ResumeFrom(rows, KeyOf(rows[s])) == rows
  {
    var s := StopFrom(rows, limit, fits, 0);
    if s < |rows| {
      StopRowToken(rows, limit, fits);
      var x := rows[s];
      assert InRange(x.first) && InRange(x.second);
      ParseFormatCursor(KeyOf(x));
      ResumeAtRow(rows, s);
      TakeDrop(rows, s);
    }
  }

  /** The list page's token, when set, is the key of the stop row. */
  lemma StopRowToken(rows: seq<Row>, limit: nat, fits: seq<bool>)
    ensures var s := StopFrom(rows, limit, fits, 0);
      ListPage(rows, limit, fits).cont.Some? <==> s < |rows|
    ensures var s := StopFrom(rows, limit, fits, 0);
      s < |rows| ==> ListPage(rows, limit, fits).cont == Some(FormatCursor(KeyOf(rows[s])))
  {
  }

  lemma TakeDrop(rows: seq<Row>, s: nat)
    requires s <= |rows|
    ensures rows[..s] + rows[s..] == rows
  {
  }
}
