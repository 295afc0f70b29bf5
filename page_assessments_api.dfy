/**
 * `ApiQueryPageAssessments` (prop=pageassessments): the projects and
 * assessments of the pages in the page set. With no pages it adds nothing
 * and returns before looking at any parameter. Otherwise the SELECT has an
 * IN-list on the page id, LIMIT limit+1, the resume condition of an accepted
 * `continue` parameter (written `"page|project"`), and an ORDER BY on
 * (page, project) for several pages or on project alone for one.
 */
module PageAssessmentsApi {
  import opened Wrappers
  import opened Bytes
  import opened Continuation
  import opened Paging
  import opened PhpInt
  import opened ApiQuery

  /** Several pages: order by page, then project; otherwise by project alone. */
  function OrderFor(pages: seq<int>): Order
  {
    if |pages| > 1 then FirstThenSecond else SecondOnly
  }

  /** The rows the request matches, in the order the database returns them. */
  function Matched(pages: seq<int>, cont: Option<Bytes>, all: seq<Row>): seq<Row>
  {
    Filter(all, Where(pages, Resume(cont)))
  }

  /** What `execute` ends with for the ids of the good titles of the page set. */
  function Response(pages: seq<int>, cont: Option<Bytes>, limit: nat, fits: seq<bool>, all: seq<Row>): Outcome
  {
    if pages == [] then Done(Page([], None))
    else if BadContinue(cont) then ContinueUsageError
    else Done(ListPage(FirstRows(Matched(pages, cont, all), limit + 1), limit, fits))
  }

  /**
   * `execute` with `buildDbQuery`. Rows are keyed (page, project); `all` is
   * the join of page_assessments and page_assessments_projects in the order
   * the database returns it for the chosen ORDER BY, and `fits` answers
   * `addValue`. `order` is the ORDER BY option, None when no query is built
   * to the end.
   */
  method Execute(pages: seq<int>, cont: Option<Bytes>, limit: nat, fits: seq<bool>, all: seq<Row>)
    returns (out: Outcome, order: Option<Order>)
    ensures out == Response(pages, cont, limit, fits, all)
    ensures order.Some? <==> out.Done? && pages != []
    ensures order.Some? ==> order.value == OrderFor(pages)
  {
    if |pages| == 0 {
      return Done(Page([], None)), None;
    }
    var conds := Where(pages, None);
    if cont.Some? {
      var c := ParseCursor(cont.value);
      if c.None? {
        return ContinueUsageError, None;
      }
      conds := conds.(resume := c);
    }
    order := Some(if |pages| > 1 then FirstThenSecond else SecondOnly);
    var rows := Select(all, conds, limit);
    var shown, next := ListRows(rows, limit, fits);
    out := Done(Page(shown, next));
  }

  /**
   * With no pages nothing is added, whatever the `continue` parameter; with
   * pages, the request fails exactly when that parameter does not parse, and
   * otherwise shows at most `limit` named rows, each a row of a requested page.
   */
  lemma ResponseRows(pages: seq<int>, cont: Option<Bytes>, limit: nat, fits: seq<bool>, all: seq<Row>)
    ensures var out := Response(pages, cont, limit, fits, all);
      && (pages == [] ==> out == Done(Page([], None)))
      && (out == ContinueUsageError <==> pages != [] && BadContinue(cont))
      && (out.Done? ==> |out.page.shown| <= limit)
      && (out.Done? ==> forall x :: x in out.page.shown ==> x in all && x.first in pages && Truthy(x.name))
  {
    if pages != [] && !BadContinue(cont) {
      ShownRowsMatch(false, all, Where(pages, Resume(cont)), limit, fits);
    }
  }

  /**
   * Paging through a page set's assessments loses and repeats nothing when the
   * database honours the ORDER BY the module chose: a token is accepted, the
   * request sent with it matches exactly the rows from the stop row on, and
   * the page showed the named rows before it; without a token every named
   * matched row was shown.
   */
  lemma ContinuationLosesNothing(pages: seq<int>, cont: Option<Bytes>, limit: nat, fits: seq<bool>, all: seq<Row>)
    requires forall i :: 0 <= i < |all| ==> InRange(all[i].first) && InRange(all[i].second)
    requires SortedBy(Filter(all, Where(pages, None)), OrderFor(pages))
    ensures var out := Response(pages, cont, limit, fits, all);
      var matched := Matched(pages, cont, all);
      var rows := FirstRows(matched, limit + 1);
      var s := StopFrom(rows, limit, fits, 0);
      && (out.Done? && out.page.cont.Some? ==>
        && !BadContinue(out.page.cont)
        && s < |matched|
        && Matched(pages, out.page.cont, all) == matched[s..]
        && out.page.shown == Shown(matched[..s]))
      && (pages != [] && out.Done? && out.page.cont.None? ==> out.page.shown == Shown(matched))
  {
    if pages != [] && !BadContinue(cont) {
      OrderedRowsAreSorted(all, pages, OrderFor(pages));
      PageContinues(false, all, pages, Resume(cont), limit, fits);
    }
  }
}
