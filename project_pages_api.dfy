/**
 * `ApiQueryProjectPages` (list=projectpages and generator=projectpages): the
 * pages assessed by the requested projects. The requested project names are
 * resolved to ids; only when some resolve does the SELECT run, with an IN-list
 * on the project id, LIMIT limit+1, the resume condition of an accepted
 * `continue` parameter, and an ORDER BY on (project, page) for several
 * projects or on page alone for one.
 */
module ProjectPagesApi {
  import opened Wrappers
  import opened Bytes
  import opened Storage
  import opened Continuation
  import opened Paging
  import opened PhpInt
  import opened ApiQuery

  /** The SELECT runs only when some requested project resolved. */
  predicate RunsQuery(ids: seq<int>)
  {
    ids != []
  }

  /** Several project ids: order by project, then page; otherwise by page alone. */
  function OrderFor(ids: seq<int>): Order
  {
    if |ids| > 1 then FirstThenSecond else SecondOnly
  }

  /** The rows the request matches, in the order the database returns them; none when the SELECT does not run. */
  function Matched(ids: seq<int>, cont: Option<Bytes>, all: seq<Row>): seq<Row>
  {
    if RunsQuery(ids) then Filter(all, Where(ids, Resume(cont))) else []
  }

  /** What `run` ends with, given the project ids held once the names are converted. */
  function Response(ids: seq<int>, cont: Option<Bytes>, limit: nat, generator: bool, fits: seq<bool>, all: seq<Row>): Outcome
  {
    if BadContinue(cont) then ContinueUsageError
    else Done(PageOf(generator, FirstRows(Matched(ids, cont, all), limit + 1), limit, fits))
  }

  /**
   * The module object. `all` is the join of page, page_assessments and
   * page_assessments_projects in the order the database returns it for the
   * chosen ORDER BY; `fits` answers `addValue`.
   */
  class ApiQueryProjectPages {
    /** `$projectIds`: the ids of the requested projects that resolved, in request order. */
    var projectIds: seq<int>
    /** The warnings added to the result. */
    var warnings: seq<Warning>
    /** The WHERE clause built so far. */
    var conds: Where
    /** The ORDER BY option, once set. */
    var order: Option<Order>

    constructor()
      ensures projectIds == [] && warnings == [] && conds == Where([], None) && order == None
    {
      projectIds := [];
      warnings := [];
      conds := Where([], None);
      order := None;
    }

    /**
     * `buildDbQuery`: converts the names, puts the ids in the IN-list, checks
     * the `continue` parameter (false is `dieContinueUsageIf`) and adds its
     * resume condition, then chooses the ORDER BY.
     */
    method BuildDbQuery(db: Database, projects: seq<Bytes>, cont: Option<Bytes>) returns (ok: bool)
      modifies this
      ensures projectIds == old(projectIds) + ResolvedIds(db.projects, projects)
      ensures warnings == old(warnings) + BadProjects(Unresolved(db.projects, projects))
      ensures ok <==> !BadContinue(cont)
      ensures ok ==> conds == Where(projectIds, Resume(cont)) && order == Some(OrderFor(projectIds))
      ensures !ok ==> conds == Where(projectIds, None) && order == old(order)
    {
      var ids, bad := ConvertNames(db, projects);
      projectIds := projectIds + ids;
      warnings := warnings + BadProjects(bad);
      conds := Where(projectIds, None);
      if cont.Some? {
        var c := ParseCursor(cont.value);
        if c.None? {
          return false;
        }
        conds := conds.(resume := c);
      }
      order := Some(if |projectIds| > 1 then FirstThenSecond else SecondOnly);
      ok := true;
    }

    /** `run`, for `execute` (list mode) and `executeGenerator` (generator mode). */
    method Run(db: Database, projects: seq<Bytes>, cont: Option<Bytes>, limit: nat, assessments: bool,
               generator: bool, all: seq<Row>, fits: seq<bool>) returns (out: Outcome)
      modifies this
      ensures projectIds == old(projectIds) + ResolvedIds(db.projects, projects)
      ensures warnings == old(warnings) + (if assessments && generator then [NoGeneratorAssessments] else [])
        + BadProjects(Unresolved(db.projects, projects))
      ensures out == Response(projectIds, cont, limit, generator, fits, all)
    {
      var first: seq<Warning> := if assessments && generator then [NoGeneratorAssessments] else [];
      warnings := warnings + first;
      var ok := BuildDbQuery(db, projects, cont);
      if !ok {
        return ContinueUsageError;
      }
      var rows := if projectIds != [] then Select(all, conds, limit) else [];
      assert rows == FirstRows(Matched(projectIds, cont, all), limit + 1);
      var page := RunLoop(generator, rows, limit, fits);
      out := Done(page);
    }
  }

  /**
   * The request fails exactly when its `continue` parameter does not parse;
   * otherwise the page shows at most `limit` rows, each a row of a requested
   * project that resolved, and with no project resolved it is empty and has
   * no token.
   */
  lemma ResponseRows(ids: seq<int>, cont: Option<Bytes>, limit: nat, generator: bool, fits: seq<bool>, all: seq<Row>)
    ensures var out := Response(ids, cont, limit, generator, fits, all);
      && (out == ContinueUsageError <==> BadContinue(cont))
      && (out.Done? ==> |out.page.shown| <= limit)
      && (out.Done? ==> forall x :: x in out.page.shown ==> x in all && x.first in ids)
      && (ids == [] && out.Done? ==> out.page == Page([], None))
  {
    if RunsQuery(ids) && !BadContinue(cont) {
      ShownRowsMatch(generator, all, Where(ids, Resume(cont)), limit, fits);
    }
  }

  /**
   * Paging through the results loses and repeats nothing when the database
   * honours the ORDER BY the module chose. A page with a token stopped at row
   * `s` of the matched rows: the token is accepted, the request sent with it
   * matches exactly the rows from `s` on, and the page put out the rows
   * before `s` (the named ones in list mode). A page without a token put out
   * every matched row.
   */
  lemma ContinuationLosesNothing(ids: seq<int>, cont: Option<Bytes>, limit: nat, generator: bool, fits: seq<bool>, all: seq<Row>)
    requires forall i :: 0 <= i < |all| ==> InRange(all[i].first) && InRange(all[i].second)
    requires SortedBy(Filter(all, Where(ids, None)), OrderFor(ids))
    ensures var out := Response(ids, cont, limit, generator, fits, all);
      var matched := Matched(ids, cont, all);
      var rows := FirstRows(matched, limit + 1);
      var s := StopOf(generator, rows, limit, fits);
      && (out.Done? && out.page.cont.Some? ==>
        && !BadContinue(out.page.cont)
        && s < |matched|
        && Matched(ids, out.page.cont, all) == matched[s..]
        && out.page.shown == Output(generator, matched[..s]))
      && (out.Done? && out.page.cont.None? ==> out.page.shown == Output(generator, matched))
  {
    if RunsQuery(ids) && !BadContinue(cont) {
      OrderedRowsAreSorted(all, ids, OrderFor(ids));
      PageContinues(generator, all, ids, Resume(cont), limit, fits);
    }
  }
}
