/**
 * The older `ApiQueryProjectPages`. It differs from the current module in
 * three ways: the `projects` parameter is optional and, when absent or empty,
 * the SELECT runs without an IN-list over the pages of every project; the
 * ORDER BY is on (project, page) unless exactly one id was resolved; and names
 * resolve through `PageAssessmentsBody::getProjectId`, which reads the table
 * as `PageAssessmentsDAO::getProjectId` does.
 */
module LegacyProjectPagesApi {
  import opened Wrappers
  import opened Bytes
  import opened Storage
  import opened Continuation
  import opened Paging
  import opened PhpInt
  import opened ApiQuery

  /** The SELECT runs when some requested project resolved, or when no project was requested. */
  predicate RunsQuery(ids: seq<int>, projects: seq<Bytes>)
  {
    ids != [] || projects == []
  }

  /** Exactly one project id: order by page alone; otherwise by project, then page. */
  function OrderFor(ids: seq<int>): Order
  {
    if |ids| != 1 then FirstThenSecond else SecondOnly
  }

  /** The rows the request matches, in the order the database returns them; none when the SELECT does not run. */
  function Matched(ids: seq<int>, projects: seq<Bytes>, cont: Option<Bytes>, all: seq<Row>): seq<Row>
  {
    if RunsQuery(ids, projects) then Filter(all, Where(ids, Resume(cont))) else []
  }

  /** What `run` ends with, given the project ids held once the names are converted. */
  function Response(ids: seq<int>, projects: seq<Bytes>, cont: Option<Bytes>, limit: nat, generator: bool,
                    fits: seq<bool>, all: seq<Row>): Outcome
  {
    if BadContinue(cont) then ContinueUsageError
    else Done(PageOf(generator, FirstRows(Matched(ids, projects, cont, all), limit + 1), limit, fits))
  }

  /** The module object; `all` and `fits` are as for the current module. */
  class ApiQueryProjectPages {
    var projectIds: seq<int>
    var warnings: seq<Warning>
    var conds: Where
    var order: Option<Order>

    constructor()
      ensures projectIds == [] && warnings == [] && conds == Where([], None) && order == None
    {
      projectIds := [];
      warnings := [];
      conds := Where([], None);
      order := None;
    }

    /** `buildDbQuery`; an absent `projects` parameter is the empty list. */
    method BuildDbQuery(db: Database, projects: seq<Bytes>, cont: Option<Bytes>) returns (ok: bool)
      modifies this
      ensures projectIds == old(projectIds) + ResolvedIds(db.projects, projects)
      ensures warnings == old(warnings) + BadProjects(Unresolved(db.projects, projects))
      ensures ok <==> !BadContinue(cont)
      ensures ok ==> conds == Where(projectIds, Resume(cont)) && order == Some(OrderFor(projectIds))
      ensures !ok ==> conds == Where(projectIds, None) && order == old(order)
    {
      var ids, bad := ConvertNames(db, projects);
      projectIds := projectIds + ids;
      warnings := warnings + BadProjects(bad);
      conds := Where(projectIds, None);
      if cont.Some? {
        var c := ParseCursor(cont.value);
        if c.None? {
          return false;
        }
        conds := conds.(resume := c);
      }
      order := Some(if |projectIds| != 1 then FirstThenSecond else SecondOnly);
      ok := true;
    }

    /** `run`. */
    method Run(db: Database, projects: seq<Bytes>, cont: Option<Bytes>, limit: nat, assessments: bool,
               generator: bool, all: seq<Row>, fits: seq<bool>) returns (out: Outcome)
      modifies this
      ensures projectIds == old(projectIds) + ResolvedIds(db.projects, projects)
      ensures warnings == old(warnings) + (if assessments && generator then [NoGeneratorAssessments] else [])
        + BadProjects(Unresolved(db.projects, projects))
      ensures out == Response(projectIds, projects, cont, limit, generator, fits, all)
    {
      var first: seq<Warning> := if assessments && generator then [NoGeneratorAssessments] else [];
      warnings := warnings + first;
      var ok := BuildDbQuery(db, projects, cont);
      if !ok {
        return ContinueUsageError;
      }
      var rows := if projectIds != [] || projects == [] then Select(all, conds, limit) else [];
      assert rows == FirstRows(Matched(projectIds, projects, cont, all), limit + 1);
      var page := RunLoop(generator, rows, limit, fits);
      out := Done(page);
    }
  }

  /**
   * The request fails exactly when its `continue` parameter does not parse.
   * With no project requested the page is drawn from the rows of every
   * project; with projects requested it holds only rows of those that
   * resolved, and nothing when none did.
   */
  lemma ResponseRows(ids: seq<int>, projects: seq<Bytes>, cont: Option<Bytes>, limit: nat, generator: bool,
                     fits: seq<bool>, all: seq<Row>)
    ensures var out := Response(ids, projects, cont, limit, generator, fits, all);
      && (out == ContinueUsageError <==> BadContinue(cont))
      && (out.Done? ==> |out.page.shown| <= limit)
      && (out.Done? ==> forall x :: x in out.page.shown ==> x in all && (ids != [] ==> x.first in ids))
      && (projects == [] ==> Matched(ids, projects, cont, all) == Filter(all, Where(ids, Resume(cont))))
      && (projects != [] && ids == [] && out.Done? ==> out.page == Page([], None))
  {
    if RunsQuery(ids, projects) && !BadContinue(cont) {
      ShownRowsMatch(generator, all, Where(ids, Resume(cont)), limit, fits);
    }
  }

  /**
   * Paging through the results loses and repeats nothing when the database
   * honours the ORDER BY the module chose, including the request for every
   * project, which orders by (project, page).
   */
  lemma ContinuationLosesNothing(ids: seq<int>, projects: seq<Bytes>, cont: Option<Bytes>, limit: nat, generator: bool,
                                 fits: seq<bool>, all: seq<Row>)
    requires forall i :: 0 <= i < |all| ==> InRange(all[i].first) && InRange(all[i].second)
    requires SortedBy(Filter(all, Where(ids, None)), OrderFor(ids))
    ensures var out := Response(ids, projects, cont, limit, generator, fits, all);
      var matched := Matched(ids, projects, cont, all);
      var rows := FirstRows(matched, limit + 1);
      var s := StopOf(generator, rows, limit, fits);
      && (out.Done? && out.page.cont.Some? ==>
        && !BadContinue(out.page.cont)
        && s < |matched|
        && Matched(ids, projects, out.page.cont, all) == matched[s..]
        && out.page.shown == Output(generator, matched[..s]))
      && (out.Done? && out.page.cont.None? ==> out.page.shown == Output(generator, matched))
  {
    if RunsQuery(ids, projects) && !BadContinue(cont) {
      OrderedRowsAreSorted(all, ids, OrderFor(ids));
      PageContinues(generator, all, ids, Resume(cont), limit, fits);
    }
  }
}
