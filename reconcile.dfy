/**
 * What `PageAssessmentsDAO::doUpdates` computes, as functions of the old tables:
 * the project-resolution pass, the insert/update/delete sets and the write pass.
 * The imperative version in PageAssessmentsDAO is proved equal to Reconcile.
 */
module Reconcile {
  import opened Wrappers
  import opened Bytes
  import opened Storage
  import opened ProjectTitle

  /** One `[project, class, importance]` entry collected by `cacheAssessment`. */
  datatype Declaration = Declaration(project: Bytes, quality: Bytes, importance: Bytes)

  /**
   * `extractParentProjectId`: the id of the project named by the text before the
   * first `/`, when there is a `/` and that text is non-empty.
   */
  function ExtractParentProjectId(t: ProjectTable, projectName: Bytes): (r: Option<int>)
    ensures r.Some? <==>
      SLASH in projectName && 0 < IndexOf(projectName, SLASH) &&
      projectName[..IndexOf(projectName, SLASH)] in t.rows
    ensures r.Some? ==> r.value == t.rows[projectName[..IndexOf(projectName, SLASH)]].id
  {
    var parts := Split(projectName, SLASH);
    if |parts| > 1 && parts[0] != [] then LookupId(t, parts[0]) else None
  }

  /** Under the row invariants an inferred parent is an existing, positive id below the next one. */
  lemma ParentIsEarlierProject(t: ProjectTable, projectName: Bytes)
    requires ProjectsValid(t)
    ensures var p := ExtractParentProjectId(t, projectName);
      p.Some? ==> 1 <= p.value < t.nextId
  {
  }

  /** The example of the doc comment: "Novels/Crime task force" has parent "Novels". */
  lemma ParentOfNovelsTaskForce(t: ProjectTable, novels: Bytes, rest: Bytes)
    requires novels != [] && SLASH !in novels && novels in t.rows
    ensures ExtractParentProjectId(t, novels + [SLASH] + rest) == Some(t.rows[novels].id)
  {
    var s := novels + [SLASH] + rest;
    assert s[|novels|] == SLASH;
    assert s[..|novels|] == novels;
    IndexOfFirst(s, SLASH, |novels|);
  }

  /**
   * Get-or-create, lines 64-75: the id of `projectName` if the table has it;
   * otherwise a new row with the next id and, when subprojects are enabled,
   * the inferred parent.
   */
  function EnsureProject(t: ProjectTable, projectName: Bytes, subprojects: bool): (r: (ProjectTable, int))
    ensures Extends(t, r.0)
    ensures projectName in r.0.rows && r.0.rows[projectName].id == r.1
    ensures projectName in t.rows ==> r.0 == t
    ensures projectName !in t.rows ==>
      && r.1 == t.nextId
      && r.0.nextId == t.nextId + 1
      && (forall n :: n in r.0.rows <==> n in t.rows || n == projectName)
      && (ProjectsValid(t) ==>
            r.0.rows[projectName].parentId == if subprojects then ExtractParentProjectId(t, projectName) else None)
    ensures ProjectsValid(t) ==> ProjectsValid(r.0)
  {
    match LookupId(t, projectName)
    case Some(id) => (t, id)
    case None =>
      var parent := if subprojects then ExtractParentProjectId(t, projectName) else None;
      (AddProject(t, projectName, parent), t.nextId)
  }

  /** Line 62: a declaration with a set, non-empty name gets its cleaned name. */
  function CleanDeclaration(d: Declaration): (c: Declaration)
    ensures c.quality == d.quality && c.importance == d.importance
    ensures c.project == if d.project == [] then [] else CleanProjectTitle(d.project)
  {
    if d.project == [] then d else d.(project := CleanProjectTitle(d.project))
  }

  /** The assessment data after the first loop has rewritten every name in place. */
  function CleanAll(ds: seq<Declaration>): (r: seq<Declaration>)
    ensures |r| == |ds| && forall i :: 0 <= i < |ds| ==> r[i] == CleanDeclaration(ds[i])
  {
    seq(|ds|, i requires 0 <= i < |ds| => CleanDeclaration(ds[i]))
  }

  /** `$projects` (cleaned name -> id) together with the project table it was built against. */
  datatype Resolution = Resolution(table: ProjectTable, ids: map<Bytes, int>)

  /** The cleaned names of the declarations that have a non-empty name. */
  function DeclaredNames(ds: seq<Declaration>): set<Bytes>
  {
    set d | d in ds && d.project != [] :: CleanProjectTitle(d.project)
  }

  /** Every name in `$projects` is a row of the table, with the same id. */
  predicate IdsAgree(r: Resolution)
  {
    forall n :: n in r.ids ==> n in r.table.rows && r.ids[n] == r.table.rows[n].id
  }

  /** One iteration of the first loop (lines 56-78). */
  function ResolveStep(r: Resolution, d: Declaration, subprojects: bool): (r2: Resolution)
    ensures Extends(r.table, r2.table)
    ensures ProjectsValid(r.table) ==> ProjectsValid(r2.table)
    ensures r2.ids.Keys == r.ids.Keys + DeclaredNames([d])
    ensures IdsAgree(r) ==> IdsAgree(r2)
    ensures forall n :: n in r2.table.rows ==> n in r.table.rows || n in DeclaredNames([d])
    ensures forall n :: n in r2.table.rows && n !in r.table.rows ==> r2.table.rows[n].id >= r.table.nextId
    ensures (forall n :: n in DeclaredNames([d]) ==> n in r.table.rows) ==> r2.table == r.table
  {
    assert d in [d];
    if d.project == [] then r
    else
      var name := CleanProjectTitle(d.project);
      var (t, id) := EnsureProject(r.table, name, subprojects);
      assert DeclaredNames([d]) == {name};
      Resolution(t, r.ids[name := id])
  }

  /**
   * The first loop over all declarations. `$projects` holds exactly the cleaned
   * declared names, each with the id its row has in the final table; every old
   * row is kept, and only declared names are added, with fresh ids.
   */
  function ResolveAll(t: ProjectTable, ds: seq<Declaration>, subprojects: bool): (r: Resolution)
    ensures Extends(t, r.table)
    ensures ProjectsValid(t) ==> ProjectsValid(r.table)
    ensures r.ids.Keys == DeclaredNames(ds)
    ensures IdsAgree(r)
    ensures forall n :: n in r.table.rows ==> n in t.rows || n in r.ids
    ensures (forall n :: n in DeclaredNames(ds) ==> n in t.rows) ==> r.table == t
    decreases |ds|
  {
    if ds == [] then Resolution(t, map[])
    else
      var init, d := ds[..|ds| - 1], ds[|ds| - 1];
      var prev := ResolveAll(t, init, subprojects);
      DeclaredNamesSnoc(init, d);
      SplitLast(ds);
      ResolveStep(prev, d, subprojects)
  }

  /** The first loop over one more declaration is one more step. */
  lemma ResolveAllSnoc(t: ProjectTable, ds: seq<Declaration>, d: Declaration, subprojects: bool)
    ensures ResolveAll(t, ds + [d], subprojects) == ResolveStep(ResolveAll(t, ds, subprojects), d, subprojects)
  {
    assert (ds + [d])[..|ds|] == ds;
  }

  /** A project the first loop creates gets an id the table had not handed out before. */
  lemma {:induction false} ResolveAllFreshIds(t: ProjectTable, ds: seq<Declaration>, subprojects: bool)
    ensures var r := ResolveAll(t, ds, subprojects);
      forall n :: n in r.table.rows && n !in t.rows ==> r.table.rows[n].id >= t.nextId
    decreases |ds|
  {
    if ds != [] {
      var init := ds[..|ds| - 1];
      ResolveAllFreshIds(t, init, subprojects);
      var prev := ResolveAll(t, init, subprojects);
      var r := ResolveAll(t, ds, subprojects);
      assert r == ResolveStep(prev, ds[|ds| - 1], subprojects);
      assert Extends(t, prev.table);
    }
  }

  lemma DeclaredNamesSnoc(ds: seq<Declaration>, d: Declaration)
    ensures DeclaredNames(ds + [d]) == DeclaredNames(ds) + DeclaredNames([d])
  {
    assert d in [d] && d in ds + [d];
    forall e | e in ds ensures e in ds + [d] {}
    forall e | e in ds + [d] ensures e in ds || e == d {}
  }

  /** `array_diff` / `array_intersect` on the declared and stored project ids. */
  datatype DiffSets = DiffSets(toInsert: set<int>, toDelete: set<int>, toUpdate: set<int>)

  /**
   * Lines 83-85. The declared ids split into those to insert and those to update,
   * the stored ids into those to update and those to delete.
   */
  function Diff(declared: set<int>, stored: set<int>): (d: DiffSets)
    ensures d.toInsert + d.toUpdate == declared && d.toInsert * d.toUpdate == {}
    ensures d.toUpdate + d.toDelete == stored && d.toUpdate * d.toDelete == {}
    ensures d.toInsert * stored == {} && d.toDelete * declared == {}
  {
    DiffSets(declared - stored, stored - declared, declared * stored)
  }

  /** One iteration of the second loop (lines 90-117), on a cleaned declaration. */
  function WriteStep(a: Assessments, c: Declaration, page: int, rev: int, ids: map<Bytes, int>, d: DiffSets): Assessments
  {
    if c.project == [] || c.project !in ids then a
    else
      var p := ids[c.project];
      if p == 0 || page == 0 then a
      else if p in d.toInsert then InsertIgnore(a, Key(page, p), Assessment(c.quality, c.importance, rev))
      else if p in d.toUpdate then UpdateIfChanged(a, Key(page, p), c.quality, c.importance, rev)
      else a
  }

  /** The second loop over a prefix of the cleaned declarations. */
  function WritePass(a: Assessments, cs: seq<Declaration>, page: int, rev: int, ids: map<Bytes, int>, d: DiffSets): Assessments
    decreases |cs|
  {
    if cs == [] then a
    else WriteStep(WritePass(a, cs[..|cs| - 1], page, rev, ids, d), cs[|cs| - 1], page, rev, ids, d)
  }

  /** The second loop over one more declaration is one more step. */
  lemma WritePassSnoc(a: Assessments, cs: seq<Declaration>, c: Declaration, page: int, rev: int,
                      ids: map<Bytes, int>, d: DiffSets)
    ensures WritePass(a, cs + [c], page, rev, ids, d) == WriteStep(WritePass(a, cs, page, rev, ids, d), c, page, rev, ids, d)
  {
    assert (cs + [c])[..|cs|] == cs;
  }

  /** The set of ids `$projects` maps to. */
  function IdsOf(ids: map<Bytes, int>): set<int>
  {
    set n | n in ids :: ids[n]
  }

  /** The three diff sets `doUpdates` computes for `page` after the first loop. */
  function PlanFor(a: Assessments, page: int, r: Resolution): DiffSets
  {
    Diff(IdsOf(r.ids), PageProjects(a, page))
  }

  /** The whole of `doUpdates`: the new project table and the new assessment table. */
  function ReconcileAll(t: ProjectTable, a: Assessments, page: int, rev: int, ds: seq<Declaration>, subprojects: bool): (ProjectTable, Assessments)
  {
    var r := ResolveAll(t, ds, subprojects);
    var d := PlanFor(a, page, r);
    (r.table, DeleteProjects(WritePass(a, CleanAll(ds), page, rev, r.ids, d), page, d.toDelete))
  }
}
