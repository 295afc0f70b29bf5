/**
 * `PageAssessmentsDAO`: the data-access methods over the two tables held by a
 * `Database`, the parser-output list `cacheAssessment` appends to, the instance
 * cache `getProjectName` keeps, and `doUpdates`, which is proved to leave the
 * tables exactly as `Reconcile.ReconcileAll` describes.
 */
module PageAssessmentsDAO {
  import opened Wrappers
  import opened Bytes
  import opened Storage
  import opened ProjectTitle
  import opened Reconcile

  /** The `$values` array of an assessment write. */
  datatype Values = Values(pageId: int, projectId: int, quality: Bytes, importance: Bytes, revision: int)
  {
    /** The `$conds` the write is keyed on. */
    function RowKey(): Key
    {
      Key(pageId, projectId)
    }

    function Row(): Assessment
    {
      Assessment(quality, importance, revision)
    }
  }

  /** `getProjectId`: the id of the project with this title, None (`false`) when there is none. */
  method GetProjectId(db: Database, project: Bytes) returns (r: Option<int>)
    ensures r.Some? <==> project in db.projects.rows
    ensures r.Some? ==> r.value == db.projects.rows[project].id
  {
    r := LookupId(db.projects, project);
  }

  /**
   * `insertProject`: a new row with the next sequence value as id, returned as
   * `insertId`, and the parent recorded only when it is truthy. Titles are
   * unique, so inserting a title that exists is a database error (None) that
   * changes nothing.
   */
  method InsertProject(db: Database, project: Bytes, parentId: Option<int>) returns (r: Option<int>)
    modifies db
    ensures project in old(db.projects.rows) ==> r.None? && db.projects == old(db.projects)
    ensures project !in old(db.projects.rows) ==>
      r == Some(old(db.projects.nextId)) && db.projects == AddProject(old(db.projects), project, parentId)
    ensures db.assessments == old(db.assessments)
    ensures old(db.Valid()) && (parentId.Some? && parentId.value != 0 ==> 1 <= parentId.value < old(db.projects.nextId)) ==>
      db.Valid()
  {
    if project in db.projects.rows {
      return None;
    }
    r := Some(db.projects.nextId);
    db.projects := AddProject(db.projects, project, parentId);
  }

  /**
   * `updateRecord`: an unchanged class and importance means no write; otherwise
   * the row under the key is overwritten. The method answers true on both paths.
   */
  method UpdateRecord(db: Database, values: Values) returns (ok: bool)
    modifies db
    ensures ok
    ensures db.assessments ==
      UpdateIfChanged(old(db.assessments), values.RowKey(), values.quality, values.importance, values.revision)
    ensures db.projects == old(db.projects)
  {
    var conds := values.RowKey();
    if conds in db.assessments && SameGrade(db.assessments[conds], values.quality, values.importance) {
      return true;
    }
    if conds in db.assessments {
      db.assessments := db.assessments[conds := values.Row()];
    }
    return true;
  }

  /** `insertRecord` with IGNORE: an existing row under the key is kept. */
  method InsertRecord(db: Database, values: Values) returns (ok: bool)
    modifies db
    ensures ok
    ensures db.assessments == InsertIgnore(old(db.assessments), values.RowKey(), values.Row())
    ensures db.projects == old(db.projects)
  {
    if values.RowKey() !in db.assessments {
      db.assessments := db.assessments[values.RowKey() := values.Row()];
    }
    return true;
  }

  /** `getAllProjects`: each project id stored for the page, once, in the order the rows come back. */
  method GetAllProjects(db: Database, pageId: int) returns (results: seq<int>)
    ensures forall p :: p in results <==> Key(pageId, p) in db.assessments
    ensures forall i, j :: 0 <= i < j < |results| ==> results[i] != results[j]
  {
    var res := PageProjects(db.assessments, pageId);
    results := [];
    while res != {}
      invariant forall p :: p in results || p in res <==> Key(pageId, p) in db.assessments
      invariant forall p :: p in results ==> p !in res
      invariant forall i, j :: 0 <= i < j < |results| ==> results[i] != results[j]
      decreases |res|
    {
      var row := PickOne(res);
      results := results + [row];
      res := res - {row};
    }
  }

  /** `deleteRecord`: removes the row under the key, if there is one, and nothing else. */
  method DeleteRecord(db: Database, conds: Key) returns (ok: bool)
    modifies db
    ensures ok
    ensures db.assessments == DeleteKey(old(db.assessments), conds)
    ensures db.projects == old(db.projects)
  {
    db.assessments := db.assessments - {conds};
    return true;
  }

  /** `deleteRecordsForPage`: removes every row of the page and no other. */
  method DeleteRecordsForPage(db: Database, id: int) returns (ok: bool)
    modifies db
    ensures ok
    ensures db.assessments == DeletePage(old(db.assessments), id)
    ensures db.projects == old(db.projects)
  {
    db.assessments := map k | k in db.assessments && k.page != id :: db.assessments[k];
    return true;
  }

  /** The parser output's `ext-pageassessment-assessmentdata` slot; None until something is stored. */
  class ParserOutput {
    var assessmentData: Option<seq<Declaration>>

    constructor ()
      ensures assessmentData == None
    {
      assessmentData := None;
    }
  }

  /** The list held by the slot, an empty one when nothing is held. */
  function Collected(data: Option<seq<Declaration>>): seq<Declaration>
  {
    if data.Some? then data.value else []
  }

  /** `cacheAssessment`: appends `[project, class, importance]` to the list, starting one if needed. */
  method CacheAssessment(output: ParserOutput, project: Bytes, quality: Bytes, importance: Bytes)
    modifies output
    ensures output.assessmentData == Some(Collected(old(output.assessmentData)) + [Declaration(project, quality, importance)])
  {
    var parserData := output.assessmentData;
    if parserData.None? {
      parserData := Some([]);
    }
    output.assessmentData := Some(parserData.value + [Declaration(project, quality, importance)]);
  }

  /** `r` is what `SELECT pap_project_title WHERE pap_project_id = id` gives on `t`. */
  predicate TitleFor(t: ProjectTable, id: int, r: Option<Bytes>)
  {
    && (r.Some? ==> r.value in t.rows && t.rows[r.value].id == id)
    && (r.None? ==> forall n :: n in t.rows ==> t.rows[n].id != id)
  }

  /** The title lookup by id. */
  method SelectTitle(db: Database, id: int) returns (r: Option<Bytes>)
    ensures TitleFor(db.projects, id, r)
  {
    if exists n :: n in db.projects.rows && db.projects.rows[n].id == id {
      var n :| n in db.projects.rows && db.projects.rows[n].id == id;
      r := Some(n);
    } else {
      r := None;
    }
  }

  /**
   * The instance cache `self::$projectNames` of `getProjectName`. An entry,
   * a miss (`false`) included, is kept for the rest of the process.
   */
  class ProjectNameCache {
    var names: map<int, Option<Bytes>>

    /** Every cached entry is what a lookup on `t` would give. */
    predicate AgreesWith(t: ProjectTable)
      reads this
    {
      forall id :: id in names ==> TitleFor(t, id, names[id])
    }

    constructor ()
      ensures names == map[]
    {
      names := map[];
    }

    /**
     * `getProjectName`: None for an id that is not positive; the cached entry
     * when there is one, without a read; otherwise the looked-up title, which
     * is then cached.
     */
    method GetProjectName(db: Database, projectId: int) returns (r: Option<Bytes>)
      modifies this
      ensures projectId <= 0 ==> r.None? && names == old(names)
      ensures projectId > 0 && projectId in old(names) ==> r == old(names)[projectId] && names == old(names)
      ensures projectId > 0 && projectId !in old(names) ==>
        TitleFor(db.projects, projectId, r) && names == old(names)[projectId := r]
      ensures old(AgreesWith(db.projects)) ==> AgreesWith(db.projects)
    {
      if projectId > 0 {
        if projectId in names {
          return names[projectId];
        } else {
          var projectName := SelectTitle(db, projectId);
          names := names[projectId := projectName];
          return projectName;
        }
      }
      return None;
    }
  }

  /** Every cleaned declaration with a name finds its id in `$projects`. */
  lemma CleanedNamesDeclared(ds: seq<Declaration>, projects: map<Bytes, int>)
    requires projects.Keys == DeclaredNames(ds)
    ensures forall j :: 0 <= j < |ds| && CleanAll(ds)[j].project != [] ==> CleanAll(ds)[j].project in projects
  {
    forall j | 0 <= j < |ds| && CleanAll(ds)[j].project != [] ensures CleanAll(ds)[j].project in projects {
      assert ds[j] in ds;
    }
  }

  /** The id list `getAllProjects` returns, as a set, is the page's project set. */
  lemma StoredSet(results: seq<int>, a: Assessments, page: int)
    requires forall p :: p in results <==> Key(page, p) in a
    ensures (set p | p in results) == PageProjects(a, page)
  {
    var stored := set p | p in results;
    forall p ensures p in stored <==> p in PageProjects(a, page) {
      assert p in stored <==> p in results;
    }
  }

  /**
   * Lines 64-75 of `doUpdates`: the id of the project with this (cleaned) name,
   * inserting the project first when there is none.
   */
  method GetOrInsertProject(db: Database, projectName: Bytes, subprojects: bool) returns (projectId: int)
    modifies db
    ensures (db.projects, projectId) == EnsureProject(old(db.projects), projectName, subprojects)
    ensures db.assessments == old(db.assessments)
    ensures old(db.Valid()) ==> db.Valid()
  {
    var found := GetProjectId(db, projectName);
    if found.Some? {
      return found.value;
    }
    var inserted;
    if subprojects {
      var parentId := ExtractParentProjectId(db.projects, projectName);
      inserted := InsertProject(db, projectName, parentId);
    } else {
      inserted := InsertProject(db, projectName, None);
    }
    projectId := inserted.value;
  }

  /** One iteration of the first loop, in terms of EnsureProject. */
  lemma ResolveStepUnfold(r: Resolution, d: Declaration, subprojects: bool)
    ensures d.project == [] ==> ResolveStep(r, d, subprojects) == r
    ensures d.project != [] ==>
      var name := CleanProjectTitle(d.project);
      var e := EnsureProject(r.table, name, subprojects);
      ResolveStep(r, d, subprojects) == Resolution(e.0, r.ids[name := e.1])
  {
  }

  /** The first loop passing over a declaration without a name. */
  lemma ResolveLoopSkip(t0: ProjectTable, ds: seq<Declaration>, k: int, subprojects: bool)
    requires 0 <= k < |ds| && ds[k].project == []
    ensures ResolveAll(t0, ds[..k + 1], subprojects) == ResolveAll(t0, ds[..k], subprojects)
  {
    TakeOneMore(ds, k);
    ResolveAllSnoc(t0, ds[..k], ds[k], subprojects);
  }

  /** The first loop resolving the cleaned name of a declaration. */
  lemma ResolveLoopName(t0: ProjectTable, ds: seq<Declaration>, k: int, subprojects: bool,
                        before: Resolution, name: Bytes, table: ProjectTable, id: int)
    requires 0 <= k < |ds| && ds[k].project != [] && name == CleanProjectTitle(ds[k].project)
    requires before == ResolveAll(t0, ds[..k], subprojects)
    requires (table, id) == EnsureProject(before.table, name, subprojects)
    ensures ResolveAll(t0, ds[..k + 1], subprojects) == Resolution(table, before.ids[name := id])
  {
    ResolveStepUnfold(before, ds[k], subprojects);
    TakeOneMore(ds, k);
    ResolveAllSnoc(t0, ds[..k], ds[k], subprojects);
  }

  lemma CleanAllPointwise(ds: seq<Declaration>, data: seq<Declaration>)
    requires |data| == |ds| && forall j :: 0 <= j < |ds| ==> data[j] == CleanDeclaration(ds[j])
    ensures data == CleanAll(ds)
  {
  }

  /**
   * The first loop of `doUpdates` (lines 54-79): each declaration with a name
   * gets its cleaned name in place, and the cleaned name its project id, found
   * or newly inserted (with the inferred parent when subprojects are enabled).
   */
  method ResolveProjects(db: Database, assessmentData: seq<Declaration>, subprojects: bool)
    returns (data: seq<Declaration>, projects: map<Bytes, int>)
    modifies db
    ensures data == CleanAll(assessmentData)
    ensures Resolution(db.projects, projects) == ResolveAll(old(db.projects), assessmentData, subprojects)
    ensures db.assessments == old(db.assessments)
    ensures old(db.Valid()) ==> db.Valid()
  {
    ghost var t0 := db.projects;
    data := assessmentData;
    projects := map[];
    var k := 0;
    while k < |data|
      invariant 0 <= k <= |data| == |assessmentData|
      invariant forall j :: 0 <= j < k ==> data[j] == CleanDeclaration(assessmentData[j])
      invariant forall j :: k <= j < |data| ==> data[j] == assessmentData[j]
      invariant Resolution(db.projects, projects) == ResolveAll(t0, assessmentData[..k], subprojects)
      invariant db.assessments == old(db.assessments)
    {
      var parserData := data[k];
      if parserData.project != [] {
        var projectName := CleanProjectTitle(parserData.project);
        data := data[k := parserData.(project := projectName)];
        ghost var before := Resolution(db.projects, projects);
        var projectId := GetOrInsertProject(db, projectName, subprojects);
        ResolveLoopName(t0, assessmentData, k, subprojects, before, projectName, db.projects, projectId);
        projects := projects[projectName := projectId];
      } else {
        ResolveLoopSkip(t0, assessmentData, k, subprojects);
      }
      k := k + 1;
    }
    TakeAll(assessmentData);
    CleanAllPointwise(assessmentData, data);
  }

  /**
   * The second loop of `doUpdates` (lines 89-117) over the cleaned declarations:
   * a named declaration whose id and page are non-zero is inserted when its id
   * is in `toInsert`, passed to updateRecord when it is in `toUpdate`.
   */
  method WriteAssessments(db: Database, pageId: int, revisionId: int, data: seq<Declaration>,
                          projects: map<Bytes, int>, toInsert: set<int>, toUpdate: set<int>, ghost toDelete: set<int>)
    modifies db
    requires forall j :: 0 <= j < |data| && data[j].project != [] ==> data[j].project in projects
    ensures db.assessments ==
      WritePass(old(db.assessments), data, pageId, revisionId, projects, DiffSets(toInsert, toDelete, toUpdate))
    ensures db.projects == old(db.projects)
  {
    ghost var plan := DiffSets(toInsert, toDelete, toUpdate);
    var k := 0;
    while k < |data|
      invariant 0 <= k <= |data|
      invariant db.projects == old(db.projects)
      invariant db.assessments == WritePass(old(db.assessments), data[..k], pageId, revisionId, projects, plan)
    {
      var parserData := data[k];
      if parserData.project != [] {
        var projectId := projects[parserData.project];
        if projectId != 0 && pageId != 0 {
          var values := Values(pageId, projectId, parserData.quality, parserData.importance, revisionId);
          if projectId in toInsert {
            var _ := InsertRecord(db, values);
          } else if projectId in toUpdate {
            var _ := UpdateRecord(db, values);
          }
        }
      }
      TakeOneMore(data, k);
      WritePassSnoc(old(db.assessments), data[..k], parserData, pageId, revisionId, projects, plan);
      k := k + 1;
    }
    TakeAll(data);
  }

  /** Each element of `s` appears in `xs` exactly once, and nothing else does. */
  ghost predicate EachOnce(xs: seq<int>, s: set<int>)
  {
    && (forall p :: p in xs <==> p in s)
    && (forall i, j :: 0 <= i < j < |xs| ==> xs[i] != xs[j])
  }

  /**
   * The third loop of `doUpdates` (lines 119-131): one deleteRecord per id of
   * `toDelete`; `deleted` lists the ids in the order they were deleted.
   */
  method DeleteStale(db: Database, pageId: int, toDelete: set<int>) returns (ghost deleted: seq<int>)
    modifies db
    ensures db.assessments == DeleteProjects(old(db.assessments), pageId, toDelete)
    ensures EachOnce(deleted, toDelete)
    ensures db.projects == old(db.projects)
  {
    ghost var written := db.assessments;
    var rest := toDelete;
    ghost var done: set<int> := {};
    deleted := [];
    while rest != {}
      invariant rest + done == toDelete && rest * done == {}
      invariant EachOnce(deleted, done)
      invariant db.assessments == DeleteProjects(written, pageId, done)
      invariant db.projects == old(db.projects)
      decreases |rest|
    {
      var project := PickOne(rest);
      var _ := DeleteRecord(db, Key(pageId, project));
      DeleteProjectsStep(written, pageId, done, project);
      deleted := deleted + [project];
      done := done + {project};
      rest := rest - {project};
    }
    assert done == toDelete;
  }

  /** Some element of a non-empty set (the iteration order of a PHP array is not modelled). */
  method PickOne(s: set<int>) returns (x: int)
    requires s != {}
    ensures x in s
  {
    assert (forall y :: y !in s) ==> s == {};
    x :| x in s;
  }

  /**
   * `doUpdates` for the page `pageId` at revision `revisionId` leaves the two
   * tables as `ReconcileAll` describes; every stored project that is no longer
   * declared gets exactly one deleteRecord (`deleted`).
   */
  method DoUpdates(db: Database, pageId: int, revisionId: int, assessmentData: seq<Declaration>, subprojects: bool)
    returns (ghost deleted: seq<int>)
    modifies db
    ensures (db.projects, db.assessments) ==
      ReconcileAll(old(db.projects), old(db.assessments), pageId, revisionId, assessmentData, subprojects)
    ensures old(db.Valid()) ==> db.Valid()
    ensures EachOnce(deleted, PlanFor(old(db.assessments), pageId, ResolveAll(old(db.projects), assessmentData, subprojects)).toDelete)
  {
    var data, projects := ResolveProjects(db, assessmentData, subprojects);
    ghost var r := Resolution(db.projects, projects);
    CleanedNamesDeclared(assessmentData, projects);

    var projectsInDb := GetAllProjects(db, pageId);
    var stored := set p | p in projectsInDb;
    StoredSet(projectsInDb, db.assessments, pageId);
    var declared := IdsOf(projects);
    var toInsert := declared - stored;
    var toDelete := stored - declared;
    var toUpdate := declared * stored;
    assert DiffSets(toInsert, toDelete, toUpdate) == PlanFor(old(db.assessments), pageId, r);

    WriteAssessments(db, pageId, revisionId, data, projects, toInsert, toUpdate, toDelete);
    deleted := DeleteStale(db, pageId, toDelete);
  }
}
