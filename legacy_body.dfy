/**
 * `PageAssessmentsBody`, the older data-access class. Its getProjectName,
 * getProjectId, updateRecord, getAllProjects, deleteRecord,
 * deleteRecordsForPage and cacheAssessment do what the PageAssessmentsDAO
 * methods of the same names do and are used from there; insertProject is
 * PageAssessmentsDAO.InsertProject without a parent. What is its own is
 * insertRecord without IGNORE and `doUpdates`, which is proved to leave the
 * tables as `LegacyReconcile.LegacyReconcileAll` describes.
 */
module PageAssessmentsBody {
  import opened Wrappers
  import opened Bytes
  import opened Storage
  import opened Reconcile
  import opened LegacyReconcile
  import opened PageAssessmentsDAO

  /**
   * `insertRecord` without IGNORE: writes the row when its key is absent; an
   * existing key is a database error (false) that writes nothing.
   */
  method InsertRecord(db: Database, values: Values) returns (ok: bool)
    modifies db
    ensures Run(ok, db.assessments) == InsertStrict(old(db.assessments), values.RowKey(), values.Row())
    ensures db.projects == old(db.projects)
  {
    if values.RowKey() in db.assessments {
      return false;
    }
    db.assessments := db.assessments[values.RowKey() := values.Row()];
    return true;
  }

  /** The first loop resolving the raw name of one more declaration. */
  lemma LegacyResolveLoop(t0: ProjectTable, ds: seq<Declaration>, k: int, before: Resolution, table: ProjectTable, id: int)
    requires 0 <= k < |ds| && before == LegacyResolveAll(t0, ds[..k])
    requires (table, id) == EnsureProject(before.table, ds[k].project, false)
    ensures LegacyResolveAll(t0, ds[..k + 1]) == Resolution(table, before.ids[ds[k].project := id])
  {
    TakeOneMore(ds, k);
    LegacyResolveAllSnoc(t0, ds[..k], ds[k]);
  }

  /**
   * The first loop of `doUpdates` (lines 48-55): every raw name, the empty
   * one included, gets its project id, found or newly inserted without a parent.
   */
  method ResolveProjects(db: Database, assessmentData: seq<Declaration>) returns (projects: map<Bytes, int>)
    modifies db
    ensures Resolution(db.projects, projects) == LegacyResolveAll(old(db.projects), assessmentData)
    ensures db.assessments == old(db.assessments)
    ensures old(db.Valid()) ==> db.Valid()
  {
    ghost var t0 := db.projects;
    projects := map[];
    var k := 0;
    while k < |assessmentData|
      invariant 0 <= k <= |assessmentData|
      invariant Resolution(db.projects, projects) == LegacyResolveAll(t0, assessmentData[..k])
      invariant db.assessments == old(db.assessments)
    {
      var name := assessmentData[k].project;
      ghost var before := Resolution(db.projects, projects);
      var projectId := GetOrInsertProject(db, name, false);
      LegacyResolveLoop(t0, assessmentData, k, before, db.projects, projectId);
      projects := projects[name := projectId];
      k := k + 1;
    }
    TakeAll(assessmentData);
  }

  /**
   * The second loop of `doUpdates` (lines 64-87): a declaration with a truthy
   * id is inserted when its id is in `toInsert`, passed to updateRecord when it
   * is in `toUpdate`; a failed insert ends the loop (false).
   */
  method WriteAssessments(db: Database, pageId: int, revisionId: int, data: seq<Declaration>,
                          projects: map<Bytes, int>, toInsert: set<int>, toUpdate: set<int>, ghost toDelete: set<int>)
    returns (ok: bool)
    modifies db
    requires forall j :: 0 <= j < |data| ==> data[j].project in projects
    ensures Run(ok, db.assessments) ==
      LegacyWritePass(old(db.assessments), data, pageId, revisionId, projects, DiffSets(toInsert, toDelete, toUpdate))
    ensures db.projects == old(db.projects)
  {
    ghost var plan := DiffSets(toInsert, toDelete, toUpdate);
    ghost var a0 := db.assessments;
    var k := 0;
    while k < |data|
      invariant 0 <= k <= |data|
      invariant db.projects == old(db.projects)
      invariant Run(true, db.assessments) == LegacyWritePass(a0, data[..k], pageId, revisionId, projects, plan)
    {
      var parserData := data[k];
      var projectId := projects[parserData.project];
      TakeOneMore(data, k);
      LegacyWritePassSnoc(a0, data[..k], parserData, pageId, revisionId, projects, plan);
      if projectId != 0 {
        var values := Values(pageId, projectId, parserData.quality, parserData.importance, revisionId);
        if projectId in toInsert {
          var inserted := InsertRecord(db, values);
          if !inserted {
            LegacyFailureSticks(a0, data, k + 1, pageId, revisionId, projects, plan);
            return false;
          }
        } else if projectId in toUpdate {
          var _ := UpdateRecord(db, values);
        }
      }
      k := k + 1;
    }
    TakeAll(data);
    return true;
  }

  /**
   * The legacy `doUpdates` for the page `pageId` at revision `revisionId`
   * leaves the two tables as `LegacyReconcileAll` describes. When the writes
   * get through, every stored project that is no longer declared gets exactly
   * one deleteRecord (`deleted`); a failed insert ends the run before any delete.
   */
  method DoUpdates(db: Database, pageId: int, revisionId: int, assessmentData: seq<Declaration>)
    returns (ok: bool, ghost deleted: seq<int>)
    modifies db
    ensures (db.projects, Run(ok, db.assessments)) ==
      LegacyReconcileAll(old(db.projects), old(db.assessments), pageId, revisionId, assessmentData)
    ensures old(db.Valid()) ==> db.Valid()
    ensures ok ==> EachOnce(deleted, PlanFor(old(db.assessments), pageId, LegacyResolveAll(old(db.projects), assessmentData)).toDelete)
    ensures !ok ==> deleted == []
  {
    var projects := ResolveProjects(db, assessmentData);
    ghost var r := Resolution(db.projects, projects);
    assert forall j :: 0 <= j < |assessmentData| ==> assessmentData[j] in assessmentData;

    var projectsInDb := GetAllProjects(db, pageId);
    var stored := set p | p in projectsInDb;
    StoredSet(projectsInDb, db.assessments, pageId);
    var declared := IdsOf(projects);
    var toInsert := declared - stored;
    var toDelete := stored - declared;
    var toUpdate := declared * stored;
    assert DiffSets(toInsert, toDelete, toUpdate) == PlanFor(old(db.assessments), pageId, r);

    deleted := [];
    ok := WriteAssessments(db, pageId, revisionId, assessmentData, projects, toInsert, toUpdate, toDelete);
    if !ok {
      return;
    }
    deleted := DeleteStale(db, pageId, toDelete);
  }
}
