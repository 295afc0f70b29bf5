/**
 * The two tables the extension keeps, as in-memory state:
 *   page_assessments_projects: project title -> (pap_project_id, pap_parent_id)
 *   page_assessments:          (pa_page_id, pa_project_id) -> (pa_class, pa_importance, pa_page_revision)
 * plus the pure effect of each row-level statement the data-access code issues.
 */
module Storage {
  import opened Wrappers
  import opened Bytes
  import opened PhpInt

  /** One row of page_assessments_projects, keyed by its title. */
  datatype ProjectRow = ProjectRow(id: int, parentId: Option<int>)

  /**
   * The project table. `nextId` stands for the auto-increment sequence behind
   * `nextSequenceValue`/`insertId`: the id the next inserted project receives.
   */
  datatype ProjectTable = ProjectTable(rows: map<Bytes, ProjectRow>, nextId: int)

  /** The primary key of an assessment row. */
  datatype Key = Key(page: int, project: int)

  /** The non-key columns of an assessment row; `quality` is the pa_class column. */
  datatype Assessment = Assessment(quality: Bytes, importance: Bytes, revision: int)

  type Assessments = map<Key, Assessment>

  /**
   * Row invariants of the project table: ids are positive, below the next
   * sequence value and distinct; a parent was created before its child.
   */
  predicate ProjectsValid(t: ProjectTable)
  {
    && t.nextId >= 1
    && (forall n :: n in t.rows ==> 1 <= t.rows[n].id < t.nextId)
    && (forall n, m :: n in t.rows && m in t.rows && n != m ==> t.rows[n].id != t.rows[m].id)
    && (forall n :: n in t.rows && t.rows[n].parentId.Some? ==>
          1 <= t.rows[n].parentId.value < t.rows[n].id)
  }

  /** `SELECT pap_project_id ... WHERE pap_project_title = title` (`false` is None). */
  function LookupId(t: ProjectTable, title: Bytes): (r: Option<int>)
    ensures r.Some? <==> title in t.rows
    ensures r.Some? ==> r.value == t.rows[title].id
  {
    if title in t.rows then Some(t.rows[title].id) else None
  }

  /** Under the row invariants a found id is positive, hence truthy. */
  lemma LookupIdPositive(t: ProjectTable, title: Bytes)
    requires ProjectsValid(t)
    ensures LookupId(t, title).Some? ==> LookupId(t, title).value >= 1
  {
  }

  /**
   * The row `insertProject` writes for a title that is not yet present: the next
   * sequence value as id, and the parent only when it is truthy.
   */
  function AddProject(t: ProjectTable, title: Bytes, parent: Option<int>): (r: ProjectTable)
    requires title !in t.rows
    ensures r.nextId == t.nextId + 1
    ensures title in r.rows && r.rows[title].id == t.nextId
    ensures r.rows[title].parentId == if parent.Some? && parent.value != 0 then parent else None
    ensures forall n :: n in r.rows <==> n in t.rows || n == title
    ensures forall n :: n in t.rows ==> r.rows[n] == t.rows[n]
  {
    var p := if parent.Some? && parent.value != 0 then parent else None;
    ProjectTable(t.rows[title := ProjectRow(t.nextId, p)], t.nextId + 1)
  }

  /** Adding a project keeps the row invariants when the parent is an earlier id. */
  lemma AddProjectValid(t: ProjectTable, title: Bytes, parent: Option<int>)
    requires ProjectsValid(t) && title !in t.rows
    requires parent.Some? && parent.value != 0 ==> 1 <= parent.value < t.nextId
    ensures ProjectsValid(AddProject(t, title, parent))
  {
  }

  /** `t2` holds every row of `t1` unchanged, and the sequence never goes back. */
  predicate Extends(t1: ProjectTable, t2: ProjectTable)
  {
    && t1.nextId <= t2.nextId
    && forall n :: n in t1.rows ==> n in t2.rows && t2.rows[n] == t1.rows[n]
  }

  lemma ExtendsTransitive(t1: ProjectTable, t2: ProjectTable, t3: ProjectTable)
    requires Extends(t1, t2) && Extends(t2, t3)
    ensures Extends(t1, t3)
  {
  }

  /** The value stored under `k`, or None when there is no such row. */
  function Get(a: Assessments, k: Key): Option<Assessment>
  {
    if k in a then Some(a[k]) else None
  }

  /** `SELECT pa_project_id ... WHERE pa_page_id = page`, as a set. */
  function PageProjects(a: Assessments, page: int): (r: set<int>)
    ensures forall p :: p in r <==> Key(page, p) in a
  {
    set k | k in a && k.page == page :: k.project
  }

  /** `INSERT IGNORE`: writes the row only when its key is absent. */
  function InsertIgnore(a: Assessments, k: Key, v: Assessment): (r: Assessments)
    ensures Get(r, k) == if k in a then Get(a, k) else Some(v)
    ensures forall j :: j != k ==> Get(r, j) == Get(a, j)
  {
    if k in a then a else a[k := v]
  }

  /**
   * True when a row with these values needs no write: importance and quality class
   * both equal under PHP's loose `==`.
   */
  predicate SameGrade(v: Assessment, quality: Bytes, importance: Bytes)
  {
    LooseEq(v.importance, importance) && LooseEq(v.quality, quality)
  }

  /**
   * `updateRecord`: no write when the stored row already has this class and
   * importance up to loose `==` (its revision is then kept); otherwise quality class,
   * importance and revision of that one row are overwritten. An absent key updates nothing.
   */
  function UpdateIfChanged(a: Assessments, k: Key, quality: Bytes, importance: Bytes, rev: int): (r: Assessments)
    ensures k in a && !SameGrade(a[k], quality, importance) ==> Get(r, k) == Some(Assessment(quality, importance, rev))
    ensures !(k in a && !SameGrade(a[k], quality, importance)) ==> r == a
    ensures forall j :: j != k ==> Get(r, j) == Get(a, j)
  {
    if k in a && !SameGrade(a[k], quality, importance) then a[k := Assessment(quality, importance, rev)] else a
  }

  /**
   * A stored importance "0n" against a declared "n" (same class): loose `==` finds them
   * equal, so nothing is written and the stored spelling and revision stay.
   */
  lemma UpdateKeepsZeroPaddedImportance(a: Assessments, k: Key, n: nat, quality: Bytes, rev: int)
    requires n <= INT_MAX
    requires k in a && a[k].importance == [ZERO] + IntToString(n) && a[k].quality == quality
    ensures UpdateIfChanged(a, k, quality, IntToString(n), rev) == a
    ensures a[k].importance != IntToString(n)
  {
    LooseEqZeroPadded(n);
  }

  /** `DELETE ... WHERE pa_page_id = page AND pa_project_id = project`. */
  function DeleteKey(a: Assessments, k: Key): (r: Assessments)
    ensures k !in r
    ensures forall j :: j != k ==> Get(r, j) == Get(a, j)
  {
    a - {k}
  }

  /** `DELETE ... WHERE pa_page_id = page`. */
  function DeletePage(a: Assessments, page: int): (r: Assessments)
    ensures forall k: Key :: k.page == page ==> k !in r
    ensures forall k: Key :: k.page != page ==> Get(r, k) == Get(a, k)
  {
    map k | k in a && k.page != page :: a[k]
  }

  /** The rows of `page` whose project is in `projects` removed, every other row kept. */
  function DeleteProjects(a: Assessments, page: int, projects: set<int>): (r: Assessments)
    ensures forall k :: Get(r, k) == if k.page == page && k.project in projects then None else Get(a, k)
  {
    map k | k in a && !(k.page == page && k.project in projects) :: a[k]
  }

  /** Deleting one more project of the page is one more DeleteKey. */
  lemma DeleteProjectsStep(a: Assessments, page: int, done: set<int>, p: int)
    ensures DeleteKey(DeleteProjects(a, page, done), Key(page, p)) == DeleteProjects(a, page, done + {p})
  {
    var l, r := DeleteKey(DeleteProjects(a, page, done), Key(page, p)), DeleteProjects(a, page, done + {p});
    forall k ensures Get(l, k) == Get(r, k) {
    }
    GetExtensional(l, r);
  }

  /** Two tables that agree on every key are equal. */
  lemma GetExtensional(a: Assessments, b: Assessments)
    requires forall k :: Get(a, k) == Get(b, k)
    ensures a == b
  {
    forall k | k in a ensures k in b && a[k] == b[k] {
      assert Get(a, k) == Get(b, k);
    }
    forall k | k in b ensures k in a {
      assert Get(a, k) == Get(b, k);
    }
  }

  /**
   * The database: both tables. Every data-access method of the extension reads
   * or writes these two fields.
   */
  class Database {
    var projects: ProjectTable
    var assessments: Assessments

    predicate Valid()
      reads this
    {
      ProjectsValid(projects)
    }

    /** Empty tables; the project sequence starts at 1. */
    constructor ()
      ensures Valid() && projects.rows == map[] && assessments == map[]
    {
      projects := ProjectTable(map[], 1);
      assessments := map[];
    }
  }
}
