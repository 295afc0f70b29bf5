/**
 * What the older `PageAssessmentsBody::doUpdates` computes, as functions of the
 * old tables. It differs from Reconcile in four places: names are used raw (no
 * cleaning), an empty name is a project like any other, there is no page-id
 * guard, and `insertRecord` has no IGNORE, so inserting a row whose key exists
 * is a database error that ends the run.
 */
module LegacyReconcile {
  import opened Wrappers
  import opened Bytes
  import opened Storage
  import opened Reconcile
  import opened ReconcileProps

  /** The raw names of all declarations, the empty one included. */
  function RawNames(ds: seq<Declaration>): set<Bytes>
  {
    set c | c in ds :: c.project
  }

  lemma RawNamesSnoc(ds: seq<Declaration>, c: Declaration)
    ensures RawNames(ds + [c]) == RawNames(ds) + {c.project}
  {
    assert c in ds + [c];
    forall e | e in ds ensures e in ds + [c] {}
    forall e | e in ds + [c] ensures e in ds || e == c {}
  }

  /** One iteration of the first loop (lines 48-55): get the id of the raw name, inserting the project if needed. */
  function LegacyResolveStep(r: Resolution, c: Declaration): (r2: Resolution)
    ensures Extends(r.table, r2.table)
    ensures ProjectsValid(r.table) ==> ProjectsValid(r2.table)
    ensures r2.ids.Keys == r.ids.Keys + {c.project}
    ensures IdsAgree(r) ==> IdsAgree(r2)
    ensures forall n :: n in r2.table.rows ==> n in r.table.rows || n == c.project
    ensures forall n :: n in r2.table.rows && n !in r.table.rows ==> r2.table.rows[n].id >= r.table.nextId
  {
    var (t, id) := EnsureProject(r.table, c.project, false);
    Resolution(t, r.ids[c.project := id])
  }

  /**
   * The first loop over all declarations. `$projects` holds exactly the raw
   * names, each with the id its row has in the final table: an existing project
   * keeps its id, every other name gets a new row with a fresh id and no parent.
   */
  function LegacyResolveAll(t: ProjectTable, ds: seq<Declaration>): (r: Resolution)
    ensures Extends(t, r.table)
    ensures ProjectsValid(t) ==> ProjectsValid(r.table)
    ensures r.ids.Keys == RawNames(ds)
    ensures IdsAgree(r)
    ensures forall n :: n in r.ids && n in t.rows ==> r.ids[n] == t.rows[n].id
    ensures forall n :: n in r.table.rows ==> n in t.rows || n in r.ids
    ensures forall n :: n in r.table.rows && n !in t.rows ==> r.table.rows[n].id >= t.nextId && r.table.rows[n].parentId == None
    decreases |ds|
  {
    if ds == [] then Resolution(t, map[])
    else
      var init, c := ds[..|ds| - 1], ds[|ds| - 1];
      var prev := LegacyResolveAll(t, init);
      RawNamesSnoc(init, c);
      SplitLast(ds);
      LegacyResolveStepKeeps(t, prev, c);
      LegacyResolveStep(prev, c)
  }

  /** One more step keeps what LegacyResolveAll promises about the names resolved so far. */
  lemma LegacyResolveStepKeeps(t: ProjectTable, prev: Resolution, c: Declaration)
    requires Extends(t, prev.table)
    requires IdsAgree(prev)
    requires forall n :: n in prev.ids && n in t.rows ==> prev.ids[n] == t.rows[n].id
    requires forall n :: n in prev.table.rows ==> n in t.rows || n in prev.ids
    requires forall n :: n in prev.table.rows && n !in t.rows ==>
      prev.table.rows[n].id >= t.nextId && prev.table.rows[n].parentId == None
    ensures var r := LegacyResolveStep(prev, c);
      && (forall n :: n in r.ids && n in t.rows ==> r.ids[n] == t.rows[n].id)
      && (forall n :: n in r.table.rows ==> n in t.rows || n in r.ids)
      && (forall n :: n in r.table.rows && n !in t.rows ==> r.table.rows[n].id >= t.nextId && r.table.rows[n].parentId == None)
  {
    var r := LegacyResolveStep(prev, c);
    if c.project !in prev.table.rows {
      assert r.table.rows == prev.table.rows[c.project := ProjectRow(prev.table.nextId, None)];
    }
  }

  lemma LegacyResolveAllSnoc(t: ProjectTable, ds: seq<Declaration>, c: Declaration)
    ensures LegacyResolveAll(t, ds + [c]) == LegacyResolveStep(LegacyResolveAll(t, ds), c)
  {
    assert (ds + [c])[..|ds|] == ds;
  }

  /** The assessment table as far as a run got, and whether it got through. */
  datatype Run = Run(ok: bool, table: Assessments)

  /** `insertRecord` without IGNORE: an existing key is a database error and nothing is written. */
  function InsertStrict(a: Assessments, k: Key, v: Assessment): (r: Run)
    ensures r.ok <==> k !in a
    ensures r.ok ==> Get(r.table, k) == Some(v)
    ensures !r.ok ==> r.table == a
    ensures forall j :: j != k ==> Get(r.table, j) == Get(a, j)
  {
    if k in a then Run(false, a) else Run(true, a[k := v])
  }

  /** One iteration of the second loop (lines 64-87); a failed run stays as it is. */
  function LegacyWriteStep(r: Run, c: Declaration, page: int, rev: int, ids: map<Bytes, int>, d: DiffSets): Run
  {
    if !r.ok || c.project !in ids then r
    else
      var p := ids[c.project];
      if p == 0 then r
      else if p in d.toInsert then InsertStrict(r.table, Key(page, p), Assessment(c.quality, c.importance, rev))
      else if p in d.toUpdate then Run(true, UpdateIfChanged(r.table, Key(page, p), c.quality, c.importance, rev))
      else r
  }

  /** The second loop over a prefix of the declarations. */
  function LegacyWritePass(a: Assessments, cs: seq<Declaration>, page: int, rev: int, ids: map<Bytes, int>, d: DiffSets): Run
    decreases |cs|
  {
    if cs == [] then Run(true, a)
    else LegacyWriteStep(LegacyWritePass(a, cs[..|cs| - 1], page, rev, ids, d), cs[|cs| - 1], page, rev, ids, d)
  }

  lemma LegacyWritePassSnoc(a: Assessments, cs: seq<Declaration>, c: Declaration, page: int, rev: int,
                            ids: map<Bytes, int>, d: DiffSets)
    ensures LegacyWritePass(a, cs + [c], page, rev, ids, d) ==
      LegacyWriteStep(LegacyWritePass(a, cs, page, rev, ids, d), c, page, rev, ids, d)
  {
    assert (cs + [c])[..|cs|] == cs;
  }

  /**
   * The whole of the legacy `doUpdates`: the new project table and the run of
   * the write pass, followed by the deletes when it got through.
   */
  function LegacyReconcileAll(t: ProjectTable, a: Assessments, page: int, rev: int, ds: seq<Declaration>): (ProjectTable, Run)
  {
    var r := LegacyResolveAll(t, ds);
    var d := PlanFor(a, page, r);
    var w := LegacyWritePass(a, ds, page, rev, r.ids, d);
    (r.table, if w.ok then Run(true, DeleteProjects(w.table, page, d.toDelete)) else w)
  }

  /** The declaration `c` is routed to project `p` by `$projects`. */
  predicate RoutesTo(c: Declaration, ids: map<Bytes, int>, p: int)
  {
    c.project in ids && ids[c.project] == p
  }

  /** The declarations routed to project `p`, in declaration order. */
  function LegacyHits(cs: seq<Declaration>, ids: map<Bytes, int>, p: int): (hs: seq<Declaration>)
    ensures forall h :: h in hs ==> h in cs && RoutesTo(h, ids, p)
    ensures forall c :: c in cs && RoutesTo(c, ids, p) ==> c in hs
    decreases |cs|
  {
    if cs == [] then []
    else
      var init, c := cs[..|cs| - 1], cs[|cs| - 1];
      SplitLast(cs);
      LegacyHits(init, ids, p) + (if RoutesTo(c, ids, p) then [c] else [])
  }

  lemma LegacyHitsSnoc(cs: seq<Declaration>, c: Declaration, ids: map<Bytes, int>, p: int)
    ensures LegacyHits(cs + [c], ids, p) == LegacyHits(cs, ids, p) + (if RoutesTo(c, ids, p) then [c] else [])
  {
    assert (cs + [c])[..|cs|] == cs;
  }

  /** No project to be inserted has two declarations. */
  predicate NoRepeatedInsert(cs: seq<Declaration>, ids: map<Bytes, int>, toInsert: set<int>)
  {
    forall p :: p in toInsert && p != 0 ==> |LegacyHits(cs, ids, p)| <= 1
  }

  /** The row of project `p` on the page after a write pass that got through. */
  function PassRow(a: Assessments, page: int, rev: int, hs: seq<Declaration>, d: DiffSets, p: int): Option<Assessment>
  {
    if p == 0 then Get(a, Key(page, p))
    else if p in d.toInsert then (if |hs| > 0 then Some(Assessment(hs[0].quality, hs[0].importance, rev)) else Get(a, Key(page, p)))
    else if p in d.toUpdate then UpdateFold(Get(a, Key(page, p)), hs, rev)
    else Get(a, Key(page, p))
  }

  /**
   * A write pass that got through: a project to insert holds its declaration's
   * values (it has at most one), a project to update has had updateRecord run
   * for each of its declarations in turn, and every other row is as it was.
   */
  lemma {:induction false} LegacyPassRow(a: Assessments, cs: seq<Declaration>, page: int, rev: int,
                                         ids: map<Bytes, int>, d: DiffSets, p: int)
    requires forall q :: q in d.toInsert ==> Key(page, q) !in a
    ensures var w := LegacyWritePass(a, cs, page, rev, ids, d);
      w.ok ==> Get(w.table, Key(page, p)) == PassRow(a, page, rev, LegacyHits(cs, ids, p), d, p)
    decreases |cs|
  {
    if cs != [] {
      var init, c := cs[..|cs| - 1], cs[|cs| - 1];
      SplitLast(cs);
      LegacyWritePassSnoc(a, init, c, page, rev, ids, d);
      LegacyHitsSnoc(init, c, ids, p);
      var w0 := LegacyWritePass(a, init, page, rev, ids, d);
      if w0.ok {
        LegacyPassRow(a, init, page, rev, ids, d, p);
        if RoutesTo(c, ids, p) {
          PassRowStepHit(a, w0, c, page, rev, ids, d, p, LegacyHits(init, ids, p));
        } else {
          PassRowStepMiss(w0, c, page, rev, ids, d, p);
          assert LegacyHits(cs, ids, p) == LegacyHits(init, ids, p) by {
            assert LegacyHits(init, ids, p) + [] == LegacyHits(init, ids, p);
          }
        }
      }
    }
  }

  /** A declaration routed elsewhere leaves the row of `p` alone. */
  lemma PassRowStepMiss(w0: Run, c: Declaration, page: int, rev: int, ids: map<Bytes, int>, d: DiffSets, p: int)
    requires w0.ok && !RoutesTo(c, ids, p)
    ensures Get(LegacyWriteStep(w0, c, page, rev, ids, d).table, Key(page, p)) == Get(w0.table, Key(page, p))
  {
  }

  /** A declaration routed to `p` extends the row of `p` by one more hit. */
  lemma PassRowStepHit(a: Assessments, w0: Run, c: Declaration, page: int, rev: int, ids: map<Bytes, int>,
                       d: DiffSets, p: int, hs0: seq<Declaration>)
    requires forall q :: q in d.toInsert ==> Key(page, q) !in a
    requires w0.ok && RoutesTo(c, ids, p)
    requires Get(w0.table, Key(page, p)) == PassRow(a, page, rev, hs0, d, p)
    ensures var w := LegacyWriteStep(w0, c, page, rev, ids, d);
      w.ok ==> Get(w.table, Key(page, p)) == PassRow(a, page, rev, hs0 + [c], d, p)
  {
    var k := Key(page, p);
    if p != 0 && p !in d.toInsert && p in d.toUpdate {
      UpdateFoldSnoc(Get(a, k), hs0, c, rev);
    } else if p != 0 && p in d.toInsert {
      assert (hs0 + [c])[0] == if |hs0| > 0 then hs0[0] else c;
    }
  }

  /** Once a run has failed, later declarations change nothing. */
  lemma {:induction false} LegacyFailureSticks(a: Assessments, cs: seq<Declaration>, k: nat, page: int, rev: int,
                                               ids: map<Bytes, int>, d: DiffSets)
    requires k <= |cs| && !LegacyWritePass(a, cs[..k], page, rev, ids, d).ok
    ensures LegacyWritePass(a, cs, page, rev, ids, d) == LegacyWritePass(a, cs[..k], page, rev, ids, d)
    decreases |cs|
  {
    if k < |cs| {
      var init := cs[..|cs| - 1];
      assert init[..k] == cs[..k];
      LegacyFailureSticks(a, init, k, page, rev, ids, d);
    } else {
      assert cs[..k] == cs;
    }
  }

  /** A write pass touches no row of another page and no row of project 0. */
  lemma {:induction false} LegacyPassUntouched(a: Assessments, cs: seq<Declaration>, page: int, rev: int,
                                               ids: map<Bytes, int>, d: DiffSets, k: Key)
    requires k.page != page || k.project == 0
    ensures Get(LegacyWritePass(a, cs, page, rev, ids, d).table, k) == Get(a, k)
    decreases |cs|
  {
    if cs != [] {
      LegacyPassUntouched(a, cs[..|cs| - 1], page, rev, ids, d, k);
    }
  }

  /**
   * The write pass gets through exactly when no project to be inserted is
   * declared twice: the second insert of such a project hits the row the first
   * one wrote.
   */
  lemma {:induction false} LegacyPassOk(a: Assessments, cs: seq<Declaration>, page: int, rev: int,
                                        ids: map<Bytes, int>, d: DiffSets)
    requires forall q :: q in d.toInsert ==> Key(page, q) !in a
    ensures LegacyWritePass(a, cs, page, rev, ids, d).ok <==> NoRepeatedInsert(cs, ids, d.toInsert)
    decreases |cs|
  {
    if cs != [] {
      var init, c := cs[..|cs| - 1], cs[|cs| - 1];
      SplitLast(cs);
      LegacyWritePassSnoc(a, init, c, page, rev, ids, d);
      LegacyPassOk(a, init, page, rev, ids, d);
      var w0 := LegacyWritePass(a, init, page, rev, ids, d);
      forall p ensures LegacyHits(cs, ids, p) == LegacyHits(init, ids, p) + (if RoutesTo(c, ids, p) then [c] else []) {
        LegacyHitsSnoc(init, c, ids, p);
      }
      if w0.ok && c.project in ids {
        var pc := ids[c.project];
        LegacyPassRow(a, init, page, rev, ids, d, pc);
        if pc != 0 && pc in d.toInsert {
          assert Key(page, pc) in w0.table <==> |LegacyHits(init, ids, pc)| > 0;
          if !NoRepeatedInsert(cs, ids, d.toInsert) && NoRepeatedInsert(init, ids, d.toInsert) {
            var q :| q in d.toInsert && q != 0 && |LegacyHits(cs, ids, q)| > 1;
            assert q == pc;
          }
        }
      }
      if !NoRepeatedInsert(init, ids, d.toInsert) {
        var q :| q in d.toInsert && q != 0 && |LegacyHits(init, ids, q)| > 1;
        assert |LegacyHits(cs, ids, q)| > 1;
      }
    }
  }

  /** Distinct raw names have distinct ids, and every id is positive. */
  lemma LegacyIdsInjective(t: ProjectTable, ds: seq<Declaration>, n: Bytes, m: Bytes)
    requires ProjectsValid(t)
    ensures var r := LegacyResolveAll(t, ds);
      && (n in r.ids ==> r.ids[n] >= 1)
      && (n in r.ids && m in r.ids && r.ids[n] == r.ids[m] ==> n == m)
  {
    var r := LegacyResolveAll(t, ds);
    if n in r.ids && m in r.ids {
      assert n in r.table.rows && m in r.table.rows;
    }
  }

  /** Some declaration is routed to `p` exactly when `p` is the id of a declared name. */
  lemma LegacyHitsIffDeclared(ds: seq<Declaration>, ids: map<Bytes, int>, p: int)
    requires ids.Keys == RawNames(ds)
    ensures |LegacyHits(ds, ids, p)| > 0 <==> p in IdsOf(ids)
  {
    var hs := LegacyHits(ds, ids, p);
    if |hs| > 0 {
      assert hs[0] in hs;
    }
    if p in IdsOf(ids) {
      var n :| n in ids && ids[n] == p;
      var c :| c in ds && c.project == n;
      assert c in hs;
    }
  }

  /** Rows of every other page are left exactly as they were, whether or not the run got through. */
  lemma {:induction false} LegacyOtherPagesUnchanged(t: ProjectTable, a: Assessments, page: int, rev: int,
                                                     ds: seq<Declaration>, k: Key)
    requires k.page != page
    ensures Get(LegacyReconcileAll(t, a, page, rev, ds).1.table, k) == Get(a, k)
  {
    var r := LegacyResolveAll(t, ds);
    LegacyPassUntouched(a, ds, page, rev, r.ids, PlanFor(a, page, r), k);
  }

  /** The run gets through exactly when no project new to the page is declared twice. */
  lemma {:induction false} LegacyOkIff(t: ProjectTable, a: Assessments, page: int, rev: int, ds: seq<Declaration>)
    ensures var r := LegacyResolveAll(t, ds);
      LegacyReconcileAll(t, a, page, rev, ds).1.ok <==> NoRepeatedInsert(ds, r.ids, PlanFor(a, page, r).toInsert)
  {
    var r := LegacyResolveAll(t, ds);
    LegacyPassOk(a, ds, page, rev, r.ids, PlanFor(a, page, r));
  }

  /** No declaration routed to `p` means no hit. */
  lemma {:induction false} LegacyHitsNone(cs: seq<Declaration>, ids: map<Bytes, int>, p: int)
    requires forall i :: 0 <= i < |cs| ==> !RoutesTo(cs[i], ids, p)
    ensures LegacyHits(cs, ids, p) == []
    decreases |cs|
  {
    if cs != [] {
      var init := cs[..|cs| - 1];
      assert forall i :: 0 <= i < |init| ==> init[i] == cs[i];
      LegacyHitsNone(init, ids, p);
    }
  }

  /** At most one declaration routed to `p` means at most one hit. */
  lemma {:induction false} LegacyHitsAtMostOne(cs: seq<Declaration>, ids: map<Bytes, int>, p: int)
    requires forall i, j :: 0 <= i < j < |cs| && RoutesTo(cs[i], ids, p) ==> !RoutesTo(cs[j], ids, p)
    ensures |LegacyHits(cs, ids, p)| <= 1
    decreases |cs|
  {
    if cs != [] {
      var init, c := cs[..|cs| - 1], cs[|cs| - 1];
      SplitLast(cs);
      LegacyHitsAtMostOne(init, ids, p);
      if RoutesTo(c, ids, p) {
        assert forall i :: 0 <= i < |init| ==> init[i] == cs[i];
        LegacyHitsNone(init, ids, p);
      }
    }
  }

  /** With valid project rows, declarations that all name different projects always get through. */
  lemma {:induction false} LegacyDistinctNamesOk(t: ProjectTable, a: Assessments, page: int, rev: int, ds: seq<Declaration>)
    requires ProjectsValid(t)
    requires forall i, j :: 0 <= i < j < |ds| ==> ds[i].project != ds[j].project
    ensures LegacyReconcileAll(t, a, page, rev, ds).1.ok
  {
    var r := LegacyResolveAll(t, ds);
    forall p | p in PlanFor(a, page, r).toInsert && p != 0 ensures |LegacyHits(ds, r.ids, p)| <= 1 {
      forall i, j | 0 <= i < j < |ds| && RoutesTo(ds[i], r.ids, p) ensures !RoutesTo(ds[j], r.ids, p) {
        LegacyIdsInjective(t, ds, ds[i].project, ds[j].project);
      }
      LegacyHitsAtMostOne(ds, r.ids, p);
    }
    LegacyOkIff(t, a, page, rev, ds);
  }

  /**
   * After a run that got through, on any page (0 included), the page's project
   * ids are exactly the ids of the declared raw names.
   */
  lemma {:induction false} LegacyPageProjects(t: ProjectTable, a: Assessments, page: int, rev: int, ds: seq<Declaration>)
    requires ProjectsValid(t)
    ensures var r := LegacyResolveAll(t, ds);
      var res := LegacyReconcileAll(t, a, page, rev, ds).1;
      res.ok ==> PageProjects(res.table, page) == IdsOf(r.ids)
  {
    var r := LegacyResolveAll(t, ds);
    forall p | p in IdsOf(r.ids) ensures p != 0 {
      var n :| n in r.ids && r.ids[n] == p;
      LegacyIdsInjective(t, ds, n, n);
    }
    LegacyWriteAndDeleteProjects(a, ds, page, rev, r.ids);
  }

  /**
   * The write and delete passes for any `$projects` map over the declared raw
   * names without id 0: when the writes get through, the page holds exactly
   * the ids of `$projects`.
   */
  lemma {:induction false} LegacyWriteAndDeleteProjects(a: Assessments, ds: seq<Declaration>, page: int, rev: int,
                                                        ids: map<Bytes, int>)
    requires ids.Keys == RawNames(ds) && 0 !in IdsOf(ids)
    ensures var d := Diff(IdsOf(ids), PageProjects(a, page));
      var w := LegacyWritePass(a, ds, page, rev, ids, d);
      w.ok ==> PageProjects(DeleteProjects(w.table, page, d.toDelete), page) == IdsOf(ids)
  {
    var d := Diff(IdsOf(ids), PageProjects(a, page));
    var w := LegacyWritePass(a, ds, page, rev, ids, d);
    if w.ok {
      var a2 := DeleteProjects(w.table, page, d.toDelete);
      forall p ensures p in PageProjects(a2, page) <==> p in IdsOf(ids) {
        assert Get(a2, Key(page, p)) == if p in d.toDelete then None else Get(w.table, Key(page, p));
        LegacyPassRow(a, ds, page, rev, ids, d, p);
        LegacyHitsIffDeclared(ds, ids, p);
      }
    }
  }

  /** A declared raw name has at least one declaration routed to its project, and only its own. */
  lemma LegacyDeclaredHits(t: ProjectTable, ds: seq<Declaration>, n: Bytes)
    requires ProjectsValid(t) && n in RawNames(ds)
    ensures var r := LegacyResolveAll(t, ds);
      var hs := LegacyHits(ds, r.ids, r.ids[n]);
      |hs| > 0 && (forall h :: h in hs ==> h.project == n)
  {
    var r := LegacyResolveAll(t, ds);
    var p := r.ids[n];
    var hs := LegacyHits(ds, r.ids, p);
    LegacyIdsInjective(t, ds, n, n);
    assert p in IdsOf(r.ids);
    LegacyHitsIffDeclared(ds, r.ids, p);
    forall h | h in hs ensures h.project == n {
      LegacyIdsInjective(t, ds, h.project, n);
    }
  }

  /**
   * After a run that got through, the row of a declared name's project: for a
   * project new to the page, the values of its one declaration; for a stored
   * one, the stored row after updateRecord for each of its declarations in turn.
   */
  lemma LegacyDeclaredRow(t: ProjectTable, a: Assessments, page: int, rev: int,
                          ds: seq<Declaration>, n: Bytes)
    requires ProjectsValid(t) && n in RawNames(ds)
    ensures var r := LegacyResolveAll(t, ds);
      var p := r.ids[n];
      var hs := LegacyHits(ds, r.ids, p);
      var res := LegacyReconcileAll(t, a, page, rev, ds).1;
      && |hs| > 0 && (forall h :: h in hs ==> h.project == n)
      && (res.ok && Key(page, p) !in a ==>
            |hs| == 1 && Get(res.table, Key(page, p)) == Some(Assessment(hs[0].quality, hs[0].importance, rev)))
      && (res.ok && Key(page, p) in a ==> Get(res.table, Key(page, p)) == UpdateFold(Get(a, Key(page, p)), hs, rev))
  {
    var r := LegacyResolveAll(t, ds);
    LegacyDeclaredHits(t, ds, n);
    LegacyIdsInjective(t, ds, n, n);
    assert r.ids[n] in IdsOf(r.ids);
    DeclaredRowOfPass(a, page, rev, ds, r.ids, r.ids[n]);
  }

  /** The row of a declared project after the write pass and the deletes, for any routing map. */
  lemma DeclaredRowOfPass(a: Assessments, page: int, rev: int, cs: seq<Declaration>, ids: map<Bytes, int>, p: int)
    requires p != 0 && p in IdsOf(ids) && |LegacyHits(cs, ids, p)| > 0
    ensures var d := Diff(IdsOf(ids), PageProjects(a, page));
      var w := LegacyWritePass(a, cs, page, rev, ids, d);
      var hs := LegacyHits(cs, ids, p);
      var table := DeleteProjects(w.table, page, d.toDelete);
      && (w.ok && Key(page, p) !in a ==> |hs| == 1 && Get(table, Key(page, p)) == Some(Assessment(hs[0].quality, hs[0].importance, rev)))
      && (w.ok && Key(page, p) in a ==> Get(table, Key(page, p)) == UpdateFold(Get(a, Key(page, p)), hs, rev))
  {
    var d := Diff(IdsOf(ids), PageProjects(a, page));
    LegacyPassRow(a, cs, page, rev, ids, d, p);
    LegacyPassOk(a, cs, page, rev, ids, d);
  }
}
