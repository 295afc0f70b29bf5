/**
 * What one run of `doUpdates` does to the assessment table, stated per row:
 * the page's project set afterwards, the values of new and of already-stored
 * rows, and what is left alone.
 */
module ReconcileProps {
  import opened Wrappers
  import opened Bytes
  import opened Storage
  import opened ProjectTitle
  import opened Reconcile

  /** The cleaned declaration `c` names a project whose id in `$projects` is `p`. */
  predicate ResolvesTo(c: Declaration, ids: map<Bytes, int>, p: int)
  {
    c.project != [] && c.project in ids && ids[c.project] == p
  }

  /** The cleaned declarations that resolve to project `p`, in declaration order. */
  function Hits(cs: seq<Declaration>, ids: map<Bytes, int>, p: int): (hs: seq<Declaration>)
    ensures forall h :: h in hs ==> h in cs && ResolvesTo(h, ids, p)
    ensures forall c :: c in cs && ResolvesTo(c, ids, p) ==> c in hs
    decreases |cs|
  {
    if cs == [] then []
    else
      var init, c := cs[..|cs| - 1], cs[|cs| - 1];
      SplitLast(cs);
      Hits(init, ids, p) + (if ResolvesTo(c, ids, p) then [c] else [])
  }

  /** `updateRecord` on one row slot. */
  function UpdateSlot(o: Option<Assessment>, c: Declaration, rev: int): Option<Assessment>
  {
    if o.Some? && !SameGrade(o.value, c.quality, c.importance) then Some(Assessment(c.quality, c.importance, rev)) else o
  }

  /**
   * A row after `updateRecord` has run for each of `hs` in turn. It ends with a
   * class and importance loosely equal (PHP `==`) to the last declaration's; its
   * revision becomes `rev` when some declaration differed from the row as it was,
   * and otherwise the row is untouched. An absent row stays absent.
   */
  function UpdateFold(o: Option<Assessment>, hs: seq<Declaration>, rev: int): (r: Option<Assessment>)
    ensures o.None? ==> r.None?
    ensures o.Some? ==> r.Some?
    ensures o.Some? && |hs| > 0 ==> SameGrade(r.value, hs[|hs| - 1].quality, hs[|hs| - 1].importance)
    ensures o.Some? && (forall i :: 0 <= i < |hs| ==> SameGrade(o.value, hs[i].quality, hs[i].importance)) ==> r == o
    ensures o.Some? && (exists i :: 0 <= i < |hs| && !SameGrade(o.value, hs[i].quality, hs[i].importance)) ==>
      r.value.revision == rev
    decreases |hs|
  {
    if hs == [] then o
    else
      var init := hs[..|hs| - 1];
      var prev := UpdateFold(o, init, rev);
      assert forall i :: 0 <= i < |init| ==> init[i] == hs[i];
      UpdateSlot(prev, hs[|hs| - 1], rev)
  }

  /** A row the write pass never routes a declaration to keeps its value. */
  lemma {:induction false} WritePassUntouched(a: Assessments, cs: seq<Declaration>, page: int, rev: int,
                                              ids: map<Bytes, int>, d: DiffSets, k: Key)
    requires k.page != page || page == 0 || k.project == 0 || Hits(cs, ids, k.project) == [] ||
             (k.project !in d.toInsert && k.project !in d.toUpdate)
    ensures Get(WritePass(a, cs, page, rev, ids, d), k) == Get(a, k)
    decreases |cs|
  {
    if cs != [] {
      var init, c := cs[..|cs| - 1], cs[|cs| - 1];
      assert Hits(cs, ids, k.project) == Hits(init, ids, k.project) + (if ResolvesTo(c, ids, k.project) then [c] else []);
      WritePassUntouched(a, init, page, rev, ids, d, k);
    }
  }

  /**
   * A row for a project that was not stored: it exists afterwards exactly when it
   * already existed or some declaration resolves to it, and then it holds the
   * FIRST such declaration's values (later inserts are ignored).
   */
  lemma {:induction false} WritePassInserted(a: Assessments, cs: seq<Declaration>, page: int, rev: int,
                                             ids: map<Bytes, int>, d: DiffSets, p: int)
    requires page != 0 && p != 0 && p in d.toInsert
    ensures var hs := Hits(cs, ids, p);
      Get(WritePass(a, cs, page, rev, ids, d), Key(page, p)) ==
        if Key(page, p) in a then Get(a, Key(page, p))
        else if |hs| > 0 then Some(Assessment(hs[0].quality, hs[0].importance, rev))
        else None
    decreases |cs|
  {
    if cs != [] {
      var init, c := cs[..|cs| - 1], cs[|cs| - 1];
      WritePassInserted(a, init, page, rev, ids, d, p);
      var hi := Hits(init, ids, p);
      assert Hits(cs, ids, p) == hi + (if ResolvesTo(c, ids, p) then [c] else []);
      if |hi| > 0 {
        assert Hits(cs, ids, p)[0] == hi[0];
      }
    }
  }

  /** One write step on the row of a stored project. */
  lemma {:induction false} WriteStepUpdated(w: Assessments, c: Declaration, page: int, rev: int, ids: map<Bytes, int>, d: DiffSets, p: int)
    requires page != 0 && p != 0 && p !in d.toInsert && p in d.toUpdate
    ensures Get(WriteStep(w, c, page, rev, ids, d), Key(page, p)) ==
      if ResolvesTo(c, ids, p) then UpdateSlot(Get(w, Key(page, p)), c, rev) else Get(w, Key(page, p))
  {
  }

  lemma {:induction false} UpdateFoldSnoc(o: Option<Assessment>, hs: seq<Declaration>, c: Declaration, rev: int)
    ensures UpdateFold(o, hs + [c], rev) == UpdateSlot(UpdateFold(o, hs, rev), c, rev)
  {
    assert (hs + [c])[..|hs|] == hs;
  }

  /** A row for a stored project: `updateRecord` runs for each declaration resolving to it, in order. */
  lemma {:induction false} WritePassUpdated(a: Assessments, cs: seq<Declaration>, page: int, rev: int,
                                            ids: map<Bytes, int>, d: DiffSets, p: int)
    requires page != 0 && p != 0 && p !in d.toInsert && p in d.toUpdate
    ensures Get(WritePass(a, cs, page, rev, ids, d), Key(page, p)) == UpdateFold(Get(a, Key(page, p)), Hits(cs, ids, p), rev)
    decreases |cs|
  {
    if cs != [] {
      var init, c := cs[..|cs| - 1], cs[|cs| - 1];
      WritePassUpdated(a, init, page, rev, ids, d, p);
      var hi := Hits(init, ids, p);
      WriteStepUpdated(WritePass(a, init, page, rev, ids, d), c, page, rev, ids, d, p);
      if ResolvesTo(c, ids, p) {
        assert Hits(cs, ids, p) == hi + [c];
        UpdateFoldSnoc(Get(a, Key(page, p)), hi, c, rev);
      } else {
        assert Hits(cs, ids, p) == hi;
      }
    }
  }

  /** The ids of the declared names other than the empty one. */
  function NamedIds(ids: map<Bytes, int>): set<int>
  {
    set n | n in ids && n != [] :: ids[n]
  }

  /** Some cleaned declaration resolves to `p` exactly when `p` is the id of a non-empty declared name. */
  lemma {:induction false} HitsIffNamed(ds: seq<Declaration>, ids: map<Bytes, int>, p: int)
    requires ids.Keys == DeclaredNames(ds)
    ensures |Hits(CleanAll(ds), ids, p)| > 0 <==> p in NamedIds(ids)
  {
    var cs := CleanAll(ds);
    var hs := Hits(cs, ids, p);
    if |hs| > 0 {
      assert hs[0] in hs;
    }
    if p in NamedIds(ids) {
      var n :| n in ids && n != [] && ids[n] == p;
      var e :| e in ds && e.project != [] && CleanProjectTitle(e.project) == n;
      var i :| 0 <= i < |ds| && ds[i] == e;
      assert cs[i] in cs && ResolvesTo(cs[i], ids, p);
    }
  }

  /** Under valid project rows no declared id is 0, so the `$projectId` guard never fires. */
  lemma {:induction false} DeclaredIdsPositive(t: ProjectTable, ds: seq<Declaration>, subprojects: bool)
    requires ProjectsValid(t)
    ensures 0 !in IdsOf(ResolveAll(t, ds, subprojects).ids)
  {
  }

  /** Rows of every other page are left exactly as they were. */
  lemma {:induction false} ReconcileOtherPagesUnchanged(t: ProjectTable, a: Assessments, page: int, rev: int,
                                     ds: seq<Declaration>, subprojects: bool, k: Key)
    requires k.page != page
    ensures Get(ReconcileAll(t, a, page, rev, ds, subprojects).1, k) == Get(a, k)
  {
    var r := ResolveAll(t, ds, subprojects);
    WritePassUntouched(a, CleanAll(ds), page, rev, r.ids, PlanFor(a, page, r), k);
  }

  /**
   * The write and delete passes for a non-zero page, for any `$projects` map without
   * id 0: afterwards the page holds the ids some declaration resolves to, and the
   * stored ids that `$projects` maps to.
   */
  lemma {:induction false} WriteAndDeleteProjects(a: Assessments, cs: seq<Declaration>, page: int, rev: int,
                               ids: map<Bytes, int>, named: set<int>)
    requires page != 0 && 0 !in IdsOf(ids) && named <= IdsOf(ids)
    requires forall p :: |Hits(cs, ids, p)| > 0 <==> p in named
    ensures var d := Diff(IdsOf(ids), PageProjects(a, page));
      PageProjects(DeleteProjects(WritePass(a, cs, page, rev, ids, d), page, d.toDelete), page) ==
        named + (PageProjects(a, page) * IdsOf(ids))
  {
    var all, stored := IdsOf(ids), PageProjects(a, page);
    var d := Diff(all, stored);
    var w := WritePass(a, cs, page, rev, ids, d);
    var a2 := DeleteProjects(w, page, d.toDelete);
    forall p ensures p in PageProjects(a2, page) <==> p in named + (stored * all) {
      var k := Key(page, p);
      assert Get(a2, k) == if p in d.toDelete then None else Get(w, k);
      assert |Hits(cs, ids, p)| > 0 <==> p in named;
      if p in d.toDelete {
      } else if p in d.toInsert {
        WritePassInserted(a, cs, page, rev, ids, d, p);
      } else if p in d.toUpdate {
        WritePassUpdated(a, cs, page, rev, ids, d, p);
      } else {
        WritePassUntouched(a, cs, page, rev, ids, d, k);
      }
    }
  }

  /**
   * The main postcondition: after `doUpdates` for a non-zero page, the page's
   * project ids are the ids of its cleaned, non-empty declared names, plus a
   * stored id whose declared name cleaned to the empty title (that one is neither
   * written nor deleted).
   */
  lemma {:induction false} ReconcilePageProjects(t: ProjectTable, a: Assessments, page: int, rev: int,
                              ds: seq<Declaration>, subprojects: bool)
    requires ProjectsValid(t) && page != 0
    ensures var r := ResolveAll(t, ds, subprojects);
      PageProjects(ReconcileAll(t, a, page, rev, ds, subprojects).1, page) ==
        NamedIds(r.ids) + (PageProjects(a, page) * IdsOf(r.ids))
  {
    var r := ResolveAll(t, ds, subprojects);
    DeclaredIdsPositive(t, ds, subprojects);
    forall p ensures |Hits(CleanAll(ds), r.ids, p)| > 0 <==> p in NamedIds(r.ids) {
      HitsIffNamed(ds, r.ids, p);
    }
    WriteAndDeleteProjects(a, CleanAll(ds), page, rev, r.ids, NamedIds(r.ids));
  }

  /** When no declared name cleans to the empty title, the page's projects are exactly the declared ones. */
  lemma {:induction false} ReconcileDeclaredSet(t: ProjectTable, a: Assessments, page: int, rev: int,
                             ds: seq<Declaration>, subprojects: bool)
    requires ProjectsValid(t) && page != 0
    requires [] !in DeclaredNames(ds)
    ensures var r := ResolveAll(t, ds, subprojects);
      PageProjects(ReconcileAll(t, a, page, rev, ds, subprojects).1, page) == IdsOf(r.ids)
  {
    var r := ResolveAll(t, ds, subprojects);
    ReconcilePageProjects(t, a, page, rev, ds, subprojects);
    AllNamed(r.ids, PageProjects(a, page));
  }

  /** Without the empty name every id of `$projects` is a named one. */
  lemma AllNamed(ids: map<Bytes, int>, stored: set<int>)
    requires [] !in ids
    ensures NamedIds(ids) + (stored * IdsOf(ids)) == IdsOf(ids)
  {
    forall p | p in IdsOf(ids) ensures p in NamedIds(ids) {
      var n :| n in ids && ids[n] == p;
      assert n != [];
    }
  }

  /** The write and delete passes on the row of a declared id that was not stored. */
  lemma {:induction false} WriteAndDeleteNewRow(a: Assessments, cs: seq<Declaration>, page: int, rev: int,
                             ids: map<Bytes, int>, p: int)
    requires page != 0 && p != 0 && p in IdsOf(ids) && p !in PageProjects(a, page)
    ensures var d := Diff(IdsOf(ids), PageProjects(a, page));
      var hs := Hits(cs, ids, p);
      Get(DeleteProjects(WritePass(a, cs, page, rev, ids, d), page, d.toDelete), Key(page, p)) ==
        if |hs| > 0 then Some(Assessment(hs[0].quality, hs[0].importance, rev)) else None
  {
    WritePassInserted(a, cs, page, rev, ids, Diff(IdsOf(ids), PageProjects(a, page)), p);
  }

  /** The write and delete passes on the row of a declared id that was stored. */
  lemma {:induction false} WriteAndDeleteStoredRow(a: Assessments, cs: seq<Declaration>, page: int, rev: int,
                                ids: map<Bytes, int>, p: int)
    requires page != 0 && p != 0 && p in IdsOf(ids) && p in PageProjects(a, page)
    ensures var d := Diff(IdsOf(ids), PageProjects(a, page));
      Get(DeleteProjects(WritePass(a, cs, page, rev, ids, d), page, d.toDelete), Key(page, p)) ==
        UpdateFold(Get(a, Key(page, p)), Hits(cs, ids, p), rev)
  {
    WritePassUpdated(a, cs, page, rev, ids, Diff(IdsOf(ids), PageProjects(a, page)), p);
  }

  /**
   * A project declared on the page but not stored for it gets one row, holding
   * the first declaration's class and importance and the current revision.
   */
  lemma {:induction false} ReconcileNewProjectRow(t: ProjectTable, a: Assessments, page: int, rev: int,
                               ds: seq<Declaration>, subprojects: bool, n: Bytes)
    requires ProjectsValid(t) && page != 0
    requires n in DeclaredNames(ds) && n != []
    ensures var r := ResolveAll(t, ds, subprojects);
      var p := r.ids[n];
      var hs := Hits(CleanAll(ds), r.ids, p);
      p !in PageProjects(a, page) ==>
        |hs| > 0 && hs[0].project == n &&
        Get(ReconcileAll(t, a, page, rev, ds, subprojects).1, Key(page, p)) ==
          Some(Assessment(hs[0].quality, hs[0].importance, rev))
  {
    var r := ResolveAll(t, ds, subprojects);
    var p := r.ids[n];
    var cs := CleanAll(ds);
    if p !in PageProjects(a, page) {
      DeclaredIdsPositive(t, ds, subprojects);
      assert p in NamedIds(r.ids) && p in IdsOf(r.ids);
      HitsIffNamed(ds, r.ids, p);
      WriteAndDeleteNewRow(a, cs, page, rev, r.ids, p);
      var hs := Hits(cs, r.ids, p);
      assert hs[0] in hs;
      NamesInjective(t, ds, subprojects, hs[0].project, n);
    }
  }

  /** Distinct declared names have distinct ids. */
  lemma {:induction false} NamesInjective(t: ProjectTable, ds: seq<Declaration>, subprojects: bool, n: Bytes, m: Bytes)
    requires ProjectsValid(t)
    ensures var r := ResolveAll(t, ds, subprojects);
      n in r.ids && m in r.ids && r.ids[n] == r.ids[m] ==> n == m
  {
    var r := ResolveAll(t, ds, subprojects);
    if n in r.ids && m in r.ids && r.ids[n] == r.ids[m] {
      assert n in r.table.rows && m in r.table.rows;
    }
  }

  /**
   * A project already stored for the page: its row is the stored row after
   * `updateRecord` has run once for each declaration of that project, in order
   * (UpdateFold: a class and importance loosely equal to the last declaration's;
   * the revision bumped when some declaration differed).
   */
  lemma {:induction false} ReconcileStoredProjectRow(t: ProjectTable, a: Assessments, page: int, rev: int,
                                  ds: seq<Declaration>, subprojects: bool, n: Bytes)
    requires ProjectsValid(t) && page != 0
    requires n in DeclaredNames(ds) && n != []
    ensures var r := ResolveAll(t, ds, subprojects);
      var p := r.ids[n];
      var hs := Hits(CleanAll(ds), r.ids, p);
      Key(page, p) in a ==>
        && |hs| > 0
        && (forall h :: h in hs ==> h.project == n)
        && Get(ReconcileAll(t, a, page, rev, ds, subprojects).1, Key(page, p)) == UpdateFold(Get(a, Key(page, p)), hs, rev)
  {
    var r := ResolveAll(t, ds, subprojects);
    var p := r.ids[n];
    var cs := CleanAll(ds);
    if Key(page, p) in a {
      DeclaredIdsPositive(t, ds, subprojects);
      assert p in NamedIds(r.ids) && p in IdsOf(r.ids);
      HitsIffNamed(ds, r.ids, p);
      WriteAndDeleteStoredRow(a, cs, page, rev, r.ids, p);
      var hs := Hits(cs, r.ids, p);
      forall h | h in hs ensures h.project == n {
        NamesInjective(t, ds, subprojects, h.project, n);
      }
    }
  }

  /** Page id 0 gets no writes; only stored ids that were not declared at all are deleted. */
  lemma {:induction false} ReconcilePageZero(t: ProjectTable, a: Assessments, rev: int, ds: seq<Declaration>, subprojects: bool)
    ensures var r := ResolveAll(t, ds, subprojects);
      ReconcileAll(t, a, 0, rev, ds, subprojects).1 == DeleteProjects(a, 0, PageProjects(a, 0) - IdsOf(r.ids))
  {
    var r := ResolveAll(t, ds, subprojects);
    var d := PlanFor(a, 0, r);
    var w := WritePass(a, CleanAll(ds), 0, rev, r.ids, d);
    forall k ensures Get(w, k) == Get(a, k) {
      WritePassUntouched(a, CleanAll(ds), 0, rev, r.ids, d, k);
    }
    GetExtensional(w, a);
  }
}
