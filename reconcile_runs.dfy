/**
 * Properties of `doUpdates` that relate several runs or several inputs: an
 * unnamed declaration changes nothing, a second run with the same data is a
 * no-op when repeated declarations agree, and is not a no-op otherwise.
 */
module ReconcileRuns {
  import opened Wrappers
  import opened Bytes
  import opened PhpInt
  import opened Storage
  import opened ProjectTitle
  import opened Reconcile
  import opened ReconcileProps

  lemma {:induction false} ResolveAllSkipsUnnamed(t: ProjectTable, d1: seq<Declaration>, e: Declaration,
                                                 d2: seq<Declaration>, subprojects: bool)
    requires e.project == []
    ensures ResolveAll(t, d1 + [e] + d2, subprojects) == ResolveAll(t, d1 + d2, subprojects)
    decreases |d2|
  {
    if d2 == [] {
      ResolveAllSnoc(t, d1, e, subprojects);
      assert d1 + [e] + d2 == d1 + [e] && d1 + d2 == d1;
    } else {
      var init, last := d2[..|d2| - 1], d2[|d2| - 1];
      assert d1 + [e] + d2 == (d1 + [e] + init) + [last];
      assert d1 + d2 == (d1 + init) + [last];
      ResolveAllSnoc(t, d1 + [e] + init, last, subprojects);
      ResolveAllSnoc(t, d1 + init, last, subprojects);
      ResolveAllSkipsUnnamed(t, d1, e, init, subprojects);
    }
  }

  lemma {:induction false} WritePassSkipsUnnamed(a: Assessments, c1: seq<Declaration>, e: Declaration, c2: seq<Declaration>,
                                                page: int, rev: int, ids: map<Bytes, int>, d: DiffSets)
    requires e.project == []
    ensures WritePass(a, c1 + [e] + c2, page, rev, ids, d) == WritePass(a, c1 + c2, page, rev, ids, d)
    decreases |c2|
  {
    if c2 == [] {
      WritePassSnoc(a, c1, e, page, rev, ids, d);
      assert c1 + [e] + c2 == c1 + [e] && c1 + c2 == c1;
    } else {
      var init, last := c2[..|c2| - 1], c2[|c2| - 1];
      assert c1 + [e] + c2 == (c1 + [e] + init) + [last];
      assert c1 + c2 == (c1 + init) + [last];
      WritePassSnoc(a, c1 + [e] + init, last, page, rev, ids, d);
      WritePassSnoc(a, c1 + init, last, page, rev, ids, d);
      WritePassSkipsUnnamed(a, c1, e, init, page, rev, ids, d);
    }
  }

  /**
   * A declaration whose project name is empty is skipped by both loops: adding
   * it anywhere changes neither table.
   */
  lemma {:induction false} ReconcileIgnoresUnnamed(t: ProjectTable, a: Assessments, page: int, rev: int,
                                                  d1: seq<Declaration>, e: Declaration, d2: seq<Declaration>,
                                                  subprojects: bool)
    requires e.project == []
    ensures ReconcileAll(t, a, page, rev, d1 + [e] + d2, subprojects) == ReconcileAll(t, a, page, rev, d1 + d2, subprojects)
  {
    ResolveAllSkipsUnnamed(t, d1, e, d2, subprojects);
    var r := ResolveAll(t, d1 + d2, subprojects);
    var c1, c2 := CleanAll(d1), CleanAll(d2);
    CleanAllConcat(d1 + [e], d2);
    CleanAllConcat(d1, [e]);
    CleanAllConcat(d1, d2);
    assert CleanAll([e]) == [e];
    WritePassSkipsUnnamed(a, c1, e, c2, page, rev, r.ids, PlanFor(a, page, r));
  }

  lemma CleanAllConcat(x: seq<Declaration>, y: seq<Declaration>)
    ensures CleanAll(x + y) == CleanAll(x) + CleanAll(y)
  {
    var l, r := CleanAll(x + y), CleanAll(x) + CleanAll(y);
    assert |l| == |r|;
    forall i | 0 <= i < |l| ensures l[i] == r[i] {
      if i < |x| {
        assert (x + y)[i] == x[i];
      } else {
        assert (x + y)[i] == y[i - |x|];
      }
    }
  }

  /** Declarations that name the same project carry the same class and importance, up to loose `==`. */
  predicate Agreeing(cs: seq<Declaration>)
  {
    forall c1, c2 :: c1 in cs && c2 in cs && c1.project == c2.project && c1.project != [] ==>
      LooseEq(c1.quality, c2.quality) && LooseEq(c1.importance, c2.importance)
  }

  /**
   * The write pass changes nothing when every row a declaration is routed to
   * exists and already holds that declaration's class and importance.
   */
  lemma {:induction false} WritePassNoop(a: Assessments, cs: seq<Declaration>, page: int, rev: int,
                                         ids: map<Bytes, int>, d: DiffSets)
    requires page != 0
    requires forall p :: p != 0 && |Hits(cs, ids, p)| > 0 ==>
      && p in d.toUpdate && p !in d.toInsert && Key(page, p) in a
      && forall h :: h in Hits(cs, ids, p) ==> SameGrade(a[Key(page, p)], h.quality, h.importance)
    ensures WritePass(a, cs, page, rev, ids, d) == a
  {
    var w := WritePass(a, cs, page, rev, ids, d);
    forall k ensures Get(w, k) == Get(a, k) {
      if k.page != page || k.project == 0 || Hits(cs, ids, k.project) == [] {
        WritePassUntouched(a, cs, page, rev, ids, d, k);
      } else {
        var hs := Hits(cs, ids, k.project);
        WritePassUpdated(a, cs, page, rev, ids, d, k.project);
        assert forall i :: 0 <= i < |hs| ==> hs[i] in hs;
      }
    }
    GetExtensional(w, a);
  }

  /** Two resolutions of the same names that agree with the same table are equal. */
  lemma SameResolution(r1: Resolution, r2: Resolution, names: set<Bytes>)
    requires r1.ids.Keys == names && r2.ids.Keys == names && r1.table == r2.table
    requires IdsAgree(r1) && IdsAgree(r2)
    ensures r1 == r2
  {
  }

  /** Every name of an agreeing resolution is a row of its table. */
  lemma NamesAreRows(r: Resolution, names: set<Bytes>)
    requires r.ids.Keys == names && IdsAgree(r)
    ensures forall n :: n in names ==> n in r.table.rows
  {
  }

  /** A second resolution pass over the same declarations finds every project and creates none. */
  lemma {:induction false} ResolveAgain(t: ProjectTable, ds: seq<Declaration>, subprojects: bool)
    ensures var r1 := ResolveAll(t, ds, subprojects);
      ResolveAll(r1.table, ds, subprojects) == r1
  {
    var r1 := ResolveAll(t, ds, subprojects);
    var r2 := ResolveAll(r1.table, ds, subprojects);
    NamesAreRows(r1, DeclaredNames(ds));
    SameResolution(r1, r2, DeclaredNames(ds));
  }

  /** After one run, each declared row holds a class and importance of some declaration of it. */
  lemma {:induction false} FirstRunGrades(t: ProjectTable, a: Assessments, page: int, rev: int,
                                          ds: seq<Declaration>, subprojects: bool, p: int)
    requires ProjectsValid(t) && page != 0
    requires Agreeing(CleanAll(ds))
    ensures var r := ResolveAll(t, ds, subprojects);
      var a1 := ReconcileAll(t, a, page, rev, ds, subprojects).1;
      var hs := Hits(CleanAll(ds), r.ids, p);
      p != 0 && |hs| > 0 ==>
        Key(page, p) in a1 && forall h :: h in hs ==> SameGrade(a1[Key(page, p)], h.quality, h.importance)
  {
    var r := ResolveAll(t, ds, subprojects);
    var hs := Hits(CleanAll(ds), r.ids, p);
    if p != 0 && |hs| > 0 {
      assert hs[0] in hs;
      var n := hs[0].project;
      assert n in DeclaredNames(ds);
      HitsShareName(t, ds, subprojects, p, n);
      if p in PageProjects(a, page) {
        FirstRunStoredGrades(t, a, page, rev, ds, subprojects, n);
      } else {
        FirstRunNewGrades(t, a, page, rev, ds, subprojects, n);
      }
    }
  }

  /** Every declaration resolving to the id of `n` is a declaration of `n`. */
  lemma HitsShareName(t: ProjectTable, ds: seq<Declaration>, subprojects: bool, p: int, n: Bytes)
    requires ProjectsValid(t)
    ensures var r := ResolveAll(t, ds, subprojects);
      n in r.ids && r.ids[n] == p ==> forall h :: h in Hits(CleanAll(ds), r.ids, p) ==> h.project == n
  {
    var r := ResolveAll(t, ds, subprojects);
    forall h | h in Hits(CleanAll(ds), r.ids, p) && n in r.ids && r.ids[n] == p ensures h.project == n {
      NamesInjective(t, ds, subprojects, h.project, n);
    }
  }

  /** Agreeing declarations that all name `n`: a row with the grade of one has the grade of each. */
  lemma AgreeingGrades(cs: seq<Declaration>, hs: seq<Declaration>, n: Bytes, h0: Declaration, v: Assessment)
    requires Agreeing(cs) && n != []
    requires forall h :: h in hs ==> h in cs && h.project == n
    requires h0 in hs && SameGrade(v, h0.quality, h0.importance)
    ensures forall h :: h in hs ==> SameGrade(v, h.quality, h.importance)
  {
    forall h | h in hs ensures SameGrade(v, h.quality, h.importance) {
      LooseEqEquivalence(v.quality, h0.quality, h.quality);
      LooseEqEquivalence(v.importance, h0.importance, h.importance);
    }
  }

  /** FirstRunGrades for a project that was stored for the page. */
  lemma {:induction false} FirstRunStoredGrades(t: ProjectTable, a: Assessments, page: int, rev: int,
                                                ds: seq<Declaration>, subprojects: bool, n: Bytes)
    requires ProjectsValid(t) && page != 0
    requires Agreeing(CleanAll(ds))
    requires n in DeclaredNames(ds) && n != []
    ensures var r := ResolveAll(t, ds, subprojects);
      var a1 := ReconcileAll(t, a, page, rev, ds, subprojects).1;
      var p := r.ids[n];
      var hs := Hits(CleanAll(ds), r.ids, p);
      Key(page, p) in a ==>
        Key(page, p) in a1 && forall h :: h in hs ==> SameGrade(a1[Key(page, p)], h.quality, h.importance)
  {
    var r := ResolveAll(t, ds, subprojects);
    var p := r.ids[n];
    var hs := Hits(CleanAll(ds), r.ids, p);
    if Key(page, p) in a {
      ReconcileStoredProjectRow(t, a, page, rev, ds, subprojects, n);
      var v := Get(ReconcileAll(t, a, page, rev, ds, subprojects).1, Key(page, p)).value;
      AgreeingGrades(CleanAll(ds), hs, n, hs[|hs| - 1], v);
    }
  }

  /** FirstRunGrades for a project that was not stored for the page. */
  lemma {:induction false} FirstRunNewGrades(t: ProjectTable, a: Assessments, page: int, rev: int,
                                             ds: seq<Declaration>, subprojects: bool, n: Bytes)
    requires ProjectsValid(t) && page != 0
    requires Agreeing(CleanAll(ds))
    requires n in DeclaredNames(ds) && n != []
    ensures var r := ResolveAll(t, ds, subprojects);
      var a1 := ReconcileAll(t, a, page, rev, ds, subprojects).1;
      var p := r.ids[n];
      var hs := Hits(CleanAll(ds), r.ids, p);
      p !in PageProjects(a, page) ==>
        Key(page, p) in a1 && forall h :: h in hs ==> SameGrade(a1[Key(page, p)], h.quality, h.importance)
  {
    var r := ResolveAll(t, ds, subprojects);
    var p := r.ids[n];
    var hs := Hits(CleanAll(ds), r.ids, p);
    if p !in PageProjects(a, page) {
      ReconcileNewProjectRow(t, a, page, rev, ds, subprojects, n);
      HitsShareName(t, ds, subprojects, p, n);
      var v := Get(ReconcileAll(t, a, page, rev, ds, subprojects).1, Key(page, p)).value;
      AgreeingGrades(CleanAll(ds), hs, n, hs[0], v);
    }
  }

  /**
   * The write and delete passes over rows that already hold what every
   * declaration routed to them says, for any `$projects` map without id 0 whose
   * ids cover the page's stored projects: nothing changes.
   */
  lemma {:induction false} WriteAndDeleteNoop(a: Assessments, cs: seq<Declaration>, page: int, rev: int,
                                              ids: map<Bytes, int>)
    requires page != 0 && 0 !in IdsOf(ids)
    requires PageProjects(a, page) <= IdsOf(ids)
    requires forall p :: p != 0 && |Hits(cs, ids, p)| > 0 ==>
      Key(page, p) in a && forall h :: h in Hits(cs, ids, p) ==> SameGrade(a[Key(page, p)], h.quality, h.importance)
    ensures var d := Diff(IdsOf(ids), PageProjects(a, page));
      DeleteProjects(WritePass(a, cs, page, rev, ids, d), page, d.toDelete) == a
  {
    var d := Diff(IdsOf(ids), PageProjects(a, page));
    forall p | p != 0 && |Hits(cs, ids, p)| > 0
      ensures && p in d.toUpdate && p !in d.toInsert && Key(page, p) in a
              && forall h :: h in Hits(cs, ids, p) ==> SameGrade(a[Key(page, p)], h.quality, h.importance)
    {
      var hs := Hits(cs, ids, p);
      assert hs[0] in hs;
      assert ids[hs[0].project] == p;
      assert p in IdsOf(ids);
    }
    WritePassNoop(a, cs, page, rev, ids, d);
    assert d.toDelete == {};
    var a2 := DeleteProjects(a, page, {});
    forall k ensures Get(a2, k) == Get(a, k) {}
    GetExtensional(a2, a);
  }

  lemma NamedWithinIds(ids: map<Bytes, int>)
    ensures NamedIds(ids) <= IdsOf(ids)
  {
  }

  /**
   * Running `doUpdates` twice with the same data and revision leaves both tables
   * as the first run left them, provided repeated declarations of a project agree.
   */
  lemma {:induction false} ReconcileIdempotent(t: ProjectTable, a: Assessments, page: int, rev: int,
                                               ds: seq<Declaration>, subprojects: bool)
    requires ProjectsValid(t) && page != 0
    requires Agreeing(CleanAll(ds))
    ensures var first := ReconcileAll(t, a, page, rev, ds, subprojects);
      ReconcileAll(first.0, first.1, page, rev, ds, subprojects) == first
  {
    var r := ResolveAll(t, ds, subprojects);
    var cs := CleanAll(ds);
    var first := ReconcileAll(t, a, page, rev, ds, subprojects);
    var a1 := first.1;
    assert first.0 == r.table;
    ResolveAgain(t, ds, subprojects);
    assert ResolveAll(r.table, ds, subprojects) == r;
    ReconcilePageProjects(t, a, page, rev, ds, subprojects);
    NamedWithinIds(r.ids);
    assert PageProjects(a1, page) <= IdsOf(r.ids);
    DeclaredIdsPositive(t, ds, subprojects);
    forall p | p != 0 && |Hits(cs, r.ids, p)| > 0
      ensures Key(page, p) in a1 && forall h :: h in Hits(cs, r.ids, p) ==> SameGrade(a1[Key(page, p)], h.quality, h.importance)
    {
      FirstRunGrades(t, a, page, rev, ds, subprojects, p);
    }
    WriteAndDeleteNoop(a1, cs, page, rev, r.ids);
    assert ReconcileAll(r.table, a1, page, rev, ds, subprojects) == (r.table, a1);
  }

  /**
   * Without that proviso a second run is not a no-op: a project new to the page
   * and declared twice with classes that differ under loose `==` keeps the first
   * declaration's class after one run (insert IGNORE) and takes the last
   * declaration's class on the next (updateRecord).
   */
  lemma {:induction false} NotIdempotentWhenDeclarationsDisagree(t: ProjectTable, a: Assessments, page: int, rev: int,
                                                                 subprojects: bool, name: Bytes, q0: Bytes, q1: Bytes, imp: Bytes)
    requires ProjectsValid(t) && page != 0
    requires name != [] && CleanProjectTitle(name) == name
    requires !LooseEq(q0, q1)
    ensures var ds := [Declaration(name, q0, imp), Declaration(name, q1, imp)];
      var r := ResolveAll(t, ds, subprojects);
      var first := ReconcileAll(t, a, page, rev, ds, subprojects);
      var second := ReconcileAll(first.0, first.1, page, rev, ds, subprojects);
      name in r.ids &&
      (Key(page, r.ids[name]) !in a ==>
        && Get(first.1, Key(page, r.ids[name])) == Some(Assessment(q0, imp, rev))
        && Get(second.1, Key(page, r.ids[name])) == Some(Assessment(q1, imp, rev)))
  {
    var ds := [Declaration(name, q0, imp), Declaration(name, q1, imp)];
    var r := ResolveAll(t, ds, subprojects);
    var first := ReconcileAll(t, a, page, rev, ds, subprojects);
    PairFirstRun(t, a, page, rev, subprojects, name, q0, q1, imp);
    if Key(page, r.ids[name]) !in a {
      assert first.0 == r.table;
      ResolveAgain(t, ds, subprojects);
      PairStoredRun(first.0, first.1, page, rev, subprojects, name, q0, q1, imp);
    }
  }

  /** One run over the pair on a page without the row: the first declaration's values are inserted. */
  lemma {:induction false} PairFirstRun(t: ProjectTable, a: Assessments, page: int, rev: int,
                                        subprojects: bool, name: Bytes, q0: Bytes, q1: Bytes, imp: Bytes)
    requires ProjectsValid(t) && page != 0
    requires name != [] && CleanProjectTitle(name) == name
    ensures var ds := [Declaration(name, q0, imp), Declaration(name, q1, imp)];
      var r := ResolveAll(t, ds, subprojects);
      name in r.ids &&
      (Key(page, r.ids[name]) !in a ==>
        Get(ReconcileAll(t, a, page, rev, ds, subprojects).1, Key(page, r.ids[name])) == Some(Assessment(q0, imp, rev)))
  {
    var d0, d1 := Declaration(name, q0, imp), Declaration(name, q1, imp);
    var ds := [d0, d1];
    CleanPair(d0, d1);
    var r := ResolveAll(t, ds, subprojects);
    HitsOfPair(d0, d1, r.ids, r.ids[name]);
    ReconcileNewProjectRow(t, a, page, rev, ds, subprojects, name);
  }

  /**
   * One run over the pair on a page holding the first declaration's values, the two
   * classes differing under loose `==`: the last one's are written.
   */
  lemma {:induction false} PairStoredRun(t: ProjectTable, a: Assessments, page: int, rev: int,
                                         subprojects: bool, name: Bytes, q0: Bytes, q1: Bytes, imp: Bytes)
    requires ProjectsValid(t) && page != 0
    requires name != [] && CleanProjectTitle(name) == name
    requires !LooseEq(q0, q1)
    ensures var ds := [Declaration(name, q0, imp), Declaration(name, q1, imp)];
      var r := ResolveAll(t, ds, subprojects);
      name in r.ids &&
      (Get(a, Key(page, r.ids[name])) == Some(Assessment(q0, imp, rev)) ==>
        Get(ReconcileAll(t, a, page, rev, ds, subprojects).1, Key(page, r.ids[name])) == Some(Assessment(q1, imp, rev)))
  {
    var d0, d1 := Declaration(name, q0, imp), Declaration(name, q1, imp);
    var ds := [d0, d1];
    CleanPair(d0, d1);
    var r := ResolveAll(t, ds, subprojects);
    HitsOfPair(d0, d1, r.ids, r.ids[name]);
    ReconcileStoredProjectRow(t, a, page, rev, ds, subprojects, name);
    assert !SameGrade(Assessment(q0, imp, rev), d1.quality, d1.importance);
  }

  /** Two declarations of one already clean name are left as they are, and declare that name only. */
  lemma CleanPair(d0: Declaration, d1: Declaration)
    requires d0.project == d1.project && d0.project != [] && CleanProjectTitle(d0.project) == d0.project
    ensures CleanAll([d0, d1]) == [d0, d1]
    ensures DeclaredNames([d0, d1]) == {d0.project}
  {
    assert d0 in [d0, d1];
    var cs := CleanAll([d0, d1]);
    assert cs[0] == d0 && cs[1] == d1;
  }

  /** Both declarations of a pair that resolve to `p` are its hits, in order. */
  lemma HitsOfPair(d0: Declaration, d1: Declaration, ids: map<Bytes, int>, p: int)
    requires ResolvesTo(d0, ids, p) && ResolvesTo(d1, ids, p)
    ensures Hits([d0, d1], ids, p) == [d0, d1]
  {
    assert [d0, d1][..1] == [d0];
    assert [d0][..0] == [];
    assert Hits([], ids, p) == [];
    assert Hits([d0], ids, p) == [d0];
  }
}
