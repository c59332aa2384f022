/**
 * When `GetAdminsIf` returns a chain that starts above the start of another: exactly when the sort
 * by zone type puts a region before all the regions below it.
 */
module GeoFinderNesting {
  import opened Wrappers
  import opened Hierarchy
  import opened SpatialIndex
  import opened GeoFinder
  import opened GeoFinderProperties

  /** Some returned chain starts at a region above the start of another. */
  ghost predicate Nested(g: Geometry, t: RTree, byId: map<string, Admin>, p: Point, condition: Admin -> bool) {
    exists low: seq<Admin>, high: seq<Admin> ::
      && low in ChainsResult(g, t, byId, p, condition) && high in ChainsResult(g, t, byId, p, condition)
      && low != [] && high != [] && IsAbove(byId, low[0], high[0].id)
  }

  // ---------------------------------------------------------------- being above is an order

  lemma AboveIsStored(byId: map<string, Admin>, a: Admin, id: string) returns (n: nat)
    requires Acyclic(byId) && Keyed(byId) && IsAbove(byId, a, id)
    ensures id in byId && n > 0 && Up(byId, a, n) == Some(byId[id])
  {
    var k :| 0 <= k < |Ancestors(byId, a)| && Ancestors(byId, a)[k].id == id;
    n := k + 1;
    AcyclicAbove(byId, a);
    AncestorsAreTheWalk(byId, a, k);
    UpIsStored(byId, a, n);
  }

  lemma WalkIsAbove(byId: map<string, Admin>, a: Admin, n: nat)
    requires Acyclic(byId) && n > 0 && Up(byId, a, n).Some?
    ensures IsAbove(byId, a, Up(byId, a, n).value.id)
  {
    AcyclicAbove(byId, a);
    AncestorsAreTheWalk(byId, a, n - 1);
  }

  lemma AboveIsTransitive(byId: map<string, Admin>, a: Admin, b: Admin, id: string)
    requires Acyclic(byId) && Keyed(byId) && b.id in byId && byId[b.id] == b
    requires IsAbove(byId, a, b.id) && IsAbove(byId, b, id)
    ensures IsAbove(byId, a, id)
  {
    var n := AboveIsStored(byId, a, b.id);
    var m := AboveIsStored(byId, b, id);
    UpComposes(byId, a, n, m);
    WalkIsAbove(byId, a, n + m);
  }

  lemma NotAboveItself(byId: map<string, Admin>, a: Admin)
    requires Acyclic(byId) && Keyed(byId) && a.id in byId && byId[a.id] == a
    ensures !IsAbove(byId, a, a.id)
  {
    if IsAbove(byId, a, a.id) {
      var n := AboveIsStored(byId, a, a.id);
      CycleIsInfinite(byId, a, n);
      AcyclicAbove(byId, a);
    }
  }

  // ---------------------------------------------------------------- nesting among the candidates

  ghost predicate HeadsNest(g: Geometry, byId: map<string, Admin>, cs: seq<SplitAdmin>, p: Point, j: nat, k: nat)
    requires j < |cs| && k < |cs|
  {
    Head(g, byId, cs, p, j) && Head(g, byId, cs, p, k) && IsAbove(byId, cs[j].admin, cs[k].admin.id)
  }

  ghost predicate SomeHeadsNest(g: Geometry, byId: map<string, Admin>, cs: seq<SplitAdmin>, p: Point) {
    exists j: nat, k: nat :: j < |cs| && k < |cs| && HeadsNest(g, byId, cs, p, j, k)
  }

  lemma HeadPosition(g: Geometry, byId: map<string, Admin>, cs: seq<SplitAdmin>, p: Point, chain: seq<Admin>)
      returns (k: nat)
    requires chain in ChainsOf(g, byId, cs, p, |cs|)
    ensures k < |cs| && Head(g, byId, cs, p, k) && chain != [] && chain[0] == cs[k].admin
  {
    ChainsMembers(g, byId, cs, p, |cs|, chain);
    k :| k < |cs| && Head(g, byId, cs, p, k) && Chain(byId, cs[k].admin) == chain;
  }

  lemma HeadStartsChain(g: Geometry, byId: map<string, Admin>, cs: seq<SplitAdmin>, p: Point, k: nat)
      returns (chain: seq<Admin>)
    requires k < |cs| && Head(g, byId, cs, p, k)
    ensures chain in ChainsOf(g, byId, cs, p, |cs|) && chain != [] && chain[0] == cs[k].admin
  {
    chain := Chain(byId, cs[k].admin);
    ChainsMembers(g, byId, cs, p, |cs|, chain);
  }

  lemma NestedIsHeadsNest(g: Geometry, t: RTree, byId: map<string, Admin>, p: Point, condition: Admin -> bool)
    ensures Nested(g, t, byId, p, condition) <==> SomeHeadsNest(g, byId, CandidatesIf(t, p, condition), p)
  {
    var cs := CandidatesIf(t, p, condition);
    if Nested(g, t, byId, p, condition) {
      var low: seq<Admin>, high: seq<Admin> :|
        && low in ChainsResult(g, t, byId, p, condition) && high in ChainsResult(g, t, byId, p, condition)
        && low != [] && high != [] && IsAbove(byId, low[0], high[0].id);
      var j := HeadPosition(g, byId, cs, p, low);
      var k := HeadPosition(g, byId, cs, p, high);
      assert HeadsNest(g, byId, cs, p, j, k);
    }
    if SomeHeadsNest(g, byId, cs, p) {
      var j: nat, k: nat :| j < |cs| && k < |cs| && HeadsNest(g, byId, cs, p, j, k);
      var low := HeadStartsChain(g, byId, cs, p, j);
      var high := HeadStartsChain(g, byId, cs, p, k);
    }
  }

  ghost predicate AllCurrent(byId: map<string, Admin>, cs: seq<SplitAdmin>) {
    forall s :: s in cs ==> s.admin.id in byId && byId[s.admin.id] == s.admin
  }

  /** The point meets the candidate's boundary, and the candidate lies below the region of this id. */
  ghost predicate MeetsBelow(g: Geometry, byId: map<string, Admin>, s: SplitAdmin, p: Point, id: string) {
    g.intersects(s.boundary, p) && IsAbove(byId, s.admin, id)
  }

  /** A candidate that meets the point, with candidates below it, all of them later. */
  ghost predicate OnlyLaterBelow(g: Geometry, byId: map<string, Admin>, cs: seq<SplitAdmin>, p: Point, k: nat)
    requires k < |cs|
  {
    && g.intersects(cs[k].boundary, p)
    && (exists j: nat :: j < |cs| && MeetsBelow(g, byId, cs[j], p, cs[k].admin.id))
    && (forall j: nat :: j < k ==> !MeetsBelow(g, byId, cs[j], p, cs[k].admin.id))
  }

  /** A head above another head has nothing below it that comes earlier. */
  lemma NestedHeadIsFirst(g: Geometry, byId: map<string, Admin>, cs: seq<SplitAdmin>, p: Point, j: nat, k: nat)
    requires Acyclic(byId) && Keyed(byId) && AllCurrent(byId, cs)
    requires j < |cs| && k < |cs| && HeadsNest(g, byId, cs, p, j, k)
    ensures OnlyLaterBelow(g, byId, cs, p, k)
  {
    assert MeetsBelow(g, byId, cs[j], p, cs[k].admin.id);
    forall i: nat | i < k ensures !MeetsBelow(g, byId, cs[i], p, cs[k].admin.id) {
      if MeetsBelow(g, byId, cs[i], p, cs[k].admin.id) {
        var h := HeadBelowToo(g, byId, cs, p, i, k);
      }
    }
  }

  /** Below a candidate there is a head wherever there is a candidate, no later. */
  lemma HeadBelowToo(g: Geometry, byId: map<string, Admin>, cs: seq<SplitAdmin>, p: Point, i: nat, k: nat)
      returns (h: nat)
    requires Acyclic(byId) && Keyed(byId) && AllCurrent(byId, cs)
    requires i < |cs| && k < |cs| && MeetsBelow(g, byId, cs[i], p, cs[k].admin.id)
    ensures h <= i && Head(g, byId, cs, p, h) && IsAbove(byId, cs[h].admin, cs[k].admin.id)
  {
    h := HeadBelow(g, byId, cs, p, i);
    if h != i {
      assert cs[i] in cs;
      AboveIsTransitive(byId, cs[h].admin, cs[i].admin, cs[k].admin.id);
    }
  }

  lemma FirstAboveIsNested(g: Geometry, byId: map<string, Admin>, cs: seq<SplitAdmin>, p: Point, k: nat) returns (j: nat)
    requires Acyclic(byId) && Keyed(byId) && AllCurrent(byId, cs)
    requires k < |cs| && OnlyLaterBelow(g, byId, cs, p, k)
    ensures j < |cs| && HeadsNest(g, byId, cs, p, j, k)
  {
    var i: nat :| i < |cs| && MeetsBelow(g, byId, cs[i], p, cs[k].admin.id);
    j := HeadBelowToo(g, byId, cs, p, i, k);
    if !Head(g, byId, cs, p, k) {
      HeadBelowMeets(g, byId, cs, p, k);
    }
  }

  lemma HeadBelowMeets(g: Geometry, byId: map<string, Admin>, cs: seq<SplitAdmin>, p: Point, k: nat)
    requires k < |cs| && g.intersects(cs[k].boundary, p) && !Head(g, byId, cs, p, k)
    ensures exists h: nat :: h < k && MeetsBelow(g, byId, cs[h], p, cs[k].admin.id)
  {
    var h: nat :| h < k && Head(g, byId, cs, p, h) && IsAbove(byId, cs[h].admin, cs[k].admin.id);
    assert MeetsBelow(g, byId, cs[h], p, cs[k].admin.id);
  }

  // ---------------------------------------------------------------- nesting in terms of the stored regions

  /** A qualifying region with qualifying regions below it, before all of which it sorts. */
  ghost predicate SortsBeforeAllBelow(g: Geometry, t: RTree, byId: map<string, Admin>, p: Point, condition: Admin -> bool,
                                      u: SplitAdmin) {
    && Qualifies(g, t, p, condition, u)
    && (exists s :: QualifiesBelow(g, t, byId, p, condition, s, u))
    && (forall s :: QualifiesBelow(g, t, byId, p, condition, s, u) ==> SortsBefore(Leaves(t), u, s))
  }

  ghost predicate QualifiesBelow(g: Geometry, t: RTree, byId: map<string, Admin>, p: Point, condition: Admin -> bool,
                                 s: SplitAdmin, u: SplitAdmin) {
    Qualifies(g, t, p, condition, s) && IsAbove(byId, s.admin, u.admin.id)
  }

  lemma CandidatesAreCurrent(g: Geometry, t: RTree, byId: map<string, Admin>, p: Point, condition: Admin -> bool)
    requires Indexed(g, t, byId) && EntriesAreCurrent(t, byId)
    ensures AllCurrent(byId, CandidatesIf(t, p, condition))
  {
    var cs := CandidatesIf(t, p, condition);
    forall s | s in cs ensures s in Leaves(t) {
      SortedMembers(Filter(Locate(t, p), condition), s);
      FilterMembers(Locate(t, p), condition, s);
      NothingMissed(g, t, byId, p, s);
    }
  }

  lemma OnlyLaterIsSortsBefore(g: Geometry, t: RTree, byId: map<string, Admin>, p: Point, condition: Admin -> bool, k: nat)
    requires Indexed(g, t, byId) && Acyclic(byId) && UniqueIds(t)
    requires k < |CandidatesIf(t, p, condition)|
    ensures var cs := CandidatesIf(t, p, condition);
            OnlyLaterBelow(g, byId, cs, p, k) <==> SortsBeforeAllBelow(g, t, byId, p, condition, cs[k])
  {
    var cs := CandidatesIf(t, p, condition);
    var u := cs[k];
    assert u in cs;
    UniqueEntriesAreCurrent(g, t, byId);
    CandidatesAreCurrent(g, t, byId, p, condition);
    NotAboveItself(byId, u.admin);
    if g.intersects(u.boundary, p) {
      CandidatesIfMembers(g, t, byId, p, condition, u);
      forall j: nat | j < |cs| && MeetsBelow(g, byId, cs[j], p, u.admin.id)
        ensures QualifiesBelow(g, t, byId, p, condition, cs[j], u) && (k < j <==> SortsBefore(Leaves(t), u, cs[j]))
      {
        assert cs[j] in cs;
        CandidatesIfMembers(g, t, byId, p, condition, cs[j]);
        PositionsIfAreOrder(t, p, condition, k, j);
      }
      forall s | QualifiesBelow(g, t, byId, p, condition, s, u)
        ensures exists j: nat :: j < |cs| && cs[j] == s && MeetsBelow(g, byId, cs[j], p, u.admin.id)
      {
        CandidatesIfMembers(g, t, byId, p, condition, s);
        var j: nat :| j < |cs| && cs[j] == s;
      }
    }
  }

  lemma NestedHasUpperFirst(g: Geometry, t: RTree, byId: map<string, Admin>, p: Point, condition: Admin -> bool)
    requires Indexed(g, t, byId) && Acyclic(byId) && UniqueIds(t) && Nested(g, t, byId, p, condition)
    ensures exists u :: SortsBeforeAllBelow(g, t, byId, p, condition, u)
  {
    var cs := CandidatesIf(t, p, condition);
    NestedIsHeadsNest(g, t, byId, p, condition);
    UniqueEntriesAreCurrent(g, t, byId);
    CandidatesAreCurrent(g, t, byId, p, condition);
    var j: nat, k: nat :| j < |cs| && k < |cs| && HeadsNest(g, byId, cs, p, j, k);
    NestedHeadIsFirst(g, byId, cs, p, j, k);
    OnlyLaterIsSortsBefore(g, t, byId, p, condition, k);
  }

  lemma UpperFirstMakesNested(g: Geometry, t: RTree, byId: map<string, Admin>, p: Point, condition: Admin -> bool, u: SplitAdmin)
    requires Indexed(g, t, byId) && Acyclic(byId) && UniqueIds(t) && SortsBeforeAllBelow(g, t, byId, p, condition, u)
    ensures Nested(g, t, byId, p, condition)
  {
    var cs := CandidatesIf(t, p, condition);
    NestedIsHeadsNest(g, t, byId, p, condition);
    UniqueEntriesAreCurrent(g, t, byId);
    CandidatesAreCurrent(g, t, byId, p, condition);
    CandidatesIfMembers(g, t, byId, p, condition, u);
    var k: nat :| k < |cs| && cs[k] == u;
    OnlyLaterIsSortsBefore(g, t, byId, p, condition, k);
    var j := FirstAboveIsNested(g, byId, cs, p, k);
  }

  /**
   * A lookup returns a chain that starts above the start of another exactly when some qualifying
   * region has qualifying regions below it and sorts before all of them.
   */
  lemma LookupIsNestedExactly(g: Geometry, t: RTree, byId: map<string, Admin>, p: Point, condition: Admin -> bool)
    requires Indexed(g, t, byId) && Acyclic(byId) && UniqueIds(t)
    ensures Nested(g, t, byId, p, condition) <==> exists u :: SortsBeforeAllBelow(g, t, byId, p, condition, u)
  {
    if Nested(g, t, byId, p, condition) {
      NestedHasUpperFirst(g, t, byId, p, condition);
    }
    if u :| SortsBeforeAllBelow(g, t, byId, p, condition, u) {
      UpperFirstMakesNested(g, t, byId, p, condition, u);
    }
  }

  /** Of two stored regions around a common point, one below the other, the lower one always sorts first. */
  ghost predicate LowerSortsFirst(g: Geometry, t: RTree, byId: map<string, Admin>) {
    forall s, u, p :: s in Leaves(t) && u in Leaves(t) && AroundBelow(g, byId, p, s, u) ==> SortsBefore(Leaves(t), s, u)
  }

  /** Both regions are around the point, and the first is below the second. */
  ghost predicate AroundBelow(g: Geometry, byId: map<string, Admin>, p: Point, s: SplitAdmin, u: SplitAdmin) {
    g.intersects(s.boundary, p) && g.intersects(u.boundary, p) && IsAbove(byId, s.admin, u.admin.id)
  }

  /** A lookup for two regions, the upper one sorting first, returns both their chains. */
  lemma UpperFirstIsNested(g: Geometry, t: RTree, byId: map<string, Admin>, p: Point, s: SplitAdmin, u: SplitAdmin)
    requires Indexed(g, t, byId) && Acyclic(byId) && UniqueIds(t)
    requires s in Leaves(t) && u in Leaves(t) && AroundBelow(g, byId, p, s, u) && !SortsBefore(Leaves(t), s, u)
    ensures Nested(g, t, byId, p, a => a == s.admin || a == u.admin)
  {
    var condition := a => a == s.admin || a == u.admin;
    UniqueEntriesAreCurrent(g, t, byId);
    NotAboveItself(byId, u.admin);
    NotBothSortFirst(t, s, u);
    assert QualifiesBelow(g, t, byId, p, condition, s, u);
    forall x | QualifiesBelow(g, t, byId, p, condition, x, u) ensures x == s {
      assert x.admin == s.admin || x.admin == u.admin;
    }
    assert SortsBeforeAllBelow(g, t, byId, p, condition, u);
    LookupIsNestedExactly(g, t, byId, p, condition);
  }

  lemma LowerFirstIsNotNested(g: Geometry, t: RTree, byId: map<string, Admin>, p: Point, condition: Admin -> bool)
    requires Indexed(g, t, byId) && Acyclic(byId) && UniqueIds(t) && LowerSortsFirst(g, t, byId)
    ensures !Nested(g, t, byId, p, condition)
  {
    LookupIsNestedExactly(g, t, byId, p, condition);
    UniqueEntriesAreCurrent(g, t, byId);
    forall u, s | Qualifies(g, t, p, condition, u) && QualifiesBelow(g, t, byId, p, condition, s, u)
      ensures !SortsBefore(Leaves(t), u, s)
    {
      NotAboveItself(byId, u.admin);
      assert AroundBelow(g, byId, p, s, u);
      NotBothSortFirst(t, s, u);
    }
  }

  /** No lookup, for any point and condition, returns nested chains. */
  ghost predicate NeverNested(g: Geometry, t: RTree, byId: map<string, Admin>) {
    forall p, condition :: !Nested(g, t, byId, p, condition)
  }

  lemma NeverNestedSortsLowerFirst(g: Geometry, t: RTree, byId: map<string, Admin>, p: Point, s: SplitAdmin, u: SplitAdmin)
    requires Indexed(g, t, byId) && Acyclic(byId) && UniqueIds(t) && NeverNested(g, t, byId)
    requires s in Leaves(t) && u in Leaves(t) && AroundBelow(g, byId, p, s, u)
    ensures SortsBefore(Leaves(t), s, u)
  {
    if !SortsBefore(Leaves(t), s, u) {
      UpperFirstIsNested(g, t, byId, p, s, u);
    }
  }

  /**
   * No lookup, for any point and condition, returns nested chains exactly when of two regions around
   * a common point the lower one always sorts first.
   */
  lemma NeverNestedExactly(g: Geometry, t: RTree, byId: map<string, Admin>)
    requires Indexed(g, t, byId) && Acyclic(byId) && UniqueIds(t)
    ensures NeverNested(g, t, byId) <==> LowerSortsFirst(g, t, byId)
  {
    if LowerSortsFirst(g, t, byId) {
      forall p, condition ensures !Nested(g, t, byId, p, condition) {
        LowerFirstIsNotNested(g, t, byId, p, condition);
      }
    }
    if NeverNested(g, t, byId) {
      forall s, u, p | s in Leaves(t) && u in Leaves(t) && AroundBelow(g, byId, p, s, u)
        ensures SortsBefore(Leaves(t), s, u)
      {
        NeverNestedSortsLowerFirst(g, t, byId, p, s, u);
      }
    }
  }

  // ---------------------------------------------------------------- increasing zone types

  lemma AboveIsLarger(byId: map<string, Admin>, a: Admin, id: string)
    requires StrictlyIncreasing(byId) && Keyed(byId) && a.id in byId && byId[a.id] == a && IsAbove(byId, a, id)
    ensures id in byId && Rank(byId[id].zoneType) > Rank(a.zoneType)
  {
    IncreasingIsAcyclic(byId);
    var k :| 0 <= k < |Ancestors(byId, a)| && Ancestors(byId, a)[k].id == id;
    AncestorsAreTheWalk(byId, a, k);
    WalkIncreases(byId, a.id, k + 1);
    UpIsStored(byId, a, k + 1);
  }

  /** With zone types that increase upwards and entries that are current, no lookup returns nested chains. */
  lemma HeadsAreNotNested(g: Geometry, t: RTree, byId: map<string, Admin>, p: Point, condition: Admin -> bool)
    requires Indexed(g, t, byId) && StrictlyIncreasing(byId) && EntriesAreCurrent(t, byId)
    ensures !Nested(g, t, byId, p, condition)
  {
    var cs := CandidatesIf(t, p, condition);
    NestedIsHeadsNest(g, t, byId, p, condition);
    CandidatesAreCurrent(g, t, byId, p, condition);
    SortByZoneSorts(Filter(Locate(t, p), condition));
    forall j: nat, k: nat | j < |cs| && k < |cs| ensures !HeadsNest(g, byId, cs, p, j, k) {
      SortedHeadsAreNotNested(g, byId, cs, p, j, k);
    }
  }

  lemma SortedHeadsAreNotNested(g: Geometry, byId: map<string, Admin>, cs: seq<SplitAdmin>, p: Point, j: nat, k: nat)
    requires Keyed(byId) && StrictlyIncreasing(byId) && AllCurrent(byId, cs) && ByZone(cs) && j < |cs| && k < |cs|
    ensures !HeadsNest(g, byId, cs, p, j, k)
  {
    if j >= k && IsAbove(byId, cs[j].admin, cs[k].admin.id) {
      assert cs[j] in cs && cs[k] in cs;
      AboveIsLarger(byId, cs[j].admin, cs[k].admin.id);
    }
  }

  /** A region and one above it, in that order in the tree, both head a chain exactly when the upper one has the smaller kind. */
  lemma PairNestsExactly(g: Geometry, byId: map<string, Admin>, p: Point, child: SplitAdmin, parent: SplitAdmin)
    requires g.intersects(child.boundary, p) && g.intersects(parent.boundary, p)
    requires IsAbove(byId, child.admin, parent.admin.id) && !IsAbove(byId, parent.admin, child.admin.id)
    ensures var cs := SortByZone([child, parent]);
            && |cs| == 2
            && (Head(g, byId, cs, p, 0) && Head(g, byId, cs, p, 1)
                <==> Rank(parent.admin.zoneType) < Rank(child.admin.zoneType))
  {
    assert [child, parent][1..] == [parent] && [parent][1..] == [];
    assert SortByZone([parent]) == SortInsert(parent, []) == [parent];
    var cs := SortByZone([child, parent]);
    assert cs == SortInsert(child, [parent]);
    assert SortInsert(child, [parent][1..]) == [child];
    if Rank(parent.admin.zoneType) < Rank(child.admin.zoneType) {
      assert cs == [parent, child];
    } else {
      assert cs == [child, parent];
      assert Head(g, byId, cs, p, 0);
    }
  }

  /**
   * Unique ids are needed: with "p" inserted as a suburb and again as a city, zone types increase
   * upwards in the id map, and yet the old entry of "p" heads a chain beside that of its child.
   */
  lemma ReinsertedParentIsNested(g: Geometry, p: Point, first: SplitAdmin, child: SplitAdmin, second: SplitAdmin)
    requires g.intersects(first.boundary, p) && g.intersects(child.boundary, p)
    requires first.admin == Admin("p", Some(Suburb), None) && second.admin == Admin("p", Some(City), None)
    requires child.admin == Admin("c", Some(CityDistrict), Some("p"))
    ensures var byId := map["p" := second.admin, "c" := child.admin];
            var cs := SortByZone([first, child, second]);
            && StrictlyIncreasing(byId) && Keyed(byId)
            && cs == [first, child, second]
            && HeadsNest(g, byId, cs, p, 1, 0)
  {
    var byId := map["p" := second.admin, "c" := child.admin];
    var cs := [first, child, second];
    assert cs[1..] == [child, second] && [child, second][1..] == [second] && [second][1..] == [];
    assert SortByZone([second]) == SortInsert(second, []) == [second];
    assert SortByZone([child, second]) == SortInsert(child, [second]) == [child, second];
    assert SortByZone(cs) == SortInsert(first, [child, second]) == cs;
    AncestorsOfOld(byId, first.admin);
    AncestorsOfChild(byId, child.admin, second.admin);
    assert Ancestors(byId, child.admin)[0].id == "p";
  }

  lemma AncestorsOfOld(byId: map<string, Admin>, a: Admin)
    requires Parent(byId, a).None?
    ensures Ancestors(byId, a) == []
  {
    assert Up(byId, a, 1).None?;
    AncestorsUnfold(byId, a);
  }

  lemma AncestorsOfChild(byId: map<string, Admin>, a: Admin, b: Admin)
    requires Parent(byId, a) == Some(b) && Parent(byId, b).None?
    ensures Ancestors(byId, a) == [b]
  {
    AncestorsOfOld(byId, b);
    assert Up(byId, a, 2).None? by {
      assert Up(byId, b, 1).None?;
    }
    AncestorsUnfold(byId, a);
  }
}
