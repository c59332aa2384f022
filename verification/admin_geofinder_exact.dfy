/** Exactly which regions the two lookups return, how often and in which order, in terms of the stored regions. */
module GeoFinderExact {
  import opened Wrappers
  import opened Hierarchy
  import opened SpatialIndex
  import opened GeoFinder
  import opened GeoFinderProperties
  import opened GeoFinderNesting

  // ---------------------------------------------------------------- ancestors of accepted regions

  lemma ReturnedCandidate(g: Geometry, t: RTree, byId: map<string, Admin>, p: Point, k: nat)
    requires k < |Candidates(t, p)| && Returned(g, byId, Candidates(t, p), p, k)
    ensures Candidates(t, p)[k].admin in Found(g, t, byId, p)
  {
    ReturnedMembers(g, byId, Candidates(t, p), p, |Candidates(t, p)|, Candidates(t, p)[k].admin);
  }

  /** A candidate above an earlier accepted one is returned, without any test of its own boundary. */
  lemma AncestorOfAcceptedIsReturned(g: Geometry, t: RTree, byId: map<string, Admin>, p: Point, s: SplitAdmin, u: SplitAdmin)
    requires Indexed(g, t, byId) && AcceptedBefore(g, t, byId, p, s, u) && IsAncestorId(byId, s.admin, u.admin.id)
    ensures u.admin in Found(g, t, byId, p)
  {
    var cs := Candidates(t, p);
    var j: nat, k: nat :| j < k < |cs| && cs[j] == s && cs[k] == u && Accepted(g, byId, cs, p, j);
    assert InHierarchy(g, byId, cs, p, k);
    ReturnedCandidate(g, t, byId, p, k);
  }

  lemma LocatedIsCandidate(t: RTree, p: Point, s: SplitAdmin) returns (k: nat)
    requires Covered(t) && s in Leaves(t) && s.envelope.ContainsPoint(p)
    ensures k < |Candidates(t, p)| && Candidates(t, p)[k] == s
  {
    LocateIsScan(t, p);
    ScanMembers(Leaves(t), p, s);
    SortedMembers(Locate(t, p), s);
    k :| k < |Candidates(t, p)| && Candidates(t, p)[k] == s;
  }

  /** A returned region is accepted, or comes after an accepted one below it. */
  lemma AcceptedAtOrBelow(g: Geometry, t: RTree, byId: map<string, Admin>, p: Point, a: Admin) returns (j: nat, k: nat)
    requires Indexed(g, t, byId) && EntriesAreCurrent(t, byId) && a in Found(g, t, byId, p)
    ensures j <= k < |Candidates(t, p)| && Candidates(t, p)[k].admin == a && Accepted(g, byId, Candidates(t, p), p, j)
    ensures j == k || StoredAbove(byId, Candidates(t, p)[j].admin, a)
  {
    var cs := Candidates(t, p);
    ReturnedMembers(g, byId, cs, p, |cs|, a);
    k :| k < |cs| && Returned(g, byId, cs, p, k) && cs[k].admin == a;
    j := k;
    if !Accepted(g, byId, cs, p, k) {
      j :| 0 <= j < k && Accepted(g, byId, cs, p, j) && IsAncestorId(byId, cs[j].admin, a.id);
      CandidateIsLeaf(t, p, k);
      AncestorIdIsStoredAbove(byId, cs[j].admin, a);
    }
  }

  lemma StoredAboveIsTransitive(byId: map<string, Admin>, a: Admin, b: Admin, n: nat, c: Admin)
    requires (a == b || StoredAbove(byId, a, b)) && n > 0 && Up(byId, b, n) == Some(c)
    ensures StoredAbove(byId, a, c)
  {
    if a != b {
      var m: nat :| m > 0 && Up(byId, a, m) == Some(b);
      UpComposes(byId, a, m, n);
      assert m + n > 0;
    }
  }

  /**
   * Where zone types increase upwards and entries are current, every stored region above a returned
   * one is returned, if its envelope contains the point.
   */
  lemma RegionsAboveAreReturned(g: Geometry, t: RTree, byId: map<string, Admin>, p: Point, a: Admin, n: nat, u: SplitAdmin)
    requires Indexed(g, t, byId) && EntriesAreCurrent(t, byId) && StrictlyIncreasing(byId)
    requires a in Found(g, t, byId, p) && n > 0 && Up(byId, a, n) == Some(u.admin)
    requires u in Leaves(t) && u.envelope.ContainsPoint(p)
    ensures u.admin in Found(g, t, byId, p)
  {
    var cs := Candidates(t, p);
    var j, k := AcceptedAtOrBelow(g, t, byId, p, a);
    var m := LocatedIsCandidate(t, p, u);
    CandidateIsLeaf(t, p, k);
    WalkIncreases(byId, a.id, n);
    LargerComesLater(t, p, k, m);
    StoredAboveIsTransitive(byId, cs[j].admin, a, n, u.admin);
    LaterAboveIsReturned(g, t, byId, p, j, m);
  }

  lemma LargerComesLater(t: RTree, p: Point, k: nat, m: nat)
    requires k < |Candidates(t, p)| && m < |Candidates(t, p)|
    requires Rank(Candidates(t, p)[k].admin.zoneType) < Rank(Candidates(t, p)[m].admin.zoneType)
    ensures k < m
  {
    SortByZoneSorts(Locate(t, p));
  }

  lemma LaterAboveIsReturned(g: Geometry, t: RTree, byId: map<string, Admin>, p: Point, j: nat, m: nat)
    requires Indexed(g, t, byId) && EntriesAreCurrent(t, byId)
    requires j < m < |Candidates(t, p)| && Accepted(g, byId, Candidates(t, p), p, j)
    requires StoredAbove(byId, Candidates(t, p)[j].admin, Candidates(t, p)[m].admin)
    ensures Candidates(t, p)[m].admin in Found(g, t, byId, p)
  {
    CandidateIsLeaf(t, p, m);
    AncestorIdIsStoredAbove(byId, Candidates(t, p)[j].admin, Candidates(t, p)[m].admin);
    assert InHierarchy(g, byId, Candidates(t, p), p, m);
    ReturnedCandidate(g, t, byId, p, m);
  }

  // ---------------------------------------------------------------- exactly what `Get` returns

  /** The stored region is taken on the strength of its own boundary. */
  ghost predicate AcceptedRegion(g: Geometry, t: RTree, byId: map<string, Admin>, p: Point, s: SplitAdmin) {
    exists k: nat :: k < |Candidates(t, p)| && Candidates(t, p)[k] == s && Accepted(g, byId, Candidates(t, p), p, k)
  }

  /** The region or a stored one above it has the zone type. */
  ghost predicate BringsType(byId: map<string, Admin>, a: Admin, z: Option<ZoneType>) {
    z.Some? && (a.zoneType == z || exists b :: StoredAbove(byId, a, b) && b.zoneType == z)
  }

  lemma SharesTypeIsBringsType(byId: map<string, Admin>, a: Admin, z: Option<ZoneType>)
    requires Keyed(byId)
    ensures SharesType(byId, a, z) <==> BringsType(byId, a, z)
  {
    if z.Some? && a.zoneType != z {
      if id :| IsAncestorId(byId, a, id) && id in byId && byId[id].zoneType == z {
        AncestorIdIsStoredAbove(byId, a, byId[id]);
      }
      if b :| StoredAbove(byId, a, b) && b.zoneType == z {
        var n: nat :| n > 0 && Up(byId, a, n) == Some(b);
        UpIsStored(byId, a, n);
        AncestorIdIsStoredAbove(byId, a, b);
      }
    }
  }

  /** An earlier accepted region makes no room for another. */
  ghost predicate Precludes(g: Geometry, t: RTree, byId: map<string, Admin>, p: Point, s': SplitAdmin, s: SplitAdmin) {
    && AcceptedRegion(g, t, byId, p, s') && SortsBefore(Leaves(t), s', s)
    && (StoredAbove(byId, s'.admin, s.admin) || BringsType(byId, s'.admin, s.admin.zoneType))
  }

  lemma AcceptedIsRegion(g: Geometry, t: RTree, byId: map<string, Admin>, p: Point, k: nat)
    requires Indexed(g, t, byId) && UniqueIds(t) && k < |Candidates(t, p)|
    ensures AcceptedRegion(g, t, byId, p, Candidates(t, p)[k]) <==> Accepted(g, byId, Candidates(t, p), p, k)
  {
    var cs := Candidates(t, p);
    if m: nat :| m < |cs| && cs[m] == cs[k] && Accepted(g, byId, cs, p, m) {
      PositionsAreOrder(t, p, m, k);
      PositionsAreOrder(t, p, k, m);
      NotBeforeItself(t, cs[k]);
    }
  }

  lemma CandidateIsStored(g: Geometry, t: RTree, byId: map<string, Admin>, p: Point, k: nat)
    requires Indexed(g, t, byId) && UniqueIds(t) && k < |Candidates(t, p)|
    ensures var a := Candidates(t, p)[k].admin; a.id in byId && byId[a.id] == a
  {
    UniqueEntriesAreCurrent(g, t, byId);
    CandidateIsLeaf(t, p, k);
  }

  lemma PrecludesIsBefore(g: Geometry, t: RTree, byId: map<string, Admin>, p: Point, k: nat)
    requires Indexed(g, t, byId) && UniqueIds(t) && k < |Candidates(t, p)|
    ensures (exists s' :: Precludes(g, t, byId, p, s', Candidates(t, p)[k]))
       <==> exists j: nat :: j < k && Accepted(g, byId, Candidates(t, p), p, j)
              && (IsAncestorId(byId, Candidates(t, p)[j].admin, Candidates(t, p)[k].admin.id)
                  || SharesType(byId, Candidates(t, p)[j].admin, Candidates(t, p)[k].admin.zoneType))
  {
    var cs := Candidates(t, p);
    var s := cs[k];
    CandidateIsStored(g, t, byId, p, k);
    forall j: nat | j < |cs|
      ensures Precludes(g, t, byId, p, cs[j], s)
         <==> j < k && Accepted(g, byId, cs, p, j)
              && (IsAncestorId(byId, cs[j].admin, s.admin.id) || SharesType(byId, cs[j].admin, s.admin.zoneType))
    {
      AcceptedIsRegion(g, t, byId, p, j);
      PositionsAreOrder(t, p, j, k);
      AncestorIdIsStoredAbove(byId, cs[j].admin, s.admin);
      SharesTypeIsBringsType(byId, cs[j].admin, s.admin.zoneType);
    }
  }

  /**
   * A stored region is taken on the strength of its own boundary exactly when it contains the point
   * and no region so taken that sorts before it is below it, or brings its zone type.
   */
  lemma AcceptedRegionExactly(g: Geometry, t: RTree, byId: map<string, Admin>, p: Point, s: SplitAdmin)
    requires Indexed(g, t, byId) && UniqueIds(t) && s in Leaves(t)
    ensures AcceptedRegion(g, t, byId, p, s)
       <==> g.contains(s.boundary, p) && forall s' :: !Precludes(g, t, byId, p, s', s)
  {
    if g.contains(s.boundary, p) {
      var k := LocatedIsCandidate(t, p, s);
      AcceptedIsRegion(g, t, byId, p, k);
      PrecludesIsBefore(g, t, byId, p, k);
    }
    if AcceptedRegion(g, t, byId, p, s) {
      var k: nat :| k < |Candidates(t, p)| && Candidates(t, p)[k] == s && Accepted(g, byId, Candidates(t, p), p, k);
      PrecludesIsBefore(g, t, byId, p, k);
    }
  }

  /** The region is above one taken on the strength of its own boundary that sorts before it. */
  ghost predicate AboveAccepted(g: Geometry, t: RTree, byId: map<string, Admin>, p: Point, s: SplitAdmin) {
    exists s' :: AcceptedRegion(g, t, byId, p, s') && SortsBefore(Leaves(t), s', s) && StoredAbove(byId, s'.admin, s.admin)
  }

  lemma InHierarchyIsAbove(g: Geometry, t: RTree, byId: map<string, Admin>, p: Point, k: nat)
    requires Indexed(g, t, byId) && UniqueIds(t) && k < |Candidates(t, p)|
    ensures InHierarchy(g, byId, Candidates(t, p), p, k) <==> AboveAccepted(g, t, byId, p, Candidates(t, p)[k])
  {
    var cs := Candidates(t, p);
    CandidateIsStored(g, t, byId, p, k);
    forall j: nat | j < |cs|
      ensures j < k && Accepted(g, byId, cs, p, j) && IsAncestorId(byId, cs[j].admin, cs[k].admin.id)
         <==> AcceptedRegion(g, t, byId, p, cs[j]) && SortsBefore(Leaves(t), cs[j], cs[k]) && StoredAbove(byId, cs[j].admin, cs[k].admin)
    {
      AcceptedIsRegion(g, t, byId, p, j);
      PositionsAreOrder(t, p, j, k);
      AncestorIdIsStoredAbove(byId, cs[j].admin, cs[k].admin);
    }
  }

  /**
   * A stored region is returned exactly when it is taken on the strength of its own boundary, or its
   * envelope contains the point and it is above one so taken that sorts before it.
   */
  lemma RegionReturnedExactly(g: Geometry, t: RTree, byId: map<string, Admin>, p: Point, s: SplitAdmin)
    requires Indexed(g, t, byId) && UniqueIds(t) && s in Leaves(t)
    ensures s.admin in Found(g, t, byId, p)
       <==> || AcceptedRegion(g, t, byId, p, s)
            || (s.envelope.ContainsPoint(p) && AboveAccepted(g, t, byId, p, s))
  {
    var cs := Candidates(t, p);
    if s.admin in Found(g, t, byId, p) {
      ReturnedMembers(g, byId, cs, p, |cs|, s.admin);
      var k: nat :| k < |cs| && Returned(g, byId, cs, p, k) && cs[k].admin == s.admin;
      CandidateIsLeaf(t, p, k);
      assert cs[k] == s;
      NothingMissed(g, t, byId, p, s);
      SortedMembers(Locate(t, p), s);
      AcceptedIsRegion(g, t, byId, p, k);
      InHierarchyIsAbove(g, t, byId, p, k);
    }
    if AcceptedRegion(g, t, byId, p, s) || (s.envelope.ContainsPoint(p) && AboveAccepted(g, t, byId, p, s)) {
      var k := PositionOf(g, t, byId, p, s);
      AcceptedIsRegion(g, t, byId, p, k);
      InHierarchyIsAbove(g, t, byId, p, k);
      ReturnedCandidate(g, t, byId, p, k);
    }
  }

  lemma PositionOf(g: Geometry, t: RTree, byId: map<string, Admin>, p: Point, s: SplitAdmin) returns (k: nat)
    requires Covered(t) && s in Leaves(t) && (AcceptedRegion(g, t, byId, p, s) || s.envelope.ContainsPoint(p))
    ensures k < |Candidates(t, p)| && Candidates(t, p)[k] == s
  {
    if s.envelope.ContainsPoint(p) {
      k := LocatedIsCandidate(t, p, s);
    } else {
      k :| k < |Candidates(t, p)| && Candidates(t, p)[k] == s && Accepted(g, byId, Candidates(t, p), p, k);
    }
  }

  /** No region is returned twice. */
  lemma ResultIsDistinct(g: Geometry, t: RTree, byId: map<string, Admin>, p: Point, i: nat, j: nat)
    requires Indexed(g, t, byId) && UniqueIds(t) && i < j < |Found(g, t, byId, p)|
    ensures Found(g, t, byId, p)[i].id != Found(g, t, byId, p)[j].id
  {
    var cs := Candidates(t, p);
    var k := EntryStandsFor(g, byId, cs, p, |cs|, i);
    var m := EntryStandsFor(g, byId, cs, p, |cs|, j);
    EntriesInOrder(g, byId, cs, p, i, j, k, m);
    StandsForIsEntry(g, byId, cs, p, i, k);
    StandsForIsEntry(g, byId, cs, p, j, m);
    CandidateIsLeaf(t, p, k);
    CandidateIsLeaf(t, p, m);
    PositionsAreOrder(t, p, k, m);
    NotBeforeItself(t, cs[k]);
  }

  // ---------------------------------------------------------------- which chains, how many, in which order

  lemma {:induction false} ChainHead(g: Geometry, byId: map<string, Admin>, cs: seq<SplitAdmin>, p: Point, n: nat, i: nat)
      returns (k: nat)
    requires n <= |cs| && i < |ChainsOf(g, byId, cs, p, n)|
    ensures k < n && Head(g, byId, cs, p, k) && |ChainsOf(g, byId, cs, p, k)| == i
    ensures var chain := ChainsOf(g, byId, cs, p, n)[i]; chain != [] && chain[0] == cs[k].admin
    decreases n
  {
    if i < |ChainsOf(g, byId, cs, p, n - 1)| {
      k := ChainHead(g, byId, cs, p, n - 1, i);
    } else {
      k := n - 1;
    }
  }

  lemma {:induction false} ChainsGrow(g: Geometry, byId: map<string, Admin>, cs: seq<SplitAdmin>, p: Point, k: nat, m: nat)
    requires k <= m <= |cs|
    ensures |ChainsOf(g, byId, cs, p, k)| <= |ChainsOf(g, byId, cs, p, m)|
    decreases m
  {
    if k < m {
      ChainsGrow(g, byId, cs, p, k, m - 1);
    }
  }

  /** The chain number `i` starts at the stored region `s`, which qualifies. */
  ghost predicate StartsAt(g: Geometry, t: RTree, byId: map<string, Admin>, p: Point, condition: Admin -> bool, i: nat, s: SplitAdmin) {
    var chains := ChainsResult(g, t, byId, p, condition);
    Qualifies(g, t, p, condition, s) && i < |chains| && chains[i] != [] && chains[i][0] == s.admin
  }

  /**
   * Two chains start at qualifying regions of which the first sorts before the second: it has the
   * smaller zone type, or the same and stands earlier in the tree.
   */
  lemma ChainsStartInOrder(g: Geometry, t: RTree, byId: map<string, Admin>, p: Point, condition: Admin -> bool, i: nat, j: nat)
    requires Indexed(g, t, byId) && i < j < |ChainsResult(g, t, byId, p, condition)|
    ensures exists s, u :: StartsAt(g, t, byId, p, condition, i, s) && StartsAt(g, t, byId, p, condition, j, u)
                           && SortsBefore(Leaves(t), s, u)
  {
    var cs := CandidatesIf(t, p, condition);
    var k := ChainHead(g, byId, cs, p, |cs|, i);
    var m := ChainHead(g, byId, cs, p, |cs|, j);
    if m <= k {
      ChainsGrow(g, byId, cs, p, m, k);
    }
    assert cs[k] in cs && cs[m] in cs;
    CandidatesIfMembers(g, t, byId, p, condition, cs[k]);
    CandidatesIfMembers(g, t, byId, p, condition, cs[m]);
    CandidatesIfInOrder(t, p, condition, k, m);
    assert StartsAt(g, t, byId, p, condition, i, cs[k]) && StartsAt(g, t, byId, p, condition, j, cs[m]);
  }

  /** With unique ids, no two chains start at the same region. */
  lemma ChainsStartDistinct(g: Geometry, t: RTree, byId: map<string, Admin>, p: Point, condition: Admin -> bool, i: nat, j: nat)
    requires Indexed(g, t, byId) && UniqueIds(t) && i < j < |ChainsResult(g, t, byId, p, condition)|
    ensures var chains := ChainsResult(g, t, byId, p, condition);
            chains[i] != [] && chains[j] != [] && chains[i][0].id != chains[j][0].id
  {
    ChainsStartInOrder(g, t, byId, p, condition, i, j);
    var s, u :| StartsAt(g, t, byId, p, condition, i, s) && StartsAt(g, t, byId, p, condition, j, u)
                && SortsBefore(Leaves(t), s, u);
    NotBeforeItself(t, s);
  }

  /** Some chain starts at the region. */
  ghost predicate StartsChain(g: Geometry, t: RTree, byId: map<string, Admin>, p: Point, condition: Admin -> bool, a: Admin) {
    exists chain: seq<Admin> :: chain in ChainsResult(g, t, byId, p, condition) && chain != [] && chain[0] == a
  }

  /**
   * A stored region starts a chain exactly when it qualifies and no qualifying region below it sorts
   * before it.
   */
  lemma RegionStartsChainExactly(g: Geometry, t: RTree, byId: map<string, Admin>, p: Point, condition: Admin -> bool, s: SplitAdmin)
    requires Indexed(g, t, byId) && Acyclic(byId) && UniqueIds(t) && s in Leaves(t)
    ensures StartsChain(g, t, byId, p, condition, s.admin)
       <==> && Qualifies(g, t, p, condition, s)
            && forall s' :: QualifiesBelow(g, t, byId, p, condition, s', s) ==> !SortsBefore(Leaves(t), s', s)
  {
    var cs := CandidatesIf(t, p, condition);
    if chain: seq<Admin> :| chain in ChainsResult(g, t, byId, p, condition) && chain != [] && chain[0] == s.admin {
      var k := HeadPosition(g, byId, cs, p, chain);
      assert cs[k] in cs;
      CandidatesIfMembers(g, t, byId, p, condition, cs[k]);
      assert cs[k] == s;
      HeadHasNothingBelowBefore(g, t, byId, p, condition, k);
    }
    if Qualifies(g, t, p, condition, s)
       && forall s' :: QualifiesBelow(g, t, byId, p, condition, s', s) ==> !SortsBefore(Leaves(t), s', s)
    {
      CandidatesIfMembers(g, t, byId, p, condition, s);
      var k: nat :| k < |cs| && cs[k] == s;
      NothingBelowBeforeIsHead(g, t, byId, p, condition, k);
      var chain := HeadStartsChain(g, byId, cs, p, k);
    }
  }

  lemma HeadHasNothingBelowBefore(g: Geometry, t: RTree, byId: map<string, Admin>, p: Point, condition: Admin -> bool, k: nat)
    requires Indexed(g, t, byId) && Acyclic(byId) && UniqueIds(t) && k < |CandidatesIf(t, p, condition)|
    requires Head(g, byId, CandidatesIf(t, p, condition), p, k)
    ensures var s := CandidatesIf(t, p, condition)[k];
            forall s' :: QualifiesBelow(g, t, byId, p, condition, s', s) ==> !SortsBefore(Leaves(t), s', s)
  {
    var cs := CandidatesIf(t, p, condition);
    UniqueEntriesAreCurrent(g, t, byId);
    CandidatesAreCurrent(g, t, byId, p, condition);
    forall s' | QualifiesBelow(g, t, byId, p, condition, s', cs[k]) ensures !SortsBefore(Leaves(t), s', cs[k]) {
      CandidatesIfMembers(g, t, byId, p, condition, s');
      var i: nat :| i < |cs| && cs[i] == s';
      PositionsIfAreOrder(t, p, condition, i, k);
      if i < k {
        var h := HeadBelowToo(g, byId, cs, p, i, k);
      }
    }
  }

  lemma NothingBelowBeforeIsHead(g: Geometry, t: RTree, byId: map<string, Admin>, p: Point, condition: Admin -> bool, k: nat)
    requires Indexed(g, t, byId) && UniqueIds(t) && k < |CandidatesIf(t, p, condition)|
    requires var s := CandidatesIf(t, p, condition)[k];
             && Qualifies(g, t, p, condition, s)
             && forall s' :: QualifiesBelow(g, t, byId, p, condition, s', s) ==> !SortsBefore(Leaves(t), s', s)
    ensures Head(g, byId, CandidatesIf(t, p, condition), p, k)
  {
    var cs := CandidatesIf(t, p, condition);
    forall j: nat | j < k && Head(g, byId, cs, p, j) ensures !IsAbove(byId, cs[j].admin, cs[k].admin.id) {
      assert cs[j] in cs;
      CandidatesIfMembers(g, t, byId, p, condition, cs[j]);
      CandidatesIfInOrder(t, p, condition, j, k);
      var low, high := cs[j], cs[k];
      assert IsAbove(byId, low.admin, high.admin.id) ==> QualifiesBelow(g, t, byId, p, condition, low, high);
    }
  }

  /** The regions above another, by the list of its ancestors, are those that the walk up meets. */
  lemma AboveIsStoredAbove(byId: map<string, Admin>, a: Admin, b: Admin)
    requires Acyclic(byId) && Keyed(byId) && b.id in byId && byId[b.id] == b
    ensures IsAbove(byId, a, b.id) <==> StoredAbove(byId, a, b)
  {
    if IsAbove(byId, a, b.id) {
      var n := AboveIsStored(byId, a, b.id);
    }
    if StoredAbove(byId, a, b) {
      var n: nat :| n > 0 && Up(byId, a, n) == Some(b);
      WalkIsAbove(byId, a, n);
    }
  }
}
