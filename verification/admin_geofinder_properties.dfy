/** What the two lookups of the region finder promise about the regions they return. */
module GeoFinderProperties {
  import opened Wrappers
  import opened Hierarchy
  import opened SpatialIndex
  import opened GeoFinder

  // ---------------------------------------------------------------- the order of the candidates

  /** The candidates stand in the order of the sort, for equal zone types in that of the tree. */
  lemma CandidatesIfInOrder(t: RTree, p: Point, condition: Admin -> bool, j: nat, k: nat)
    requires Covered(t) && j < k < |CandidatesIf(t, p, condition)|
    ensures SortsBefore(Leaves(t), CandidatesIf(t, p, condition)[j], CandidatesIf(t, p, condition)[k])
  {
    var cs := CandidatesIf(t, p, condition);
    PositionsAreBefore(cs, j, k);
    SortedAsOrdered(Filter(Locate(t, p), condition), cs[j], cs[k]);
    LocateIsScan(t, p);
    if Before(Filter(Locate(t, p), condition), cs[j], cs[k]) {
      FilterKeepsNoOtherOrder(Locate(t, p), condition, cs[j], cs[k]);
      ScanKeepsNoOtherOrder(Leaves(t), p, cs[j], cs[k]);
    }
  }

  lemma CandidatesInOrder(t: RTree, p: Point, j: nat, k: nat)
    requires Covered(t) && j < k < |Candidates(t, p)|
    ensures SortsBefore(Leaves(t), Candidates(t, p)[j], Candidates(t, p)[k])
  {
    var cs := Candidates(t, p);
    PositionsAreBefore(cs, j, k);
    SortedAsOrdered(Locate(t, p), cs[j], cs[k]);
    LocateIsScan(t, p);
    if Before(Locate(t, p), cs[j], cs[k]) {
      ScanKeepsNoOtherOrder(Leaves(t), p, cs[j], cs[k]);
    }
  }

  lemma NotBothSortFirst(t: RTree, s: SplitAdmin, u: SplitAdmin)
    requires UniqueIds(t) && s in Leaves(t) && u in Leaves(t) && s != u
    ensures SortsBefore(Leaves(t), s, u) <==> !SortsBefore(Leaves(t), u, s)
  {
    BeforeTotal(Leaves(t), s, u);
    if Before(Leaves(t), s, u) {
      BeforeAsymmetric(Leaves(t), s, u);
    }
  }

  lemma NotBeforeItself(t: RTree, s: SplitAdmin)
    requires UniqueIds(t)
    ensures !SortsBefore(Leaves(t), s, s)
  {
    if Before(Leaves(t), s, s) {
      BeforeAsymmetric(Leaves(t), s, s);
    }
  }

  /** With unique ids, the order of two candidates is exactly that of the sort. */
  lemma PositionsIfAreOrder(t: RTree, p: Point, condition: Admin -> bool, j: nat, k: nat)
    requires Covered(t) && UniqueIds(t)
    requires j < |CandidatesIf(t, p, condition)| && k < |CandidatesIf(t, p, condition)|
    ensures var cs := CandidatesIf(t, p, condition); j < k <==> SortsBefore(Leaves(t), cs[j], cs[k])
  {
    var cs := CandidatesIf(t, p, condition);
    NotBeforeItself(t, cs[j]);
    if j < k {
      CandidatesIfInOrder(t, p, condition, j, k);
    } else if k < j {
      CandidatesIfInOrder(t, p, condition, k, j);
      NotBothFirst(t, cs[j], cs[k]);
    }
  }

  lemma PositionsAreOrder(t: RTree, p: Point, j: nat, k: nat)
    requires Covered(t) && UniqueIds(t) && j < |Candidates(t, p)| && k < |Candidates(t, p)|
    ensures var cs := Candidates(t, p); j < k <==> SortsBefore(Leaves(t), cs[j], cs[k])
  {
    var cs := Candidates(t, p);
    NotBeforeItself(t, cs[j]);
    if j < k {
      CandidatesInOrder(t, p, j, k);
    } else if k < j {
      CandidatesInOrder(t, p, k, j);
      NotBothFirst(t, cs[j], cs[k]);
    }
  }

  lemma NotBothFirst(t: RTree, s: SplitAdmin, u: SplitAdmin)
    requires UniqueIds(t) && SortsBefore(Leaves(t), u, s)
    ensures !SortsBefore(Leaves(t), s, u)
  {
    if Before(Leaves(t), u, s) {
      BeforeAsymmetric(Leaves(t), u, s);
    }
  }

  // ---------------------------------------------------------------- `Get`

  /** What `Get` returns for a point. */
  ghost function Found(g: Geometry, t: RTree, byId: map<string, Admin>, p: Point): seq<Admin> {
    ReturnedOf(g, byId, Candidates(t, p), p, |Candidates(t, p)|)
  }

  lemma {:induction false} ReturnedMembers(g: Geometry, byId: map<string, Admin>, cs: seq<SplitAdmin>, p: Point, n: nat, a: Admin)
    requires n <= |cs|
    ensures a in ReturnedOf(g, byId, cs, p, n) <==> exists k: nat :: k < n && Returned(g, byId, cs, p, k) && cs[k].admin == a
    decreases n
  {
    if n > 0 {
      ReturnedMembers(g, byId, cs, p, n - 1, a);
      if Returned(g, byId, cs, p, n - 1) && cs[n - 1].admin == a {
        assert n - 1 < n;
      }
    }
  }

  lemma AcceptedIsReturned(g: Geometry, byId: map<string, Admin>, cs: seq<SplitAdmin>, p: Point, j: nat)
    requires j < |cs| && Accepted(g, byId, cs, p, j)
    ensures cs[j].admin in ReturnedOf(g, byId, cs, p, |cs|)
  {
    assert Returned(g, byId, cs, p, j);
    ReturnedMembers(g, byId, cs, p, |cs|, cs[j].admin);
  }

  lemma CandidateIsLeaf(t: RTree, p: Point, k: nat)
    requires Covered(t) && k < |Candidates(t, p)|
    ensures Candidates(t, p)[k] in Leaves(t)
  {
    var s := Candidates(t, p)[k];
    SortedMembers(Locate(t, p), s);
    LocateIsScan(t, p);
    ScanMembers(Leaves(t), p, s);
  }

  /** A stored region whose boundary contains the point and that is itself returned. */
  ghost predicate ContainingResult(g: Geometry, t: RTree, byId: map<string, Admin>, p: Point, s: SplitAdmin) {
    s in Leaves(t) && g.contains(s.boundary, p) && s.admin in Found(g, t, byId, p)
  }

  /** The region was taken on the strength of its own boundary, and stands before `s` among the candidates. */
  ghost predicate AcceptedBefore(g: Geometry, t: RTree, byId: map<string, Admin>, p: Point, s': SplitAdmin, s: SplitAdmin) {
    var cs := Candidates(t, p);
    exists j: nat, k: nat :: j < k < |cs| && cs[j] == s' && cs[k] == s && Accepted(g, byId, cs, p, j)
  }

  /**
   * A stored region that contains the point is returned, unless one that comes earlier was taken on
   * the strength of its own boundary and brings the same zone type, its own or that of a region
   * above it.
   */
  lemma ContainingRegionReturnedOrReplaced(g: Geometry, t: RTree, byId: map<string, Admin>, p: Point, s: SplitAdmin)
    requires Indexed(g, t, byId) && s in Leaves(t) && g.contains(s.boundary, p)
    ensures s.admin in Found(g, t, byId, p)
         || exists s' :: AcceptedBefore(g, t, byId, p, s', s) && ContainingResult(g, t, byId, p, s')
                         && SharesType(byId, s'.admin, s.admin.zoneType)
  {
    var cs := Candidates(t, p);
    NothingMissed(g, t, byId, p, s);
    var k: nat :| k < |cs| && cs[k] == s;
    if Returned(g, byId, cs, p, k) {
      ReturnedMembers(g, byId, cs, p, |cs|, s.admin);
    } else {
      var j: nat :| j < k && Accepted(g, byId, cs, p, j) && SharesType(byId, cs[j].admin, s.admin.zoneType);
      AcceptedIsReturned(g, byId, cs, p, j);
      CandidateIsLeaf(t, p, j);
      assert ContainingResult(g, t, byId, p, cs[j]);
    }
  }

  /** A returned region contains the point, or is an ancestor of a returned region that contains it. */
  lemma ReturnedRegionIsJustified(g: Geometry, t: RTree, byId: map<string, Admin>, p: Point, a: Admin)
    requires Indexed(g, t, byId) && a in Found(g, t, byId, p)
    ensures (exists s :: ContainingResult(g, t, byId, p, s) && s.admin == a)
         || (exists s :: ContainingResult(g, t, byId, p, s) && IsAncestorId(byId, s.admin, a.id))
  {
    var cs := Candidates(t, p);
    ReturnedMembers(g, byId, cs, p, |cs|, a);
    var k: nat :| k < |cs| && Returned(g, byId, cs, p, k) && cs[k].admin == a;
    var j := k;
    if !Accepted(g, byId, cs, p, k) {
      j :| 0 <= j < k && Accepted(g, byId, cs, p, j) && IsAncestorId(byId, cs[j].admin, a.id);
    }
    AcceptedIsReturned(g, byId, cs, p, j);
    CandidateIsLeaf(t, p, j);
    assert ContainingResult(g, t, byId, p, cs[j]);
  }

  /** The entry number `i` of the result is the candidate number `k`. */
  ghost predicate StandsFor(g: Geometry, byId: map<string, Admin>, cs: seq<SplitAdmin>, p: Point, i: nat, k: nat) {
    k < |cs| && Returned(g, byId, cs, p, k) && |ReturnedOf(g, byId, cs, p, k)| == i
  }

  lemma {:induction false} ReturnedGrows(g: Geometry, byId: map<string, Admin>, cs: seq<SplitAdmin>, p: Point, k: nat, m: nat)
    requires k <= m <= |cs|
    ensures ReturnedOf(g, byId, cs, p, k) <= ReturnedOf(g, byId, cs, p, m)
    decreases m
  {
    if k < m {
      ReturnedGrows(g, byId, cs, p, k, m - 1);
    }
  }

  lemma StandsForIsEntry(g: Geometry, byId: map<string, Admin>, cs: seq<SplitAdmin>, p: Point, i: nat, k: nat)
    requires StandsFor(g, byId, cs, p, i, k)
    ensures i < |ReturnedOf(g, byId, cs, p, |cs|)| && ReturnedOf(g, byId, cs, p, |cs|)[i] == cs[k].admin
  {
    ReturnedGrows(g, byId, cs, p, k + 1, |cs|);
    assert ReturnedOf(g, byId, cs, p, k + 1)[i] == cs[k].admin;
  }

  lemma {:induction false} EntryStandsFor(g: Geometry, byId: map<string, Admin>, cs: seq<SplitAdmin>, p: Point, n: nat, i: nat)
      returns (k: nat)
    requires n <= |cs| && i < |ReturnedOf(g, byId, cs, p, n)|
    ensures k < n && StandsFor(g, byId, cs, p, i, k)
    decreases n
  {
    if i < |ReturnedOf(g, byId, cs, p, n - 1)| {
      k := EntryStandsFor(g, byId, cs, p, n - 1, i);
    } else {
      k := n - 1;
    }
  }

  /** Entries stand for candidates in their order. */
  lemma EntriesInOrder(g: Geometry, byId: map<string, Admin>, cs: seq<SplitAdmin>, p: Point, i: nat, j: nat, k: nat, m: nat)
    requires i < j && StandsFor(g, byId, cs, p, i, k) && StandsFor(g, byId, cs, p, j, m)
    ensures k < m
  {
    if m <= k {
      ReturnedGrows(g, byId, cs, p, m, k);
    }
  }

  /** An accepted region of a zone type leaves no room for a later one: that could only be in the hierarchy. */
  lemma LaterOfTypeIsInHierarchy(g: Geometry, byId: map<string, Admin>, cs: seq<SplitAdmin>, p: Point, k: nat, m: nat)
    requires k < m < |cs| && Returned(g, byId, cs, p, k) && Returned(g, byId, cs, p, m)
    requires cs[k].admin.zoneType.Some? && cs[k].admin.zoneType == cs[m].admin.zoneType
    requires cs[k].admin.id in byId && byId[cs[k].admin.id] == cs[k].admin
    ensures InHierarchy(g, byId, cs, p, m)
  {
    if Accepted(g, byId, cs, p, k) {
      assert SharesType(byId, cs[k].admin, cs[m].admin.zoneType);
    } else {
      var j: nat :| j < k && Accepted(g, byId, cs, p, j) && IsAncestorId(byId, cs[j].admin, cs[k].admin.id);
      assert SharesType(byId, cs[j].admin, cs[m].admin.zoneType);
    }
  }

  /** The region is returned as an ancestor of a returned region that contains the point. */
  ghost predicate ReturnedAsAncestor(g: Geometry, t: RTree, byId: map<string, Admin>, p: Point, a: Admin) {
    exists s :: ContainingResult(g, t, byId, p, s) && IsAncestorId(byId, s.admin, a.id)
  }

  lemma InHierarchyIsReturned(g: Geometry, t: RTree, byId: map<string, Admin>, p: Point, k: nat)
    requires Covered(t) && k < |Candidates(t, p)| && InHierarchy(g, byId, Candidates(t, p), p, k)
    ensures ReturnedAsAncestor(g, t, byId, p, Candidates(t, p)[k].admin)
  {
    var cs := Candidates(t, p);
    var h: nat :| h < k && Accepted(g, byId, cs, p, h) && IsAncestorId(byId, cs[h].admin, cs[k].admin.id);
    AcceptedIsReturned(g, byId, cs, p, h);
    CandidateIsLeaf(t, p, h);
    assert ContainingResult(g, t, byId, p, cs[h]);
  }

  /** The entry number `i` of the result was taken on the strength of its own boundary. */
  ghost predicate AcceptedEntry(g: Geometry, t: RTree, byId: map<string, Admin>, p: Point, i: nat) {
    var cs := Candidates(t, p);
    exists k: nat :: StandsFor(g, byId, cs, p, i, k) && Accepted(g, byId, cs, p, k)
  }

  lemma AcceptedEntriesDistinct(g: Geometry, t: RTree, byId: map<string, Admin>, p: Point, i: nat, j: nat)
    requires var res := Found(g, t, byId, p);
             i < j < |res| && res[i].zoneType.Some? && res[i].zoneType == res[j].zoneType
    ensures !(AcceptedEntry(g, t, byId, p, i) && AcceptedEntry(g, t, byId, p, j))
  {
    if AcceptedEntry(g, t, byId, p, i) && AcceptedEntry(g, t, byId, p, j) {
      var cs := Candidates(t, p);
      var k: nat :| StandsFor(g, byId, cs, p, i, k) && Accepted(g, byId, cs, p, k);
      var m: nat :| StandsFor(g, byId, cs, p, j, m) && Accepted(g, byId, cs, p, m);
      EntriesInOrder(g, byId, cs, p, i, j, k, m);
      StandsForIsEntry(g, byId, cs, p, i, k);
      StandsForIsEntry(g, byId, cs, p, j, m);
      assert SharesType(byId, cs[k].admin, cs[m].admin.zoneType);
    }
  }

  /**
   * Two regions returned on the strength of their own boundary have distinct zone types. Any other
   * entry is returned as an ancestor of a returned region that contains the point; where entries are
   * current, of two with one zone type the later one is such.
   */
  lemma ReturnedTypesDistinct(g: Geometry, t: RTree, byId: map<string, Admin>, p: Point, i: nat, j: nat)
    requires Indexed(g, t, byId)
    requires var res := Found(g, t, byId, p);
             i < j < |res| && res[i].zoneType.Some? && res[i].zoneType == res[j].zoneType
    ensures !(AcceptedEntry(g, t, byId, p, i) && AcceptedEntry(g, t, byId, p, j))
    ensures var res := Found(g, t, byId, p);
            && (AcceptedEntry(g, t, byId, p, i) || ReturnedAsAncestor(g, t, byId, p, res[i]))
            && (AcceptedEntry(g, t, byId, p, j) || ReturnedAsAncestor(g, t, byId, p, res[j]))
    ensures EntriesAreCurrent(t, byId) ==> ReturnedAsAncestor(g, t, byId, p, Found(g, t, byId, p)[j])
  {
    var cs := Candidates(t, p);
    var k := EntryStandsFor(g, byId, cs, p, |cs|, i);
    var m := EntryStandsFor(g, byId, cs, p, |cs|, j);
    EntriesInOrder(g, byId, cs, p, i, j, k, m);
    StandsForIsEntry(g, byId, cs, p, i, k);
    StandsForIsEntry(g, byId, cs, p, j, m);
    AcceptedEntriesDistinct(g, t, byId, p, i, j);
    if InHierarchy(g, byId, cs, p, k) {
      InHierarchyIsReturned(g, t, byId, p, k);
    }
    if InHierarchy(g, byId, cs, p, m) {
      InHierarchyIsReturned(g, t, byId, p, m);
    }
    if EntriesAreCurrent(t, byId) {
      CandidateIsLeaf(t, p, k);
      LaterOfTypeIsInHierarchy(g, byId, cs, p, k, m);
      InHierarchyIsReturned(g, t, byId, p, m);
    }
  }

  ghost predicate RankedUpTo(res: seq<Admin>, r: nat) {
    forall i, j :: 0 <= i <= j < |res| ==> Rank(res[i].zoneType) <= Rank(res[j].zoneType) <= r
  }

  lemma {:induction false} ReturnedIsOrdered(g: Geometry, byId: map<string, Admin>, cs: seq<SplitAdmin>, p: Point, n: nat)
    requires ByZone(cs) && n <= |cs|
    ensures n > 0 ==> RankedUpTo(ReturnedOf(g, byId, cs, p, n), Rank(cs[n - 1].admin.zoneType))
    decreases n
  {
    if n > 0 {
      ReturnedIsOrdered(g, byId, cs, p, n - 1);
    }
  }

  /** The regions come back from the smallest kind of zone to the largest. */
  lemma ResultIsOrdered(g: Geometry, t: RTree, byId: map<string, Admin>, p: Point)
    ensures var res := Found(g, t, byId, p);
            forall i, j :: 0 <= i < j < |res| ==> Rank(res[i].zoneType) <= Rank(res[j].zoneType)
  {
    var cs := Candidates(t, p);
    SortByZoneSorts(Locate(t, p));
    ReturnedIsOrdered(g, byId, cs, p, |cs|);
  }

  // ---------------------------------------------------------------- `GetAdminsIf`

  ghost function ChainsResult(g: Geometry, t: RTree, byId: map<string, Admin>, p: Point, condition: Admin -> bool): seq<seq<Admin>> {
    var cs := CandidatesIf(t, p, condition);
    ChainsOf(g, byId, cs, p, |cs|)
  }

  /** A stored region that meets the condition and whose boundary meets the point. */
  ghost predicate Qualifies(g: Geometry, t: RTree, p: Point, condition: Admin -> bool, s: SplitAdmin) {
    s in Leaves(t) && condition(s.admin) && g.intersects(s.boundary, p)
  }

  lemma CandidatesIfMembers(g: Geometry, t: RTree, byId: map<string, Admin>, p: Point, condition: Admin -> bool, s: SplitAdmin)
    requires Indexed(g, t, byId) && g.intersects(s.boundary, p)
    ensures s in CandidatesIf(t, p, condition) <==> Qualifies(g, t, p, condition, s)
  {
    NothingMissed(g, t, byId, p, s);
    FilterMembers(Locate(t, p), condition, s);
    SortedMembers(Filter(Locate(t, p), condition), s);
    SortedMembers(Locate(t, p), s);
  }

  lemma {:induction false} ChainsMembers(g: Geometry, byId: map<string, Admin>, cs: seq<SplitAdmin>, p: Point, n: nat,
                                         chain: seq<Admin>)
    requires n <= |cs|
    ensures chain in ChainsOf(g, byId, cs, p, n)
       <==> exists k: nat :: k < n && Head(g, byId, cs, p, k) && Chain(byId, cs[k].admin) == chain
    decreases n
  {
    if n > 0 {
      ChainsMembers(g, byId, cs, p, n - 1, chain);
      if Head(g, byId, cs, p, n - 1) && Chain(byId, cs[n - 1].admin) == chain {
        assert n - 1 < n;
      }
    }
  }

  ghost predicate InChain(chain: seq<Admin>, id: string) {
    exists i :: 0 <= i < |chain| && chain[i].id == id
  }

  lemma ChainHolds(byId: map<string, Admin>, a: Admin, id: string)
    requires a.id == id || IsAbove(byId, a, id)
    ensures InChain(Chain(byId, a), id)
  {
    var above := Ancestors(byId, a);
    assert Chain(byId, a)[0] == a;
    if a.id != id {
      var i :| 0 <= i < |above| && above[i].id == id;
      assert Chain(byId, a)[i + 1] == above[i];
    }
  }

  lemma HeadBelow(g: Geometry, byId: map<string, Admin>, cs: seq<SplitAdmin>, p: Point, k: nat) returns (head: nat)
    requires k < |cs| && g.intersects(cs[k].boundary, p)
    ensures head < |cs| && Head(g, byId, cs, p, head)
    ensures head == k || (head < k && IsAbove(byId, cs[head].admin, cs[k].admin.id))
  {
    head := k;
    if !Head(g, byId, cs, p, k) {
      head :| 0 <= head < k && Head(g, byId, cs, p, head) && IsAbove(byId, cs[head].admin, cs[k].admin.id);
    }
  }

  /** Every qualifying region is in some returned chain: as its head, or above its head. */
  lemma QualifyingRegionInSomeChain(g: Geometry, t: RTree, byId: map<string, Admin>, p: Point, condition: Admin -> bool,
                                    s: SplitAdmin)
    requires Indexed(g, t, byId) && Qualifies(g, t, p, condition, s)
    ensures exists chain :: chain in ChainsResult(g, t, byId, p, condition) && InChain(chain, s.admin.id)
  {
    var cs := CandidatesIf(t, p, condition);
    CandidatesIfMembers(g, t, byId, p, condition, s);
    var k: nat :| k < |cs| && cs[k] == s;
    var head := HeadBelow(g, byId, cs, p, k);
    ChainHolds(byId, cs[head].admin, s.admin.id);
    ChainsMembers(g, byId, cs, p, |cs|, Chain(byId, cs[head].admin));
  }

  /** A chain is the walk up from its region: every step of it, and to its end. */
  lemma ChainIsWalk(byId: map<string, Admin>, a: Admin)
    requires Acyclic(byId)
    ensures forall n: nat :: n < |Chain(byId, a)| ==> Up(byId, a, n) == Some(Chain(byId, a)[n])
    ensures Up(byId, a, |Chain(byId, a)|).None?
  {
    AcyclicAbove(byId, a);
    forall n: nat | n < |Chain(byId, a)| ensures Up(byId, a, n) == Some(Chain(byId, a)[n]) {
      if n > 0 {
        AncestorsAreTheWalk(byId, a, n - 1);
      }
    }
    AncestorsAreTheWalk(byId, a, |Ancestors(byId, a)|);
  }

  /** Every returned chain is a qualifying region followed by all stored regions above it, nearest first. */
  lemma ChainIsRegionAndAllAbove(g: Geometry, t: RTree, byId: map<string, Admin>, p: Point, condition: Admin -> bool,
                                 chain: seq<Admin>)
    requires Indexed(g, t, byId) && Acyclic(byId) && chain in ChainsResult(g, t, byId, p, condition)
    ensures exists s :: Qualifies(g, t, p, condition, s) && chain != [] && chain[0] == s.admin
    ensures forall n: nat :: n < |chain| ==> Up(byId, chain[0], n) == Some(chain[n])
    ensures Up(byId, chain[0], |chain|).None?
  {
    var s := HeadOf(g, t, byId, p, condition, chain);
    ChainIsWalk(byId, s.admin);
  }

  lemma HeadOf(g: Geometry, t: RTree, byId: map<string, Admin>, p: Point, condition: Admin -> bool, chain: seq<Admin>)
      returns (s: SplitAdmin)
    requires Indexed(g, t, byId) && chain in ChainsResult(g, t, byId, p, condition)
    ensures Qualifies(g, t, p, condition, s) && chain == Chain(byId, s.admin)
  {
    var cs := CandidatesIf(t, p, condition);
    ChainsMembers(g, byId, cs, p, |cs|, chain);
    var k: nat :| k < |cs| && Head(g, byId, cs, p, k) && Chain(byId, cs[k].admin) == chain;
    s := cs[k];
    assert s in cs;
    CandidatesIfMembers(g, t, byId, p, condition, s);
  }

  lemma {:induction false} UpIsStored(byId: map<string, Admin>, a: Admin, n: nat)
    requires Keyed(byId) && n > 0 && Up(byId, a, n).Some?
    ensures var x := Up(byId, a, n).value; x.id in byId && byId[x.id] == x
    decreases n
  {
    if n > 1 {
      UpIsStored(byId, Parent(byId, a).value, n - 1);
    }
  }
}
