/**
 * Finding the administrative regions around a point: a spatial index beside an id map, and two
 * lookups that use the parent hierarchy to skip boundary tests.
 */
module GeoFinder {
  import opened Wrappers
  import opened Hierarchy
  import opened SpatialIndex

  // ---------------------------------------------------------------- what `Get` returns

  /** `a` or a stored region above it has the zone type `z`. */
  ghost predicate SharesType(byId: map<string, Admin>, a: Admin, z: Option<ZoneType>) {
    z.Some? && (a.zoneType == z || exists id :: IsAncestorId(byId, a, id) && id in byId && byId[id].zoneType == z)
  }

  /**
   * The candidate `k` is taken on the strength of its own boundary: it contains the point, and no
   * earlier one so taken has it as an ancestor or already brought its zone type.
   */
  ghost predicate Accepted(g: Geometry, byId: map<string, Admin>, cs: seq<SplitAdmin>, p: Point, k: nat)
    requires k < |cs|
    decreases k
  {
    && g.contains(cs[k].boundary, p)
    && forall j: nat | j < k && Accepted(g, byId, cs, p, j) ::
         && !IsAncestorId(byId, cs[j].admin, cs[k].admin.id)
         && !SharesType(byId, cs[j].admin, cs[k].admin.zoneType)
  }

  /** The candidate `k` is an ancestor of an earlier accepted one. */
  ghost predicate InHierarchy(g: Geometry, byId: map<string, Admin>, cs: seq<SplitAdmin>, p: Point, k: nat)
    requires k < |cs|
  {
    exists j: nat :: j < k && Accepted(g, byId, cs, p, j) && IsAncestorId(byId, cs[j].admin, cs[k].admin.id)
  }

  ghost predicate Returned(g: Geometry, byId: map<string, Admin>, cs: seq<SplitAdmin>, p: Point, k: nat)
    requires k < |cs|
  {
    Accepted(g, byId, cs, p, k) || InHierarchy(g, byId, cs, p, k)
  }

  /** The returned ones among the first `n` candidates. */
  ghost function ReturnedOf(g: Geometry, byId: map<string, Admin>, cs: seq<SplitAdmin>, p: Point, n: nat): seq<Admin>
    requires n <= |cs|
    decreases n
  {
    if n == 0 then []
    else ReturnedOf(g, byId, cs, p, n - 1) + if Returned(g, byId, cs, p, n - 1) then [cs[n - 1].admin] else []
  }

  // ---------------------------------------------------------------- what `GetAdminsIf` returns

  /** A stored region above `a` has this id. */
  ghost predicate IsAbove(byId: map<string, Admin>, a: Admin, id: string) {
    exists k :: 0 <= k < |Ancestors(byId, a)| && Ancestors(byId, a)[k].id == id
  }

  /** A region with all stored regions above it. */
  ghost function Chain(byId: map<string, Admin>, a: Admin): seq<Admin> {
    [a] + Ancestors(byId, a)
  }

  /** The candidate `k` heads a chain: the point meets its boundary, and it is above no earlier head. */
  ghost predicate Head(g: Geometry, byId: map<string, Admin>, cs: seq<SplitAdmin>, p: Point, k: nat)
    requires k < |cs|
    decreases k
  {
    && g.intersects(cs[k].boundary, p)
    && forall j: nat | j < k && Head(g, byId, cs, p, j) :: !IsAbove(byId, cs[j].admin, cs[k].admin.id)
  }

  ghost function ChainsOf(g: Geometry, byId: map<string, Admin>, cs: seq<SplitAdmin>, p: Point, n: nat): seq<seq<Admin>>
    requires n <= |cs|
    decreases n
  {
    if n == 0 then []
    else ChainsOf(g, byId, cs, p, n - 1) + if Head(g, byId, cs, p, n - 1) then [Chain(byId, cs[n - 1].admin)] else []
  }

  function Filter(splits: seq<SplitAdmin>, condition: Admin -> bool): seq<SplitAdmin> {
    if splits == [] then []
    else (if condition(splits[0].admin) then [splits[0]] else []) + Filter(splits[1..], condition)
  }

  lemma {:induction false} FilterMembers(splits: seq<SplitAdmin>, condition: Admin -> bool, s: SplitAdmin)
    ensures s in Filter(splits, condition) <==> s in splits && condition(s.admin)
  {
    if splits != [] {
      FilterMembers(splits[1..], condition, s);
      assert splits == [splits[0]] + splits[1..];
    }
  }

  lemma {:induction false} FilterKeepsNoOtherOrder(splits: seq<SplitAdmin>, condition: Admin -> bool, s: SplitAdmin, u: SplitAdmin)
    requires Before(Filter(splits, condition), s, u)
    ensures Before(splits, s, u)
  {
    var rest := Filter(splits[1..], condition);
    if condition(splits[0].admin) {
      assert Filter(splits, condition)[1..] == rest;
      if splits[0] == s && u in rest {
        FilterMembers(splits[1..], condition, u);
      } else {
        FilterKeepsNoOtherOrder(splits[1..], condition, s, u);
      }
    } else {
      assert Filter(splits, condition) == rest;
      FilterKeepsNoOtherOrder(splits[1..], condition, s, u);
    }
  }

  function Candidates(t: RTree, p: Point): seq<SplitAdmin> {
    SortByZone(Locate(t, p))
  }

  function CandidatesIf(t: RTree, p: Point, condition: Admin -> bool): seq<SplitAdmin> {
    SortByZone(Filter(Locate(t, p), condition))
  }

  // ---------------------------------------------------------------- closed sets of ids

  /** The set goes on with the parent of each of its stored members, and its zone types are recorded. */
  ghost predicate Closed(byId: map<string, Admin>, tested: set<string>, types: set<ZoneType>) {
    forall id :: id in tested && id in byId ==>
      && (byId[id].parentId.Some? ==> byId[id].parentId.value in tested)
      && (byId[id].zoneType.Some? ==> byId[id].zoneType.value in types)
  }

  lemma {:induction false} ClosedHoldsWalk(byId: map<string, Admin>, tested: set<string>, types: set<ZoneType>,
                                           start: Option<string>, n: nat)
    requires Closed(byId, tested, types) && (start.Some? ==> start.value in tested)
    ensures UpId(byId, start, n).Some? ==> UpId(byId, start, n).value in tested
    decreases n
  {
    if n > 0 && start.Some? && start.value in byId {
      ClosedHoldsWalk(byId, tested, types, byId[start.value].parentId, n - 1);
    }
  }

  lemma {:induction false} UpIdStep(byId: map<string, Admin>, start: Option<string>, n: nat)
    ensures var id := UpId(byId, start, n);
            UpId(byId, start, n + 1) == if id.Some? && id.value in byId then byId[id.value].parentId else None
    decreases n
  {
    if n > 0 && start.Some? && start.value in byId {
      UpIdStep(byId, byId[start.value].parentId, n - 1);
    } else if n == 0 && start.Some? && start.value in byId {
      assert UpId(byId, byId[start.value].parentId, 0) == byId[start.value].parentId;
    }
  }

  /** The ids met in the first `n` steps up from `start`. */
  ghost predicate MetBefore(byId: map<string, Admin>, start: Option<string>, n: nat, id: string) {
    exists m: nat :: m < n && UpId(byId, start, m) == Some(id)
  }

  lemma MetOneMore(byId: map<string, Admin>, start: Option<string>, n: nat)
    ensures forall id :: MetBefore(byId, start, n + 1, id) <==> MetBefore(byId, start, n, id) || UpId(byId, start, n) == Some(id)
  {
    forall id ensures MetBefore(byId, start, n + 1, id) <==> MetBefore(byId, start, n, id) || UpId(byId, start, n) == Some(id) {
      if UpId(byId, start, n) == Some(id) {
        assert n < n + 1;
      }
      if MetBefore(byId, start, n + 1, id) {
        var m: nat :| m < n + 1 && UpId(byId, start, m) == Some(id);
        assert m < n || m == n;
      }
    }
  }

  /** A stored region with this zone type was met in the first `n` steps. */
  ghost predicate TypeMetBefore(byId: map<string, Admin>, start: Option<string>, n: nat, z: ZoneType) {
    exists id :: MetBefore(byId, start, n, id) && id in byId && byId[id].zoneType == Some(z)
  }

  ghost predicate TypeAbove(byId: map<string, Admin>, a: Admin, z: ZoneType) {
    exists id :: IsAncestorId(byId, a, id) && id in byId && byId[id].zoneType == Some(z)
  }

  /** After `n` steps up from `start`, exactly the ids met and their zone types are added. */
  ghost predicate Marked(byId: map<string, Admin>, start: Option<string>, n: nat, tested: set<string>,
                         types: set<ZoneType>, tested': set<string>, types': set<ZoneType>) {
    && (forall id :: id in tested' <==> id in tested || MetBefore(byId, start, n, id))
    && (forall z :: z in types' <==> z in types || TypeMetBefore(byId, start, n, z))
  }

  function TypeOf(byId: map<string, Admin>, id: string): set<ZoneType> {
    if id in byId && byId[id].zoneType.Some? then {byId[id].zoneType.value} else {}
  }

  /** An id that is already marked has its zone type recorded. */
  lemma MarkedTypes(byId: map<string, Admin>, start: Option<string>, n: nat, tested: set<string>,
                    types: set<ZoneType>, tested': set<string>, types': set<ZoneType>, id: string)
    requires Closed(byId, tested, types) && Marked(byId, start, n, tested, types, tested', types') && id in tested'
    ensures TypeOf(byId, id) <= types'
  {
  }

  lemma MarkedStep(byId: map<string, Admin>, start: Option<string>, n: nat, tested: set<string>,
                   types: set<ZoneType>, tested': set<string>, types': set<ZoneType>, id: string)
    requires Marked(byId, start, n, tested, types, tested', types') && UpId(byId, start, n) == Some(id)
    ensures Marked(byId, start, n + 1, tested, types, tested' + {id}, types' + TypeOf(byId, id))
  {
    MetOneMore(byId, start, n);
    forall z ensures z in types' + TypeOf(byId, id) <==> z in types || TypeMetBefore(byId, start, n + 1, z) {
      if TypeMetBefore(byId, start, n + 1, z) {
        var x :| MetBefore(byId, start, n + 1, x) && x in byId && byId[x].zoneType == Some(z);
        assert x != id ==> MetBefore(byId, start, n, x);
      }
      if z in TypeOf(byId, id) {
        assert MetBefore(byId, start, n + 1, id);
      }
      if TypeMetBefore(byId, start, n, z) {
        var x :| MetBefore(byId, start, n, x) && x in byId && byId[x].zoneType == Some(z);
        assert MetBefore(byId, start, n + 1, x);
      }
    }
  }

  /** When the next id is missing or already marked, the marked set is closed. */
  lemma MarkedIsClosed(byId: map<string, Admin>, start: Option<string>, n: nat, tested: set<string>,
                       types: set<ZoneType>, tested': set<string>, types': set<ZoneType>)
    requires Closed(byId, tested, types) && Marked(byId, start, n, tested, types, tested', types')
    requires UpId(byId, start, n).Some? ==> UpId(byId, start, n).value in tested'
    ensures Closed(byId, tested', types')
  {
    forall id | id in tested' && id in byId
      ensures byId[id].parentId.Some? ==> byId[id].parentId.value in tested'
      ensures byId[id].zoneType.Some? ==> byId[id].zoneType.value in types'
    {
      MarkedTypes(byId, start, n, tested, types, tested', types', id);
      assert byId[id].zoneType.Some? ==> byId[id].zoneType.value in TypeOf(byId, id);
      if id !in tested && byId[id].parentId.Some? {
        ParentMet(byId, start, n, id);
      }
    }
  }

  /** The parent of an id met before step `n` is met before, or is the next one. */
  lemma ParentMet(byId: map<string, Admin>, start: Option<string>, n: nat, id: string)
    requires MetBefore(byId, start, n, id) && id in byId && byId[id].parentId.Some?
    ensures MetBefore(byId, start, n, byId[id].parentId.value) || UpId(byId, start, n) == byId[id].parentId
  {
    var m: nat :| m < n && UpId(byId, start, m) == Some(id);
    UpIdStep(byId, start, m);
  }

  /** Stopping early loses nothing: a closed marked set that holds the next id holds every ancestor. */
  lemma MarkedIsAll(byId: map<string, Admin>, a: Admin, n: nat, tested: set<string>,
                    types: set<ZoneType>, tested': set<string>, types': set<ZoneType>)
    requires Closed(byId, tested, types) && Marked(byId, a.parentId, n, tested, types, tested', types')
    requires UpId(byId, a.parentId, n).Some? ==> UpId(byId, a.parentId, n).value in tested'
    ensures Closed(byId, tested', types')
    ensures forall id :: id in tested' <==> id in tested || IsAncestorId(byId, a, id)
    ensures forall z :: z in types' <==> z in types || TypeAbove(byId, a, z)
  {
    MarkedIsClosed(byId, a.parentId, n, tested, types, tested', types');
    forall id | IsAncestorId(byId, a, id) ensures id in tested' {
      var m: nat :| UpId(byId, a.parentId, m) == Some(id);
      if n > 0 {
        StartIsMet(byId, a.parentId, n);
      }
      ClosedHoldsWalk(byId, tested', types', a.parentId, m);
    }
    forall z | TypeAbove(byId, a, z) ensures z in types' {
      var id :| IsAncestorId(byId, a, id) && id in byId && byId[id].zoneType == Some(z);
      assert id in tested';
    }
  }

  lemma StartIsMet(byId: map<string, Admin>, start: Option<string>, n: nat)
    requires n > 0
    ensures start.Some? ==> MetBefore(byId, start, n, start.value)
  {
    assert UpId(byId, start, 0) == start;
  }

  // ---------------------------------------------------------------- agreement of the two indexes

  /**
   * The tree is well covered, its entries carry the envelope of their boundary, and the ids in the
   * tree are exactly the keys of the id map.
   */
  ghost predicate Indexed(g: Geometry, t: RTree, byId: map<string, Admin>) {
    && g.Lawful() && Covered(t) && Keyed(byId)
    && (forall s :: s in Leaves(t) ==> g.boundingRect(s.boundary) == Some(s.envelope) && s.admin.id in byId)
    && (forall id :: id in byId ==> exists s :: s in Leaves(t) && s.admin == byId[id])
  }

  lemma InsertedMembers(t: RTree, split: SplitAdmin, t': RTree, s: SplitAdmin)
    requires Inserted(t, split, t')
    ensures s in Leaves(t') <==> s in Leaves(t) || s == split
  {
    assert s in Leaves(t') <==> s in multiset(Leaves(t'));
    assert s in Leaves(t) <==> s in multiset(Leaves(t));
  }

  lemma InsertKeepsIndexed(g: Geometry, t: RTree, byId: map<string, Admin>, split: SplitAdmin, t': RTree)
    requires Indexed(g, t, byId) && Inserted(t, split, t')
    requires g.boundingRect(split.boundary) == Some(split.envelope)
    ensures Indexed(g, t', byId[split.admin.id := split.admin])
  {
    var byId' := byId[split.admin.id := split.admin];
    forall s | s in Leaves(t')
      ensures g.boundingRect(s.boundary) == Some(s.envelope) && s.admin.id in byId'
    {
      InsertedMembers(t, split, t', s);
    }
    forall id | id in byId' ensures exists s :: s in Leaves(t') && s.admin == byId'[id] {
      if id == split.admin.id {
        InsertedMembers(t, split, t', split);
      } else {
        var s :| s in Leaves(t) && s.admin == byId[id];
        InsertedMembers(t, split, t', s);
      }
    }
  }

  /** Every stored entry is the region its id stands for. */
  ghost predicate EntriesAreCurrent(t: RTree, byId: map<string, Admin>) {
    forall s :: s in Leaves(t) ==> s.admin.id in byId && byId[s.admin.id] == s.admin
  }

  /** Every id was inserted once. */
  ghost predicate UniqueIds(t: RTree) {
    && (forall s, u :: s in Leaves(t) && u in Leaves(t) && s.admin.id == u.admin.id ==> s == u)
    && (forall s :: multiset(Leaves(t))[s] <= 1)
  }

  lemma UniqueEntriesAreCurrent(g: Geometry, t: RTree, byId: map<string, Admin>)
    requires Indexed(g, t, byId) && UniqueIds(t)
    ensures EntriesAreCurrent(t, byId)
  {
    forall s | s in Leaves(t) ensures byId[s.admin.id] == s.admin {
      var u :| u in Leaves(t) && u.admin == byId[s.admin.id];
    }
  }

  /** Ids stay unique as long as each is inserted once, and are not unique after an id is inserted again. */
  lemma InsertKeepsUniqueIds(g: Geometry, t: RTree, byId: map<string, Admin>, split: SplitAdmin, t': RTree)
    requires Indexed(g, t, byId) && UniqueIds(t) && Inserted(t, split, t')
    ensures UniqueIds(t') <==> split.admin.id !in byId
  {
    forall s ensures s in Leaves(t') <==> s in Leaves(t) || s == split {
      InsertedMembers(t, split, t', s);
    }
    if split.admin.id in byId {
      var u :| u in Leaves(t) && u.admin == byId[split.admin.id];
      if u == split {
        assert multiset(Leaves(t'))[split] >= 2;
      }
    } else {
      assert split !in Leaves(t);
      assert multiset(Leaves(t))[split] == 0;
    }
  }

  /** No region whose boundary meets the point is missed by the search. */
  lemma NothingMissed(g: Geometry, t: RTree, byId: map<string, Admin>, p: Point, s: SplitAdmin)
    requires Indexed(g, t, byId)
    ensures s in Locate(t, p) <==> s in Leaves(t) && s.envelope.ContainsPoint(p)
    ensures s in Leaves(t) && g.intersects(s.boundary, p) ==> s in Candidates(t, p)
  {
    LocateIsScan(t, p);
    ScanMembers(Leaves(t), p, s);
    SortedMembers(Locate(t, p), s);
  }

  /** Marks the hierarchy of an accepted region: every id met on the way up, and every zone type found there. */
  method MarkHierarchy(byId: map<string, Admin>, admin: Admin, tested: set<string>, types: set<ZoneType>)
      returns (tested': set<string>, types': set<ZoneType>)
    requires Closed(byId, tested, types)
    ensures Closed(byId, tested', types')
    ensures forall id :: id in tested' <==> id in tested || IsAncestorId(byId, admin, id)
    ensures forall z :: z in types' <==> z in types || TypeAbove(byId, admin, z)
  {
    tested', types' := tested, types;
    var current := admin.parentId;
    ghost var n: nat := 0;
    NothingMet(byId, admin.parentId, tested, types);
    while current.Some?
      invariant current == UpId(byId, admin.parentId, n)
      invariant Marked(byId, admin.parentId, n, tested, types, tested', types')
      decreases byId.Keys - tested', current.Some?
    {
      var id := current.value;
      ghost var wasTested, wasTypes := tested', types';
      if id in byId && byId[id].zoneType.Some? {
        types' := types' + {byId[id].zoneType.value};
      }
      assert types' == wasTypes + TypeOf(byId, id);
      if id in tested' {
        MarkedTypes(byId, admin.parentId, n, tested, types, wasTested, wasTypes, id);
        assert types' == wasTypes;
        break;
      }
      MarkedStep(byId, admin.parentId, n, tested, types, wasTested, wasTypes, id);
      UpIdStep(byId, admin.parentId, n);
      tested' := tested' + {id};
      current := if id in byId then byId[id].parentId else None;
      n := n + 1;
    }
    MarkedIsAll(byId, admin, n, tested, types, tested', types');
  }

  lemma NothingMet(byId: map<string, Admin>, start: Option<string>, tested: set<string>, types: set<ZoneType>)
    ensures Marked(byId, start, 0, tested, types, tested, types)
  {
  }

  class AdminGeoFinder {
    const geometry: Geometry
    var rtree: RTree
    var adminById: map<string, Admin>

    ghost predicate Valid()
      reads this
    {
      Indexed(geometry, rtree, adminById)
    }

    constructor (geometry: Geometry)
      requires geometry.Lawful()
      ensures Valid() && this.geometry == geometry && Leaves(rtree) == [] && adminById == map[]
      ensures UniqueIds(rtree)
    {
      this.geometry := geometry;
      this.rtree := EMPTY_TREE;
      this.adminById := map[];
    }

    /** A region is stored, in both indexes, exactly when it has a boundary and the boundary a bounding box. */
    method Insert(admin: Admin, boundary: Option<Shape>)
      requires Valid()
      modifies this
      ensures Valid()
      ensures boundary.Some? && geometry.boundingRect(boundary.value).Some? ==>
                && adminById == old(adminById)[admin.id := admin]
                && Inserted(old(rtree),
                            SplitAdmin(geometry.boundingRect(boundary.value).value, boundary.value, admin), rtree)
      ensures boundary.Some? && geometry.boundingRect(boundary.value).Some? && old(UniqueIds(rtree)) ==>
                (UniqueIds(rtree) <==> admin.id !in old(adminById))
      ensures boundary.None? || geometry.boundingRect(boundary.value).None? ==>
                adminById == old(adminById) && rtree == old(rtree)
    {
      if boundary.Some? {
        var box := geometry.boundingRect(boundary.value);
        if box.Some? {
          var split := SplitAdmin(box.value, boundary.value, admin);
          ghost var _ := InsertionExists(rtree, split);
          var t :| Inserted(rtree, split, t);
          InsertKeepsIndexed(geometry, rtree, adminById, split, t);
          if UniqueIds(rtree) {
            InsertKeepsUniqueIds(geometry, rtree, adminById, split, t);
          }
          adminById := adminById[admin.id := admin];
          rtree := t;
        }
      }
    }

    /**
     * All regions around a point. The loop tests a boundary only when the hierarchies of the regions
     * accepted so far leave it open; the result is that of the declarative definition.
     */
    method Get(p: Point) returns (res: seq<Admin>)
      requires Valid()
      ensures var cs := Candidates(rtree, p);
              res == ReturnedOf(geometry, adminById, cs, p, |cs|)
    {
      var candidates := SortByZone(Locate(rtree, p));
      var tested: set<string>, types: set<ZoneType> := {}, {};
      res := [];
      for i := 0 to |candidates|
        invariant Closed(adminById, tested, types)
        invariant Explored(geometry, adminById, candidates, p, i, tested, types)
        invariant res == ReturnedOf(geometry, adminById, candidates, p, i)
      {
        var admin := candidates[i].admin;
        ghost var wasTested, wasTypes := tested, types;
        ExploredDecides(geometry, adminById, candidates, p, i, tested, types);
        if admin.id in tested {
          res := res + [admin];
        } else if admin.zoneType.Some? && admin.zoneType.value in types {
          // a region of this zone type is already there
        } else if geometry.contains(candidates[i].boundary, p) {
          if admin.zoneType.Some? {
            types := types + {admin.zoneType.value};
          }
          tested, types := MarkHierarchy(adminById, admin, tested, types);
          res := res + [admin];
        }
        ExploredStep(geometry, adminById, candidates, p, i, wasTested, wasTypes, tested, types);
      }
    }

    /**
     * The chains of regions around a point whose smallest member meets a condition. The walk up a
     * chain ends only where the hierarchy above its head has no cycle.
     */
    method GetAdminsIf(p: Point, condition: Admin -> bool) returns (res: seq<seq<Admin>>)
      requires Valid() && WalksEnd(geometry, adminById, CandidatesIf(rtree, p, condition), p)
      ensures var cs := CandidatesIf(rtree, p, condition);
              res == ChainsOf(geometry, adminById, cs, p, |cs|)
    {
      var candidates := SortByZone(Filter(Locate(rtree, p), condition));
      var visited: set<string> := {};
      res := [];
      for i := 0 to |candidates|
        invariant Visited(geometry, adminById, candidates, p, i, visited)
        invariant res == ChainsOf(geometry, adminById, candidates, p, i)
      {
        var admin := candidates[i].admin;
        ghost var was := visited;
        VisitedDecides(geometry, adminById, candidates, p, i, visited);
        if admin.id !in visited && geometry.intersects(candidates[i].boundary, p) {
          var chain;
          chain, visited := CollectChain(adminById, admin, visited);
          res := res + [chain];
        }
        VisitedStep(geometry, adminById, candidates, p, i, was, visited);
      }
    }
  }

  /** No head has a cycle above it; elsewhere in the map there may be cycles. */
  ghost predicate WalksEnd(g: Geometry, byId: map<string, Admin>, cs: seq<SplitAdmin>, p: Point) {
    forall k: nat :: k < |cs| && Head(g, byId, cs, p, k) ==> ChainFinite(byId, cs[k].admin)
  }

  lemma AcyclicWalksEnd(g: Geometry, byId: map<string, Admin>, cs: seq<SplitAdmin>, p: Point)
    requires Acyclic(byId)
    ensures WalksEnd(g, byId, cs, p)
  {
    forall k: nat | k < |cs| ensures ChainFinite(byId, cs[k].admin) {
      AcyclicAbove(byId, cs[k].admin);
    }
  }

  /** The walk up from a region: its chain, and the ids above it added to those visited. */
  method CollectChain(byId: map<string, Admin>, admin: Admin, visited: set<string>)
      returns (chain: seq<Admin>, visited': set<string>)
    requires ChainFinite(byId, admin)
    ensures chain == Chain(byId, admin)
    ensures forall id :: id in visited' <==> id in visited || IsAbove(byId, admin, id)
  {
    chain, visited' := [admin], visited;
    var last := admin;
    while last.parentId.Some? && last.parentId.value in byId
      invariant chain != [] && last == chain[|chain| - 1] && ChainFinite(byId, last)
      invariant chain + Ancestors(byId, last) == Chain(byId, admin)
      invariant forall id :: id in visited' <==> id in visited || InTail(chain, id)
      decreases |Ancestors(byId, last)|
    {
      var parent := byId[last.parentId.value];
      ChainContinues(byId, admin, chain, last);
      visited' := visited' + {parent.id};
      InTailSnoc(chain, parent);
      chain := chain + [parent];
      last := parent;
    }
    AncestorsUnfold(byId, last);
    assert chain == Chain(byId, admin);
    InTailIsAbove(byId, admin);
  }

  lemma ChainContinues(byId: map<string, Admin>, admin: Admin, chain: seq<Admin>, last: Admin)
    requires ChainFinite(byId, last) && Parent(byId, last).Some?
    requires chain + Ancestors(byId, last) == Chain(byId, admin)
    ensures var parent := Parent(byId, last).value;
            && ChainFinite(byId, parent) && |Ancestors(byId, parent)| < |Ancestors(byId, last)|
            && (chain + [parent]) + Ancestors(byId, parent) == Chain(byId, admin)
  {
    AncestorsUnfold(byId, last);
    var parent := Parent(byId, last).value;
    assert chain + ([parent] + Ancestors(byId, parent)) == (chain + [parent]) + Ancestors(byId, parent);
  }

  ghost predicate InTail(chain: seq<Admin>, id: string) {
    exists k :: 1 <= k < |chain| && chain[k].id == id
  }

  lemma InTailSnoc(chain: seq<Admin>, last: Admin)
    requires chain != []
    ensures forall id :: InTail(chain + [last], id) <==> InTail(chain, id) || id == last.id
  {
    var longer := chain + [last];
    forall id ensures InTail(longer, id) <==> InTail(chain, id) || id == last.id {
      assert longer[|chain|] == last;
      forall k | 1 <= k < |chain| ensures longer[k] == chain[k] {}
    }
  }

  lemma InTailIsAbove(byId: map<string, Admin>, a: Admin)
    ensures forall id :: InTail(Chain(byId, a), id) <==> IsAbove(byId, a, id)
  {
    var chain, above := Chain(byId, a), Ancestors(byId, a);
    forall k | 0 <= k < |above| ensures chain[k + 1] == above[k] {}
    forall id ensures InTail(chain, id) <==> IsAbove(byId, a, id) {
      if InTail(chain, id) {
        var k :| 1 <= k < |chain| && chain[k].id == id;
        assert above[k - 1].id == id;
      }
    }
  }

  // ---------------------------------------------------------------- the state of the loop of `Get`

  /** The tested ids are the ancestors of the accepted candidates; the types are theirs and their ancestors'. */
  ghost predicate Explored(g: Geometry, byId: map<string, Admin>, cs: seq<SplitAdmin>, p: Point, n: nat,
                           tested: set<string>, types: set<ZoneType>)
    requires n <= |cs|
  {
    && (forall id :: id in tested <==> TestedBefore(g, byId, cs, p, n, id))
    && (forall z :: z in types <==> TypeBefore(g, byId, cs, p, n, Some(z)))
  }

  ghost predicate TestedBefore(g: Geometry, byId: map<string, Admin>, cs: seq<SplitAdmin>, p: Point, n: nat, id: string)
    requires n <= |cs|
  {
    exists j: nat :: j < n && Accepted(g, byId, cs, p, j) && IsAncestorId(byId, cs[j].admin, id)
  }

  ghost predicate TypeBefore(g: Geometry, byId: map<string, Admin>, cs: seq<SplitAdmin>, p: Point, n: nat,
                             z: Option<ZoneType>)
    requires n <= |cs|
  {
    exists j: nat :: j < n && Accepted(g, byId, cs, p, j) && SharesType(byId, cs[j].admin, z)
  }

  lemma ExploredDecides(g: Geometry, byId: map<string, Admin>, cs: seq<SplitAdmin>, p: Point, i: nat,
                        tested: set<string>, types: set<ZoneType>)
    requires i < |cs| && Explored(g, byId, cs, p, i, tested, types)
    ensures InHierarchy(g, byId, cs, p, i) <==> cs[i].admin.id in tested
    ensures var z := cs[i].admin.zoneType;
            Accepted(g, byId, cs, p, i)
            <==> g.contains(cs[i].boundary, p) && cs[i].admin.id !in tested && !(z.Some? && z.value in types)
  {
    var z := cs[i].admin.zoneType;
    assert InHierarchy(g, byId, cs, p, i) <==> TestedBefore(g, byId, cs, p, i, cs[i].admin.id);
    assert z.Some? ==> (z.value in types <==> TypeBefore(g, byId, cs, p, i, z));
    assert z.None? ==> !TypeBefore(g, byId, cs, p, i, z);
  }

  lemma BeforeOneMore(g: Geometry, byId: map<string, Admin>, cs: seq<SplitAdmin>, p: Point, i: nat)
    requires i < |cs|
    ensures forall id :: TestedBefore(g, byId, cs, p, i + 1, id)
              <==> TestedBefore(g, byId, cs, p, i, id) || (Accepted(g, byId, cs, p, i) && IsAncestorId(byId, cs[i].admin, id))
    ensures forall z :: TypeBefore(g, byId, cs, p, i + 1, z)
              <==> TypeBefore(g, byId, cs, p, i, z) || (Accepted(g, byId, cs, p, i) && SharesType(byId, cs[i].admin, z))
  {
    forall id ensures TestedBefore(g, byId, cs, p, i + 1, id)
        <==> TestedBefore(g, byId, cs, p, i, id) || (Accepted(g, byId, cs, p, i) && IsAncestorId(byId, cs[i].admin, id))
    {
      if TestedBefore(g, byId, cs, p, i + 1, id) {
        var j: nat :| j < i + 1 && Accepted(g, byId, cs, p, j) && IsAncestorId(byId, cs[j].admin, id);
        assert j < i || j == i;
      }
    }
    forall z ensures TypeBefore(g, byId, cs, p, i + 1, z)
        <==> TypeBefore(g, byId, cs, p, i, z) || (Accepted(g, byId, cs, p, i) && SharesType(byId, cs[i].admin, z))
    {
      if TypeBefore(g, byId, cs, p, i + 1, z) {
        var j: nat :| j < i + 1 && Accepted(g, byId, cs, p, j) && SharesType(byId, cs[j].admin, z);
        assert j < i || j == i;
      }
    }
  }

  lemma ExploredStep(g: Geometry, byId: map<string, Admin>, cs: seq<SplitAdmin>, p: Point, i: nat,
                     tested: set<string>, types: set<ZoneType>, tested': set<string>, types': set<ZoneType>)
    requires i < |cs| && Explored(g, byId, cs, p, i, tested, types)
    requires var a := cs[i].admin;
             if Accepted(g, byId, cs, p, i) then
               && (forall id :: id in tested' <==> id in tested || IsAncestorId(byId, a, id))
               && (forall z :: z in types' <==> z in types || a.zoneType == Some(z) || TypeAbove(byId, a, z))
             else tested' == tested && types' == types
    ensures Explored(g, byId, cs, p, i + 1, tested', types')
  {
    BeforeOneMore(g, byId, cs, p, i);
    forall z ensures SharesType(byId, cs[i].admin, Some(z)) <==> cs[i].admin.zoneType == Some(z) || TypeAbove(byId, cs[i].admin, z) {
    }
  }

  // ---------------------------------------------------------------- the state of the loop of `GetAdminsIf`

  ghost predicate VisitedBefore(g: Geometry, byId: map<string, Admin>, cs: seq<SplitAdmin>, p: Point, n: nat, id: string)
    requires n <= |cs|
  {
    exists j: nat :: j < n && Head(g, byId, cs, p, j) && IsAbove(byId, cs[j].admin, id)
  }

  ghost predicate Visited(g: Geometry, byId: map<string, Admin>, cs: seq<SplitAdmin>, p: Point, n: nat, visited: set<string>)
    requires n <= |cs|
  {
    forall id :: id in visited <==> VisitedBefore(g, byId, cs, p, n, id)
  }

  lemma VisitedDecides(g: Geometry, byId: map<string, Admin>, cs: seq<SplitAdmin>, p: Point, i: nat, visited: set<string>)
    requires i < |cs| && Visited(g, byId, cs, p, i, visited)
    ensures Head(g, byId, cs, p, i) <==> g.intersects(cs[i].boundary, p) && cs[i].admin.id !in visited
  {
    assert cs[i].admin.id in visited <==> VisitedBefore(g, byId, cs, p, i, cs[i].admin.id);
  }

  lemma VisitedStep(g: Geometry, byId: map<string, Admin>, cs: seq<SplitAdmin>, p: Point, i: nat,
                    visited: set<string>, visited': set<string>)
    requires i < |cs| && Visited(g, byId, cs, p, i, visited)
    requires if Head(g, byId, cs, p, i)
             then forall id :: id in visited' <==> id in visited || IsAbove(byId, cs[i].admin, id)
             else visited' == visited
    ensures Visited(g, byId, cs, p, i + 1, visited')
  {
    forall id ensures id in visited' <==> VisitedBefore(g, byId, cs, p, i + 1, id) {
      if VisitedBefore(g, byId, cs, p, i + 1, id) {
        var j: nat :| j < i + 1 && Head(g, byId, cs, p, j) && IsAbove(byId, cs[j].admin, id);
        assert j < i || j == i;
      }
      assert VisitedBefore(g, byId, cs, p, i, id) ==> VisitedBefore(g, byId, cs, p, i + 1, id);
    }
  }
}
