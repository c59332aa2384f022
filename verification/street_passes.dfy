/**
 * The extraction itself: a pass over the relations, a pass over the ways, regrouping by way, and
 * the documents, reading from either store.
 */
module StreetPasses {
  import opened Wrappers
  import opened SpatialIndex
  import opened GeoFinder
  import opened OsmStore
  import opened DocumentIds
  import opened BranchOrder
  import opened Streets

  // ---------------------------------------------------------------- keys in order

  predicate KeyLess(a: Key, b: Key) {
    StrLess(a.name, b.name) || (a.name == b.name && StrLess(a.city, b.city))
  }

  ghost predicate IsLeast(k: Key, keys: set<Key>) {
    k in keys && forall x :: x in keys ==> x == k || KeyLess(k, x)
  }

  lemma KeyOrder(a: Key, b: Key, c: Key)
    ensures a == b || KeyLess(a, b) || KeyLess(b, a)
    ensures !(KeyLess(a, b) && KeyLess(b, a))
    ensures KeyLess(a, b) && KeyLess(b, c) ==> KeyLess(a, c)
  {
    StrTotal(a.name, b.name);
    StrTotal(a.city, b.city);
    if StrLess(a.name, b.name) && StrLess(b.name, c.name) {
      StrTransitive(a.name, b.name, c.name);
    }
    if StrLess(a.city, b.city) && StrLess(b.city, c.city) {
      StrTransitive(a.city, b.city, c.city);
    }
  }

  lemma {:induction false} LeastExists(keys: set<Key>)
    requires keys != {}
    ensures exists k :: IsLeast(k, keys)
    decreases |keys|
  {
    var x :| x in keys;
    if keys == {x} {
      assert IsLeast(x, keys);
    } else {
      LeastExists(keys - {x});
      var y :| IsLeast(y, keys - {x});
      forall z | z in keys {
        KeyOrder(x, y, z);
      }
      assert IsLeast(if KeyLess(x, y) then x else y, keys);
    }
  }

  lemma LeastUnique(keys: set<Key>)
    ensures forall a, b :: IsLeast(a, keys) && IsLeast(b, keys) ==> a == b
  {
    forall a, b | IsLeast(a, keys) && IsLeast(b, keys) ensures a == b {
      KeyOrder(a, b, a);
    }
  }

  /** The keys of the merged map in increasing order. */
  ghost function SortedKeys(keys: set<Key>): (sorted: seq<Key>)
    ensures forall k :: k in sorted <==> k in keys
    decreases |keys|
  {
    if keys == {} then [] else
      LeastExists(keys);
      var k :| IsLeast(k, keys);
      [k] + SortedKeys(keys - {k})
  }

  method LeastKey(keys: set<Key>) returns (k: Key)
    requires keys != {}
    ensures IsLeast(k, keys)
  {
    k :| k in keys;
    var rest := keys - {k};
    while rest != {}
      invariant k in keys && rest <= keys
      invariant IsLeast(k, (keys - rest) + {k})
      decreases |rest|
    {
      var x :| x in rest;
      KeyOrder(k, x, k);
      if KeyLess(x, k) {
        forall z | z in keys && z !in rest {
          KeyOrder(x, k, z);
        }
        k := x;
      }
      rest := rest - {x};
    }
    assert (keys - rest) + {k} == keys;
  }

  /** Takes the keys out in increasing order. */
  method KeysInOrder(keys: set<Key>) returns (sorted: seq<Key>)
    ensures sorted == SortedKeys(keys)
  {
    sorted := [];
    var left := keys;
    while left != {}
      invariant sorted + SortedKeys(left) == SortedKeys(keys)
      decreases |left|
    {
      var k := LeastKey(left);
      LeastMovesOver(sorted, left, k);
      sorted := sorted + [k];
      left := left - {k};
    }
  }

  lemma LeastMovesOver(sorted: seq<Key>, left: set<Key>, k: Key)
    requires IsLeast(k, left)
    ensures sorted + SortedKeys(left) == (sorted + [k]) + SortedKeys(left - {k})
  {
    LeastComesFirst(left, k);
  }

  lemma LeastComesFirst(keys: set<Key>, k: Key)
    requires IsLeast(k, keys)
    ensures SortedKeys(keys) == [k] + SortedKeys(keys - {k})
  {
    LeastUnique(keys);
  }

  // ---------------------------------------------------------------- regrouping by way

  /** The branches merged under a way, in the order of their keys. */
  function GroupOf(m: BestMap, keys: seq<Key>, n: nat, id: int): seq<Branch>
    requires n <= |keys| && forall k :: k in keys ==> k in m
    decreases n
  {
    if n == 0 then [] else
      var best := m[keys[n - 1]];
      GroupOf(m, keys, n - 1, id) + if best.id == id then [best.branch] else []
  }

  ghost predicate IsGroups(m: BestMap, keys: seq<Key>, n: nat, groups: map<OsmId, seq<Branch>>)
    requires n <= |keys| && forall k :: k in keys ==> k in m
  {
    && (forall id :: id in groups ==> id.WayId?)
    && (forall id :: GroupOf(m, keys, n, id) == GroupIn(groups, id))
  }

  /** The groups after one more entry. */
  function AddToGroup(groups: map<OsmId, seq<Branch>>, best: Best): map<OsmId, seq<Branch>> {
    groups[WayId(best.id) := GroupIn(groups, best.id) + [best.branch]]
  }

  lemma NoGroups(m: BestMap, keys: seq<Key>)
    requires forall k :: k in keys ==> k in m
    ensures IsGroups(m, keys, 0, map[])
  {
  }

  lemma NextKey(m: BestMap, keys: seq<Key>, n: nat, groups: map<OsmId, seq<Branch>>)
    requires n < |keys| && (forall k :: k in keys ==> k in m) && IsGroups(m, keys, n, groups)
    ensures IsGroups(m, keys, n + 1, AddToGroup(groups, m[keys[n]]))
  {
    var best := m[keys[n]];
    forall id ensures GroupOf(m, keys, n + 1, id) == GroupIn(AddToGroup(groups, best), id) {
      assert GroupOf(m, keys, n, id) == GroupIn(groups, id);
      AddedGroup(groups, best, id);
    }
  }

  function GroupIn(groups: map<OsmId, seq<Branch>>, id: int): seq<Branch> {
    if WayId(id) in groups then groups[WayId(id)] else []
  }

  lemma AddedGroup(groups: map<OsmId, seq<Branch>>, best: Best, id: int)
    ensures GroupIn(AddToGroup(groups, best), id) == GroupIn(groups, id) + if best.id == id then [best.branch] else []
  {
  }

  method Regroup(m: BestMap) returns (groups: map<OsmId, seq<Branch>>)
    ensures IsGroups(m, SortedKeys(m.Keys), |SortedKeys(m.Keys)|, groups)
  {
    groups := map[];
    var keys := KeysInOrder(m.Keys);
    NoGroups(m, keys);
    for n := 0 to |keys|
      invariant IsGroups(m, keys, n, groups)
    {
      NextKey(m, keys, n, groups);
      groups := AddToGroup(groups, m[keys[n]]);
    }
  }

  // ---------------------------------------------------------------- what comes out

  ghost predicate RelationStreet(f: Finder, objs: Objs, s: Street) {
    exists r :: IsRelation(objs, r) && s in RelationStreets(f, objs, r)
  }

  /** The documents of a way: one for each name and city it stands for. */
  ghost function WayStreets(objs: Objs, m: BestMap, id: int): seq<Street> {
    if WayId(id) in objs && objs[WayId(id)].Way? && "name" in objs[WayId(id)].tags then
      var way := objs[WayId(id)];
      var keys := SortedKeys(m.Keys);
      BuildStreets(way.tags["name"], "way", id, GroupOf(m, keys, |keys|, id), GetWayCoord(objs, way.nodes))
    else []
  }

  ghost predicate WayStreet(objs: Objs, m: BestMap, s: Street) {
    exists id :: s in WayStreets(objs, m, id)
  }

  ghost predicate DistinctIds(streets: seq<Street>) {
    forall i, j :: 0 <= i < j < |streets| ==> streets[i].id != streets[j].id
  }

  /** What one extraction returns, up to order, `m` being the merged map of its ways. */
  ghost predicate Extracted(f: Finder, objs: Objs, m: BestMap, streets: seq<Street>) {
    && IsBestMap(f, objs, m)
    && (forall s :: s in streets <==> RelationStreet(f, objs, s) || WayStreet(objs, m, s))
    && DistinctIds(streets)
  }

  /** A possible result of extracting from these objects. */
  ghost predicate Extraction(f: Finder, objs: Objs, streets: seq<Street>) {
    exists m :: Extracted(f, objs, m, streets)
  }

  // ---------------------------------------------------------------- distinct ids

  /** The document belongs to this object. */
  ghost predicate Of(s: Street, kind: string, id: int) {
    exists single, i: nat :: s.id == DocId(kind, id, single, i)
  }

  lemma BuildStreetsIds(name: string, kind: string, id: int, branches: seq<Branch>, coord: Point)
    ensures DistinctIds(BuildStreets(name, kind, id, branches, coord))
    ensures forall s :: s in BuildStreets(name, kind, id, branches, coord) ==> Of(s, kind, id)
  {
    var streets := BuildStreets(name, kind, id, branches, coord);
    var single := |branches| <= 1;
    forall i, j | 0 <= i < j < |streets| ensures streets[i].id != streets[j].id {
      if streets[i].id == streets[j].id {
        DocIdInjective(kind, id, single, i, id, single, j);
      }
    }
    forall s | s in streets ensures Of(s, kind, id) {
      var i: nat :| i < |streets| && streets[i] == s;
      assert s.id == DocId(kind, id, single, i);
    }
  }

  lemma OtherObjectOtherId(s: Street, t: Street, kind: string, id: int, id': int)
    requires Of(s, kind, id) && Of(t, kind, id') && id != id'
    ensures s.id != t.id
  {
    var single, i: nat :| s.id == DocId(kind, id, single, i);
    var single', i': nat :| t.id == DocId(kind, id', single', i');
    if s.id == t.id {
      DocIdInjective(kind, id, single, i, id', single', i');
    }
  }

  lemma OtherKindOtherId(s: Street, t: Street, id: int, id': int)
    requires Of(s, "relation", id) && Of(t, "way", id')
    ensures s.id != t.id
  {
    var single, i: nat :| s.id == DocId("relation", id, single, i);
    var single', i': nat :| t.id == DocId("way", id', single', i');
    DocIdKindsDiffer(id, single, i, id', single', i');
  }

  lemma AppendDistinct(xs: seq<Street>, ys: seq<Street>)
    requires DistinctIds(xs) && DistinctIds(ys)
    requires forall x, y :: x in xs && y in ys ==> x.id != y.id
    ensures DistinctIds(xs + ys)
  {
  }

  // ---------------------------------------------------------------- the passes

  ghost function FinderOf(finder: AdminGeoFinder): Finder
    reads finder
  {
    Finder(finder.geometry, finder.rtree, finder.adminById)
  }

  /** The loop over nodes: the first that the store has. */
  method FirstStoredNode(store: ObjWrapper, nodes: seq<int>) returns (p: Option<Point>)
    ensures p == FirstNode(store.Contents(), nodes)
  {
    assert nodes[0..] == nodes;
    for i := 0 to |nodes|
      invariant FirstNode(store.Contents(), nodes[i..]) == FirstNode(store.Contents(), nodes)
    {
      assert nodes[i..][1..] == nodes[i + 1..];
      var obj := store.Get(NodeId(nodes[i]));
      if obj.Some? && obj.value.Node? {
        return Some(obj.value.at);
      }
    }
    return None;
  }

  method WayCoord(store: ObjWrapper, nodes: seq<int>) returns (coord: Point)
    ensures coord == GetWayCoord(store.Contents(), nodes)
  {
    var p := FirstStoredNode(store, RightHalf(nodes));
    coord := if p.Some? then p.value else ORIGIN;
  }

  method StreetAdmin(finder: AdminGeoFinder, store: ObjWrapper, nodes: seq<int>) returns (branches: seq<Branch>)
    requires finder.Valid() && WalksEndAround(FinderOf(finder), store.Contents(), nodes)
    ensures branches == GetStreetAdmin(FinderOf(finder), store.Contents(), nodes)
  {
    var found := FirstStoredNode(store, RightHalf(nodes) + nodes[..|nodes| / 2]);
    match found {
      case None => branches := [];
      case Some(p) =>
        branches := finder.GetAdminsIf(p, UpToCity);
    }
  }

  /** The loop over the members of a relation: the first way of role `street` that gives a name. */
  method StreetWay(store: ObjWrapper, relName: Option<string>, refs: seq<Ref>) returns (found: Option<(OsmObj, string)>)
    ensures found == FirstStreetWay(store.Contents(), relName, refs)
  {
    ghost var objs := store.Contents();
    assert refs[0..] == refs;
    for i := 0 to |refs|
      invariant FirstStreetWay(objs, relName, refs[i..]) == FirstStreetWay(objs, relName, refs)
    {
      assert refs[i..][1..] == refs[i + 1..];
      if refs[i].member.WayId? && refs[i].role == "street" {
        var obj := store.Get(refs[i].member);
        if obj.Some? && obj.value.Way? {
          var name := if relName.Some? then relName else NameOf(obj.value.tags);
          if name.Some? {
            return Some((obj.value, name.value));
          }
        }
      }
    }
    return None;
  }

  method StreetsOfRelation(finder: AdminGeoFinder, store: ObjWrapper, rel: OsmObj) returns (streets: seq<Street>)
    requires finder.Valid() && rel.Relation? && RelationLookupEnds(FinderOf(finder), store.Contents(), rel)
    ensures streets == RelationStreets(FinderOf(finder), store.Contents(), rel)
  {
    var street := StreetWay(store, NameOf(rel.tags), rel.refs);
    FirstStreetWayIsWay(store.Contents(), NameOf(rel.tags), rel.refs);
    match street {
      case None => streets := [];
      case Some(found) =>
        var (way, name) := found;
        var coord := WayCoord(store, way.nodes);
        var branches := StreetAdmin(finder, store, way.nodes);
        streets := BuildStreets(name, "relation", rel.id, branches, coord);
    }
  }

  /** The members of a relation that are ways. */
  function WayMembers(rel: OsmObj): (ids: set<OsmId>)
    requires rel.Relation?
    ensures forall id :: id in ids <==> HasMember(rel, id)
  {
    set i | 0 <= i < |rel.refs| && rel.refs[i].member.WayId? :: rel.refs[i].member
  }

  lemma RelationStreetsIds(f: Finder, objs: Objs, rel: OsmObj)
    requires rel.Relation?
    ensures DistinctIds(RelationStreets(f, objs, rel))
    ensures forall s :: s in RelationStreets(f, objs, rel) ==> Of(s, "relation", rel.id)
  {
    match FirstStreetWay(objs, NameOf(rel.tags), rel.refs)
    case None =>
    case Some(found) =>
      FirstStreetWayIsWay(objs, NameOf(rel.tags), rel.refs);
      var (way, name) := found;
      BuildStreetsIds(name, "relation", rel.id, GetStreetAdmin(f, objs, way.nodes), GetWayCoord(objs, way.nodes));
  }

  /** The streets of the first `n` relations. */
  ghost predicate FromFirst(f: Finder, objs: Objs, rels: seq<OsmObj>, n: nat, s: Street) {
    exists j: nat :: j < n && j < |rels| && rels[j].Relation? && s in RelationStreets(f, objs, rels[j])
  }

  lemma NextRelation(f: Finder, objs: Objs, rels: seq<OsmObj>, n: nat, was: seq<Street>)
    requires n < |rels| && rels[n].Relation?
    requires forall i, j :: 0 <= i < j < |rels| ==> rels[i].Id() != rels[j].Id()
    requires DistinctIds(was) && forall s :: s in was <==> FromFirst(f, objs, rels, n, s)
    ensures var now := was + RelationStreets(f, objs, rels[n]);
            DistinctIds(now) && forall s :: s in now <==> FromFirst(f, objs, rels, n + 1, s)
  {
    var more := RelationStreets(f, objs, rels[n]);
    RelationStreetsIds(f, objs, rels[n]);
    forall x, y | x in was && y in more ensures x.id != y.id {
      var j: nat :| j < n && rels[j].Relation? && x in RelationStreets(f, objs, rels[j]);
      RelationStreetsIds(f, objs, rels[j]);
      assert rels[j].Id() != rels[n].Id();
      OtherObjectOtherId(x, y, "relation", rels[j].id, rels[n].id);
    }
    AppendDistinct(was, more);
    forall s ensures s in was + more <==> FromFirst(f, objs, rels, n + 1, s) {
      if FromFirst(f, objs, rels, n + 1, s) {
        var j: nat :| j < n + 1 && rels[j].Relation? && s in RelationStreets(f, objs, rels[j]);
        assert j < n || j == n;
      }
    }
  }

  method RelationPass(finder: AdminGeoFinder, store: ObjWrapper, rels: seq<OsmObj>)
      returns (streets: seq<Street>, inRelation: set<OsmId>)
    requires finder.Valid() && Enumerates(rels, store.Contents(), RelationKind)
    requires forall r :: r in rels && r.Relation? ==> RelationLookupEnds(FinderOf(finder), store.Contents(), r)
    ensures DistinctIds(streets)
    ensures forall s :: s in streets <==> RelationStreet(FinderOf(finder), store.Contents(), s)
    ensures forall s :: s in streets ==> exists id :: Of(s, "relation", id)
    ensures forall id: OsmId :: id.WayId? ==> (id in inRelation <==> InRelation(store.Contents(), id))
  {
    streets, inRelation := [], {};
    ghost var objs := store.Contents();
    ghost var f := FinderOf(finder);
    assert forall i :: 0 <= i < |rels| ==> rels[i] in rels;
    for n := 0 to |rels|
      invariant DistinctIds(streets) && forall s :: s in streets <==> FromFirst(f, objs, rels, n, s)
      invariant forall id :: id in inRelation <==> MemberOfFirst(rels, n, id)
    {
      NextMembers(rels, n);
      inRelation := inRelation + WayMembers(rels[n]);
      NextRelation(f, objs, rels, n, streets);
      var more := StreetsOfRelation(finder, store, rels[n]);
      streets := streets + more;
    }
    RelationsVisited(f, objs, rels);
    forall s | s in streets ensures exists id :: Of(s, "relation", id) {
      FromFirstIds(f, objs, rels, |rels|, s);
    }
  }

  ghost predicate MemberOfFirst(rels: seq<OsmObj>, n: nat, id: OsmId) {
    exists j: nat :: j < n && j < |rels| && rels[j].Relation? && HasMember(rels[j], id)
  }

  lemma NextMembers(rels: seq<OsmObj>, n: nat)
    requires n < |rels| && rels[n].Relation?
    ensures forall id :: MemberOfFirst(rels, n + 1, id) <==> MemberOfFirst(rels, n, id) || id in WayMembers(rels[n])
  {
    forall id ensures MemberOfFirst(rels, n + 1, id) <==> MemberOfFirst(rels, n, id) || id in WayMembers(rels[n]) {
      if MemberOfFirst(rels, n + 1, id) {
        var j: nat :| j < n + 1 && rels[j].Relation? && HasMember(rels[j], id);
        assert j < n || j == n;
      }
      if id in WayMembers(rels[n]) {
        assert HasMember(rels[n], id);
      }
    }
  }

  lemma FromFirstIds(f: Finder, objs: Objs, rels: seq<OsmObj>, n: nat, s: Street)
    requires FromFirst(f, objs, rels, n, s)
    ensures exists id :: Of(s, "relation", id)
  {
    var j: nat :| j < n && j < |rels| && rels[j].Relation? && s in RelationStreets(f, objs, rels[j]);
    RelationStreetsIds(f, objs, rels[j]);
  }

  lemma RelationsVisited(f: Finder, objs: Objs, rels: seq<OsmObj>)
    requires Enumerates(rels, objs, RelationKind)
    ensures forall s :: FromFirst(f, objs, rels, |rels|, s) <==> RelationStreet(f, objs, s)
    ensures forall id :: InRelation(objs, id) <==> MemberOfFirst(rels, |rels|, id)
  {
    forall r ensures IsRelation(objs, r) <==> exists j :: 0 <= j < |rels| && rels[j] == r {
      assert r in rels <==> exists j :: 0 <= j < |rels| && rels[j] == r;
    }
    forall s ensures FromFirst(f, objs, rels, |rels|, s) <==> RelationStreet(f, objs, s) {
      if FromFirst(f, objs, rels, |rels|, s) {
        var j: nat :| j < |rels| && rels[j].Relation? && s in RelationStreets(f, objs, rels[j]);
        assert IsRelation(objs, rels[j]);
      }
    }
    forall id ensures InRelation(objs, id) <==> MemberOfFirst(rels, |rels|, id) {
      if MemberOfFirst(rels, |rels|, id) {
        var j: nat :| j < |rels| && rels[j].Relation? && HasMember(rels[j], id);
        assert IsRelation(objs, rels[j]);
      }
    }
  }

  method MergeWay(m: BestMap, name: string, id: int, branches: seq<Branch>) returns (m': BestMap)
    ensures m' == MergeBranches(m, name, id, branches)
  {
    m' := m;
    assert branches[0..] == branches;
    for i := 0 to |branches|
      invariant MergeBranches(m', name, id, branches[i..]) == MergeBranches(m, name, id, branches)
    {
      assert branches[i..][1..] == branches[i + 1..];
      var city := CityOf(branches[i]);
      if city.Some? {
        var key := Key(name, city.value);
        if key in m' {
          if m'[key].id > id {
            m' := m'[key := Best(id, branches[i])];
          }
        } else {
          m' := m'[key := Best(id, branches[i])];
        }
      }
    }
  }

  method WayPass(finder: AdminGeoFinder, store: ObjWrapper, inRelation: set<OsmId>, ways: seq<OsmObj>) returns (m: BestMap)
    requires finder.Valid() && AllWays(ways)
    requires forall w: OsmObj :: w in ways && w.Way? && w.Id() !in inRelation && "name" in w.tags ==>
               WalksEndAround(FinderOf(finder), store.Contents(), w.nodes)
    ensures m == AddWays(FinderOf(finder), store.Contents(), inRelation, ways, |ways|)
  {
    m := map[];
    for n := 0 to |ways|
      invariant m == AddWays(FinderOf(finder), store.Contents(), inRelation, ways, n)
    {
      var way := ways[n];
      if way.Id() !in inRelation && "name" in way.tags {
        var branches := StreetAdmin(finder, store, way.nodes);
        m := MergeWay(m, way.tags["name"], way.id, branches);
      }
    }
  }

  method EmitWays(store: ObjWrapper, m: BestMap) returns (streets: seq<Street>)
    ensures DistinctIds(streets)
    ensures forall s :: s in streets <==> WayStreet(store.Contents(), m, s)
    ensures forall s :: s in streets ==> exists id :: Of(s, "way", id)
  {
    ghost var objs := store.Contents();
    streets := [];
    var groups := Regroup(m);
    var left := groups.Keys;
    while left != {}
      invariant left <= groups.Keys
      invariant DistinctIds(streets)
      invariant forall s :: s in streets <==> FromGroups(objs, m, groups.Keys - left, s)
    {
      var key :| key in left;
      ghost var done := groups.Keys - left;
      left := left - {key};
      assert groups.Keys - left == done + {key};
      NextGroup(objs, m, done, key.id, streets);
      var obj := store.Get(key);
      if obj.Some? && obj.value.Way? && "name" in obj.value.tags {
        var coord := WayCoord(store, obj.value.nodes);
        streets := streets + BuildStreets(obj.value.tags["name"], "way", key.id, groups[key], coord);
      } else {
        assert streets + [] == streets;
      }
    }
    forall s ensures s in streets <==> WayStreet(objs, m, s) {
      if WayStreet(objs, m, s) {
        var id :| s in WayStreets(objs, m, id);
        NoGroupNoStreets(objs, m, id);
        assert WayId(id) in groups.Keys;
      }
    }
    forall s | s in streets ensures exists id :: Of(s, "way", id) {
      var id :| s in WayStreets(objs, m, id);
      WayStreetsIds(objs, m, id);
    }
  }

  lemma NoGroupNoStreets(objs: Objs, m: BestMap, id: int)
    ensures WayStreets(objs, m, id) != [] ==> GroupOf(m, SortedKeys(m.Keys), |SortedKeys(m.Keys)|, id) != []
  {
  }

  ghost predicate FromGroups(objs: Objs, m: BestMap, ids: set<OsmId>, s: Street) {
    exists id :: WayId(id) in ids && s in WayStreets(objs, m, id)
  }

  lemma WayStreetsIds(objs: Objs, m: BestMap, id: int)
    ensures DistinctIds(WayStreets(objs, m, id))
    ensures forall s :: s in WayStreets(objs, m, id) ==> Of(s, "way", id)
  {
    if WayId(id) in objs && objs[WayId(id)].Way? && "name" in objs[WayId(id)].tags {
      var way := objs[WayId(id)];
      var keys := SortedKeys(m.Keys);
      BuildStreetsIds(way.tags["name"], "way", id, GroupOf(m, keys, |keys|, id), GetWayCoord(objs, way.nodes));
    }
  }

  lemma NextGroup(objs: Objs, m: BestMap, done: set<OsmId>, id: int, was: seq<Street>)
    requires WayId(id) !in done && DistinctIds(was) && forall s :: s in was <==> FromGroups(objs, m, done, s)
    ensures var now := was + WayStreets(objs, m, id);
            DistinctIds(now) && forall s :: s in now <==> FromGroups(objs, m, done + {WayId(id)}, s)
  {
    var more := WayStreets(objs, m, id);
    WayStreetsIds(objs, m, id);
    forall x, y | x in was && y in more ensures x.id != y.id {
      var other :| WayId(other) in done && x in WayStreets(objs, m, other);
      WayStreetsIds(objs, m, other);
      OtherObjectOtherId(x, y, "way", other, id);
    }
    AppendDistinct(was, more);
    forall s ensures s in was + more <==> FromGroups(objs, m, done + {WayId(id)}, s) {
      if FromGroups(objs, m, done + {WayId(id)}, s) {
        var other :| WayId(other) in done + {WayId(id)} && s in WayStreets(objs, m, other);
        assert WayId(other) in done || other == id;
      }
    }
  }

  /** The whole extraction. */
  method InnerStreets(store: ObjWrapper, finder: AdminGeoFinder) returns (streets: seq<Street>)
    requires store.Valid() && finder.Valid() && LookupsEnd(FinderOf(finder), store.Contents())
    ensures Extraction(FinderOf(finder), store.Contents(), streets)
  {
    ghost var f, objs := FinderOf(finder), store.Contents();
    var rels := store.ForEachFilter(RelationKind);
    VisitedLookupsEnd(f, objs, rels);
    var relationStreets, inRelation := RelationPass(finder, store, rels);
    var ways := store.ForEachFilter(WayKind);
    VisitedWaysEnd(f, objs, inRelation, ways);
    var m := WayPass(finder, store, inRelation, ways);
    AllWaysGiveBestMap(f, objs, inRelation, ways);
    var wayStreets := EmitWays(store, m);
    PassesExtract(f, objs, m, relationStreets, wayStreets);
    streets := relationStreets + wayStreets;
  }

  lemma PassesExtract(f: Finder, objs: Objs, m: BestMap, relationStreets: seq<Street>, wayStreets: seq<Street>)
    requires IsBestMap(f, objs, m) && DistinctIds(relationStreets) && DistinctIds(wayStreets)
    requires forall s :: s in relationStreets <==> RelationStreet(f, objs, s)
    requires forall s :: s in wayStreets <==> WayStreet(objs, m, s)
    requires forall s :: s in relationStreets ==> exists id :: Of(s, "relation", id)
    requires forall s :: s in wayStreets ==> exists id :: Of(s, "way", id)
    ensures Extraction(f, objs, relationStreets + wayStreets)
  {
    forall x, y | x in relationStreets && y in wayStreets ensures x.id != y.id {
      var id :| Of(x, "relation", id);
      var id' :| Of(y, "way", id');
      OtherKindOtherId(x, y, id, id');
    }
    AppendDistinct(relationStreets, wayStreets);
    assert Extracted(f, objs, m, relationStreets + wayStreets);
  }

  /** What the passes look up ends, when every lookup of the extraction does. */
  lemma VisitedLookupsEnd(f: Finder, objs: Objs, rels: seq<OsmObj>)
    requires LookupsEnd(f, objs) && Enumerates(rels, objs, RelationKind)
    ensures forall r :: r in rels && r.Relation? ==> RelationLookupEnds(f, objs, r)
  {
    forall r | r in rels && r.Relation? ensures RelationLookupEnds(f, objs, r) {
      assert IsRelation(objs, r);
    }
  }

  lemma VisitedWaysEnd(f: Finder, objs: Objs, inRelation: set<OsmId>, ways: seq<OsmObj>)
    requires LookupsEnd(f, objs) && Enumerates(ways, objs, WayKind)
    requires forall id: OsmId :: id.WayId? ==> (id in inRelation <==> InRelation(objs, id))
    ensures AllWays(ways)
    ensures forall w: OsmObj :: w in ways && w.Way? && w.Id() !in inRelation && "name" in w.tags ==>
              WalksEndAround(f, objs, w.nodes)
  {
    forall i | 0 <= i < |ways| ensures ways[i].Way? {
      assert ways[i] in ways;
    }
    forall w: OsmObj | w in ways && w.Way? && w.Id() !in inRelation && "name" in w.tags
      ensures WalksEndAround(f, objs, w.nodes)
    {
      assert IsWay(objs, w);
    }
  }
}
