/** What the street extraction promises about its documents. */
module StreetProperties {
  import opened Wrappers
  import opened SpatialIndex
  import opened GeoFinder
  import opened GeoFinderProperties
  import opened OsmStore
  import opened BranchOrder
  import opened Streets
  import opened StreetPasses

  // ---------------------------------------------------------------- independence of the store

  lemma {:induction false} DistinctIdsCount(streets: seq<Street>, s: Street)
    requires DistinctIds(streets)
    ensures multiset(streets)[s] == if s in streets then 1 else 0
  {
    if streets != [] {
      DistinctIdsCount(streets[1..], s);
      assert streets == [streets[0]] + streets[1..];
    }
  }

  /** Two extractions from the same objects return the same documents, whatever orders the store visits them in. */
  lemma ExtractionsAgree(f: Finder, objs: Objs, streets1: seq<Street>, streets2: seq<Street>)
    requires Extraction(f, objs, streets1) && Extraction(f, objs, streets2)
    ensures multiset(streets1) == multiset(streets2)
  {
    var m1 :| Extracted(f, objs, m1, streets1);
    var m2 :| Extracted(f, objs, m2, streets2);
    BestMapIsUnique(f, objs, m1, m2);
    forall s ensures multiset(streets1)[s] == multiset(streets2)[s] {
      DistinctIdsCount(streets1, s);
      DistinctIdsCount(streets2, s);
    }
  }

  /**
   * Store independence: after the same insertions, each id at most once, the extraction over the
   * buffered table returns the same multiset of streets as the one over the map.
   */
  lemma StreetsDoNotDependOnStore(f: Finder, size: nat, inserted: seq<OsmObj>, streets1: seq<Street>, streets2: seq<Street>)
    requires forall i, j :: 0 <= i < j < |inserted| ==> inserted[i].Id() != inserted[j].Id()
    requires Extraction(f, RunDb(EmptyDb(size), inserted).Contents(), streets1)
    requires Extraction(f, RunMap(map[], inserted), streets2)
    ensures multiset(streets1) == multiset(streets2)
  {
    DbAgreesWithMap(EmptyDb(size), inserted);
    assert EmptyDb(size).Contents() == map[];
    ExtractionsAgree(f, RunMap(map[], inserted), streets1, streets2);
  }

  // ---------------------------------------------------------------- one street for each name and city

  lemma {:induction false} FirstInIsIn(branches: seq<Branch>, city: string)
    ensures FirstIn(branches, city).Some? ==>
              FirstIn(branches, city).value in branches && CityOf(FirstIn(branches, city).value) == Some(city)
  {
    if branches != [] {
      FirstInIsIn(branches[1..], city);
    }
  }

  lemma {:induction false} GroupMembers(m: BestMap, keys: seq<Key>, n: nat, id: int, b: Branch)
    requires n <= |keys| && forall k :: k in keys ==> k in m
    ensures b in GroupOf(m, keys, n, id) <==> exists i :: 0 <= i < n && m[keys[i]] == Best(id, b)
    decreases n
  {
    if n > 0 {
      GroupMembers(m, keys, n - 1, id, b);
      if m[keys[n - 1]] == Best(id, b) {
        assert 0 <= n - 1 < n;
      }
      if i :| 0 <= i < n && m[keys[i]] == Best(id, b) {
        assert i < n - 1 || i == n - 1;
      }
    }
  }

  /** The way is stored, outside every relation, and bears the name. */
  ghost predicate NamedWay(objs: Objs, id: int, name: string) {
    && WayId(id) in objs && IsWay(objs, objs[WayId(id)]) && objs[WayId(id)].id == id && !InRelation(objs, WayId(id))
    && "name" in objs[WayId(id)].tags && objs[WayId(id)].tags["name"] == name
  }

  lemma BestIsNamedWay(f: Finder, objs: Objs, key: Key, best: Best)
    requires IsBest(f, objs, key, best)
    ensures NamedWay(objs, best.id, key.name) && CityOf(best.branch) == Some(key.city)
  {
    var w :| Candidate(f, objs, key, w) && w.id == best.id && BranchIn(f, objs, key, w) == best.branch;
    assert w.Id() == WayId(best.id);
    FirstInIsIn(GetStreetAdmin(f, objs, w.nodes), key.city);
  }

  /** An entry of the merged map: its way is stored, bears the name, and its branch is in the city. */
  lemma EntryIsSound(f: Finder, objs: Objs, m: BestMap, key: Key)
    requires IsBestMap(f, objs, m) && key in m
    ensures NamedWay(objs, m[key].id, key.name) && CityOf(m[key].branch) == Some(key.city)
  {
    assert BestFor(f, objs, key, Look(m, key));
    BestIsNamedWay(f, objs, key, m[key]);
  }

  /** A way street comes from exactly the entry of its name and city. */
  lemma WayStreetHasEntry(f: Finder, objs: Objs, m: BestMap, id: int, s: Street)
    requires IsBestMap(f, objs, m) && s in WayStreets(objs, m, id)
    ensures CityOf(s.admins).Some?
    ensures var key := Key(s.name, CityOf(s.admins).value); key in m && m[key] == Best(id, s.admins)
  {
    var keys := SortedKeys(m.Keys);
    var group := GroupOf(m, keys, |keys|, id);
    SortPermutes(group);
    assert s.admins in Sort(group);
    GroupMembers(m, keys, |keys|, id, s.admins);
    var i :| 0 <= i < |keys| && m[keys[i]] == Best(id, s.admins);
    EntryIsSound(f, objs, m, keys[i]);
  }

  /** Every entry has its street. */
  lemma EntryHasWayStreet(f: Finder, objs: Objs, m: BestMap, key: Key) returns (s: Street)
    requires IsBestMap(f, objs, m) && key in m
    ensures s in WayStreets(objs, m, m[key].id) && s.name == key.name && s.admins == m[key].branch
  {
    EntryIsSound(f, objs, m, key);
    var id := m[key].id;
    var keys := SortedKeys(m.Keys);
    var group := GroupOf(m, keys, |keys|, id);
    assert key in keys;
    var i :| 0 <= i < |keys| && keys[i] == key;
    GroupMembers(m, keys, |keys|, id, m[key].branch);
    SortPermutes(group);
    assert m[key].branch in Sort(group);
    var k :| 0 <= k < |Sort(group)| && Sort(group)[k] == m[key].branch;
    s := WayStreets(objs, m, id)[k];
  }

  ghost predicate DistinctKeys(keys: seq<Key>) {
    forall i, j :: 0 <= i < j < |keys| ==> keys[i] != keys[j]
  }

  /** The keys come out without repetition. */
  lemma {:induction false} SortedKeysDistinct(keys: set<Key>)
    ensures DistinctKeys(SortedKeys(keys))
    decreases |keys|
  {
    if keys != {} {
      var k := SortedKeys(keys)[0];
      assert SortedKeys(keys) == [k] + SortedKeys(keys - {k});
      SortedKeysDistinct(keys - {k});
      var rest := SortedKeys(keys - {k});
      forall j | 0 <= j < |rest| ensures rest[j] != k {
        assert rest[j] in rest;
      }
    }
  }

  /** No two names and cities have the same way and branch. */
  lemma EntriesAreInjective(f: Finder, objs: Objs, m: BestMap, key: Key, key': Key)
    requires IsBestMap(f, objs, m) && key in m && key' in m && m[key] == m[key']
    ensures key == key'
  {
    EntryIsSound(f, objs, m, key);
    EntryIsSound(f, objs, m, key');
  }

  ghost predicate InjectiveOn(m: BestMap, keys: seq<Key>)
    requires forall k :: k in keys ==> k in m
  {
    forall i, j :: 0 <= i < j < |keys| ==> m[keys[i]] != m[keys[j]]
  }

  /** No branch is twice in a group. */
  lemma {:induction false} GroupHasNoRepeats(m: BestMap, keys: seq<Key>, n: nat, id: int, b: Branch)
    requires n <= |keys| && (forall k :: k in keys ==> k in m) && InjectiveOn(m, keys)
    ensures multiset(GroupOf(m, keys, n, id))[b] <= 1
    decreases n
  {
    if n > 0 {
      GroupHasNoRepeats(m, keys, n - 1, id, b);
      if m[keys[n - 1]] == Best(id, b) {
        NotInGroupBefore(m, keys, n - 1, id, b);
      }
      CountAfter(GroupOf(m, keys, n - 1, id), m[keys[n - 1]].branch, b);
    }
  }

  lemma NotInGroupBefore(m: BestMap, keys: seq<Key>, n: nat, id: int, b: Branch)
    requires n < |keys| && (forall k :: k in keys ==> k in m) && InjectiveOn(m, keys) && m[keys[n]] == Best(id, b)
    ensures b !in GroupOf(m, keys, n, id)
  {
    GroupMembers(m, keys, n, id, b);
    forall i | 0 <= i < n ensures m[keys[i]] != Best(id, b) {
    }
  }

  lemma CountAfter(group: seq<Branch>, last: Branch, b: Branch)
    ensures multiset(group + [last])[b] == multiset(group)[b] + if last == b then 1 else 0
    ensures b !in group <==> multiset(group)[b] == 0
    ensures group + [] == group
  {
  }

  lemma RepeatsCount(xs: seq<Branch>, i: nat, j: nat)
    requires i < j < |xs| && xs[i] == xs[j]
    ensures multiset(xs)[xs[i]] >= 2
  {
    assert xs == xs[..j] + [xs[j]] + xs[j + 1..];
    assert xs[i] in xs[..j];
  }

  /** Distinct way streets have distinct names or distinct cities. */
  lemma OneStreetPerKey(f: Finder, objs: Objs, m: BestMap, s: Street, t: Street)
    requires IsBestMap(f, objs, m) && WayStreet(objs, m, s) && WayStreet(objs, m, t)
    requires s.name == t.name && CityOf(s.admins) == CityOf(t.admins)
    ensures s == t
  {
    var id :| s in WayStreets(objs, m, id);
    var id' :| t in WayStreets(objs, m, id');
    WayStreetHasEntry(f, objs, m, id, s);
    WayStreetHasEntry(f, objs, m, id', t);
    SameBranchSameStreet(f, objs, m, id, s, t);
  }

  lemma SameBranchSameStreet(f: Finder, objs: Objs, m: BestMap, id: int, s: Street, t: Street)
    requires IsBestMap(f, objs, m) && s in WayStreets(objs, m, id) && t in WayStreets(objs, m, id)
    requires s.admins == t.admins
    ensures s == t
  {
    var keys := SortedKeys(m.Keys);
    var group := GroupOf(m, keys, |keys|, id);
    var sorted := Sort(group);
    SortPermutes(group);
    SortedKeysDistinct(m.Keys);
    forall i, j | 0 <= i < j < |keys| ensures m[keys[i]] != m[keys[j]] {
      if m[keys[i]] == m[keys[j]] {
        EntriesAreInjective(f, objs, m, keys[i], keys[j]);
      }
    }
    GroupHasNoRepeats(m, keys, |keys|, id, s.admins);
    var streets := WayStreets(objs, m, id);
    assert |streets| == |sorted| && forall i :: 0 <= i < |streets| ==> streets[i].admins == sorted[i];
    SameAdminsSameStreet(streets, sorted, s, t);
  }

  lemma SameAdminsSameStreet(streets: seq<Street>, sorted: seq<Branch>, s: Street, t: Street)
    requires s in streets && t in streets && s.admins == t.admins
    requires |streets| == |sorted| && forall i :: 0 <= i < |streets| ==> streets[i].admins == sorted[i]
    requires multiset(sorted)[s.admins] <= 1
    ensures s == t
  {
    var i :| 0 <= i < |streets| && streets[i] == s;
    var j :| 0 <= j < |streets| && streets[j] == t;
    if i < j {
      RepeatsCount(sorted, i, j);
    } else if j < i {
      RepeatsCount(sorted, j, i);
    }
  }

  // ---------------------------------------------------------------- only accepted ways

  ghost predicate NodeOfWay(objs: Objs, id: OsmId) {
    id.NodeId? && exists w :: IsWay(objs, w) && id.id in w.nodes
  }

  ghost predicate MemberOfRelation(objs: Objs, id: OsmId) {
    exists r :: IsRelation(objs, r) && exists i :: 0 <= i < |r.refs| && r.refs[i].member == id
  }

  /** What the reader loads: accepted objects, and those that a loaded way or relation refers to. */
  ghost predicate LoadedClosure(exclusions: StreetExclusion, objs: Objs) {
    forall id :: id in objs ==> IsValidObj(exclusions, objs[id]) || MemberOfRelation(objs, id) || NodeOfWay(objs, id)
  }

  /** A way street comes from an accepted way, although ways are also loaded as members of relations. */
  lemma WayStreetsComeFromAcceptedWays(exclusions: StreetExclusion, f: Finder, objs: Objs, m: BestMap, id: int, s: Street)
    requires LoadedClosure(exclusions, objs) && IsBestMap(f, objs, m) && s in WayStreets(objs, m, id)
    ensures Of(s, "way", id) && NamedWay(objs, id, s.name) && IsValidObj(exclusions, objs[WayId(id)])
    ensures var tags := objs[WayId(id)].tags;
            && s.name != "" && "highway" in tags && tags["highway"] != ""
            && (exclusions.highway.Some? ==> tags["highway"] !in exclusions.highway.value)
            && ("public_transport" in tags && exclusions.publicTransport.Some? ==>
                  tags["public_transport"] !in exclusions.publicTransport.value)
  {
    WayStreetsIds(objs, m, id);
    WayOfStreet(f, objs, m, id, s);
    NonMemberIsAccepted(exclusions, objs, objs[WayId(id)]);
  }

  /** The way of a way street is stored, outside every relation, and bears the name of the street. */
  lemma WayOfStreet(f: Finder, objs: Objs, m: BestMap, id: int, s: Street)
    requires IsBestMap(f, objs, m) && s in WayStreets(objs, m, id)
    ensures NamedWay(objs, id, s.name)
  {
    WayStreetHasEntry(f, objs, m, id, s);
    EntryIsSound(f, objs, m, Key(s.name, CityOf(s.admins).value));
  }

  /** A stored way outside every relation was asked for. */
  lemma NonMemberIsAccepted(exclusions: StreetExclusion, objs: Objs, w: OsmObj)
    requires LoadedClosure(exclusions, objs) && IsWay(objs, w) && !InRelation(objs, w.Id())
    ensures IsValidObj(exclusions, w)
  {
  }

  // ---------------------------------------------------------------- where a street is

  lemma {:induction false} FirstNodeAppend(objs: Objs, xs: seq<int>, ys: seq<int>)
    ensures FirstNode(objs, xs + ys) == if FirstNode(objs, xs).Some? then FirstNode(objs, xs) else FirstNode(objs, ys)
  {
    if xs == [] {
      assert xs + ys == ys;
    } else {
      assert (xs + ys)[1..] == xs[1..] + ys;
      FirstNodeAppend(objs, xs[1..], ys);
    }
  }

  /**
   * The coordinates of a street are the point whose regions it gets exactly when a node of the right
   * half is stored, or the first stored node of the left half happens to be the origin.
   */
  lemma StreetIsWhereItsRegionsAre(objs: Objs, nodes: seq<int>)
    ensures LookupPoint(objs, nodes) == Some(GetWayCoord(objs, nodes))
       <==> FirstNode(objs, RightHalf(nodes)).Some? || FirstNode(objs, nodes[..|nodes| / 2]) == Some(ORIGIN)
  {
    FirstNodeAppend(objs, RightHalf(nodes), nodes[..|nodes| / 2]);
  }

  /** A way whose first node alone is stored gets the regions of that node, and the origin as its coordinates. */
  lemma StreetCanBeElsewhere(at: Point)
    requires at != ORIGIN
    ensures var objs := map[NodeId(1) := OsmObj.Node(1, at)];
            LookupPoint(objs, [1, 2]) == Some(at) && GetWayCoord(objs, [1, 2]) == ORIGIN
  {
    var objs := map[NodeId(1) := OsmObj.Node(1, at)];
    assert RightHalf([1, 2]) == [2] && [1, 2][..1] == [1] && [2][1..] == [];
    assert FirstNode(objs, [2]) == FirstNode(objs, []);
    FirstNodeAppend(objs, [2], [1]);
  }

  // ---------------------------------------------------------------- the numbering of documents

  /** The documents of a street do not depend on the order in which its branches were found. */
  lemma DocumentsDoNotDependOnOrder(name: string, kind: string, id: int, xs: seq<Branch>, ys: seq<Branch>, coord: Point)
    requires multiset(xs) == multiset(ys) && IdsTell(xs)
    ensures BuildStreets(name, kind, id, xs, coord) == BuildStreets(name, kind, id, ys, coord)
  {
    assert |multiset(xs)| == |xs| && |multiset(ys)| == |ys|;
    SortIsCanonical(xs, ys);
  }

  /** The branches found at a point are told apart by their ids, when the regions are. */
  lemma FoundBranchesAreTold(f: Finder, objs: Objs, nodes: seq<int>)
    requires f.Valid() && EntriesAreCurrent(f.t, f.byId)
    ensures IdsTell(GetStreetAdmin(f, objs, nodes))
  {
    var branches := GetStreetAdmin(f, objs, nodes);
    forall a: Branch, b: Branch | a in branches && b in branches && SameIds(a, b) ensures a == b {
      var p := LookupPoint(objs, nodes).value;
      BranchIsOfStored(f, p, a);
      BranchIsOfStored(f, p, b);
      forall i | 0 <= i < |a| ensures a[i] == b[i] {
        assert a[i].id == b[i].id;
      }
    }
  }

  lemma BranchIsOfStored(f: Finder, p: Point, branch: Branch)
    requires f.Valid() && EntriesAreCurrent(f.t, f.byId) && branch in ChainsResult(f.g, f.t, f.byId, p, UpToCity)
    ensures forall i :: 0 <= i < |branch| ==> branch[i].id in f.byId && f.byId[branch[i].id] == branch[i]
  {
    ChainIsRegionAndAllAbove(f.g, f.t, f.byId, p, UpToCity, branch);
    var s :| Qualifies(f.g, f.t, p, UpToCity, s) && branch != [] && branch[0] == s.admin;
    forall i: nat | i < |branch| ensures branch[i].id in f.byId && f.byId[branch[i].id] == branch[i] {
      if i > 0 {
        UpIsStored(f.byId, branch[0], i);
      }
    }
  }
}
