/**
 * Streets out of OpenStreetMap objects: which objects are read, what a relation yields, how ways
 * of one name and city are merged into the one of least id, and the documents that come out.
 */
module Streets {
  import opened Wrappers
  import opened Hierarchy
  import opened SpatialIndex
  import opened GeoFinder
  import opened GeoFinderProperties
  import opened OsmStore
  import opened DocumentIds
  import opened BranchOrder

  type Objs = map<OsmId, OsmObj>

  /** The contents of a region finder. */
  datatype Finder = Finder(g: Geometry, t: RTree, byId: map<string, Admin>) {
    ghost predicate Valid() {
      Indexed(g, t, byId) && Acyclic(byId)
    }
  }

  datatype Street = Street(id: string, name: string, admins: Branch, coord: Point)

  // ---------------------------------------------------------------- which objects are asked for

  datatype StreetExclusion = StreetExclusion(highway: Option<seq<string>>, publicTransport: Option<seq<string>>)

  predicate Excluded(list: Option<seq<string>>, tag: string) {
    list.Some? && tag in list.value
  }

  /** A named way with an accepted highway tag, or a relation that groups the ways of a street. */
  predicate IsValidObj(exclusions: StreetExclusion, obj: OsmObj) {
    match obj
    case Way(_, tags, _) =>
      && "name" in tags && tags["name"] != ""
      && "highway" in tags && tags["highway"] != "" && !Excluded(exclusions.highway, tags["highway"])
      && ("public_transport" in tags ==> !Excluded(exclusions.publicTransport, tags["public_transport"]))
    case Relation(_, tags, _) => "type" in tags && tags["type"] == "associatedStreet"
    case Node(_, _) => false
  }

  // ---------------------------------------------------------------- where a way is

  /** The position of the first node of the list that is stored. */
  function FirstNode(objs: Objs, nodes: seq<int>): Option<Point> {
    if nodes == [] then None
    else if NodeId(nodes[0]) in objs && objs[NodeId(nodes[0])].Node? then Some(objs[NodeId(nodes[0])].at)
    else FirstNode(objs, nodes[1..])
  }

  function RightHalf(nodes: seq<int>): seq<int> {
    nodes[|nodes| / 2..]
  }

  const ORIGIN := Point(0.0, 0.0)

  /** The coordinates of the document: the first stored node from the middle on, or the origin. */
  function GetWayCoord(objs: Objs, nodes: seq<int>): Point {
    match FirstNode(objs, RightHalf(nodes))
    case Some(p) => p
    case None => ORIGIN
  }

  /** The point looked up in the finder: as above, then from the start of the way. */
  function LookupPoint(objs: Objs, nodes: seq<int>): Option<Point> {
    FirstNode(objs, RightHalf(nodes) + nodes[..|nodes| / 2])
  }

  predicate UpToCity(a: Admin) {
    a.zoneType.Some? && ZoneRank(a.zoneType.value) <= ZoneRank(City)
  }

  /** The branches of regions around a way. */
  ghost function GetStreetAdmin(f: Finder, objs: Objs, nodes: seq<int>): seq<Branch> {
    match LookupPoint(objs, nodes)
    case None => []
    case Some(p) => ChainsResult(f.g, f.t, f.byId, p, UpToCity)
  }

  // ---------------------------------------------------------------- documents

  /** One document for each branch, numbered in the order of the sorted branches. */
  function BuildStreets(name: string, kind: string, id: int, branches: seq<Branch>, coord: Point): (streets: seq<Street>)
    ensures |streets| == |branches|
  {
    var sorted := Sort(branches);
    SortPermutes(branches);
    seq(|sorted|, i requires 0 <= i < |sorted| => Street(DocId(kind, id, |branches| <= 1, i), name, sorted[i], coord))
  }

  // ---------------------------------------------------------------- relations

  /** The first way of role `street` that is stored and gives a name, with that name. */
  function FirstStreetWay(objs: Objs, relName: Option<string>, refs: seq<Ref>): Option<(OsmObj, string)> {
    if refs == [] then None
    else
      var r := refs[0];
      if r.member.WayId? && r.role == "street" && r.member in objs && objs[r.member].Way?
         && (relName.Some? || "name" in objs[r.member].tags)
      then Some((objs[r.member], if relName.Some? then relName.value else objs[r.member].tags["name"]))
      else FirstStreetWay(objs, relName, refs[1..])
  }

  function NameOf(tags: map<string, string>): Option<string> {
    if "name" in tags then Some(tags["name"]) else None
  }

  lemma {:induction false} FirstStreetWayIsWay(objs: Objs, relName: Option<string>, refs: seq<Ref>)
    ensures FirstStreetWay(objs, relName, refs).Some? ==> FirstStreetWay(objs, relName, refs).value.0.Way?
  {
    if refs != [] {
      FirstStreetWayIsWay(objs, relName, refs[1..]);
    }
  }

  ghost function RelationStreets(f: Finder, objs: Objs, rel: OsmObj): seq<Street>
    requires rel.Relation?
  {
    match FirstStreetWay(objs, NameOf(rel.tags), rel.refs)
    case None => []
    case Some(found) =>
      FirstStreetWayIsWay(objs, NameOf(rel.tags), rel.refs);
      var (way, name) := found;
      BuildStreets(name, "relation", rel.id, GetStreetAdmin(f, objs, way.nodes), GetWayCoord(objs, way.nodes))
  }

  predicate HasMember(rel: OsmObj, id: OsmId)
    requires rel.Relation?
  {
    id.WayId? && exists i :: 0 <= i < |rel.refs| && rel.refs[i].member == id
  }

  /** The way is a member of some stored relation. */
  ghost predicate InRelation(objs: Objs, id: OsmId) {
    exists r :: IsRelation(objs, r) && HasMember(r, id)
  }

  ghost predicate IsRelation(objs: Objs, r: OsmObj) {
    r.Relation? && r.Id() in objs && objs[r.Id()] == r
  }

  ghost predicate IsWay(objs: Objs, w: OsmObj) {
    w.Way? && w.Id() in objs && objs[w.Id()] == w
  }

  // ---------------------------------------------------------------- lookups that end

  /** No head around the point where a way is looked up has a cycle above it. */
  ghost predicate WalksEndAround(f: Finder, objs: Objs, nodes: seq<int>) {
    match LookupPoint(objs, nodes)
    case None => true
    case Some(p) => WalksEnd(f.g, f.byId, CandidatesIf(f.t, p, UpToCity), p)
  }

  ghost predicate RelationLookupEnds(f: Finder, objs: Objs, rel: OsmObj)
    requires rel.Relation?
  {
    match FirstStreetWay(objs, NameOf(rel.tags), rel.refs)
    case None => true
    case Some(found) => found.0.Way? ==> WalksEndAround(f, objs, found.0.nodes)
  }

  /** Every lookup that the extraction makes ends. */
  ghost predicate LookupsEnd(f: Finder, objs: Objs) {
    && (forall r :: IsRelation(objs, r) ==> RelationLookupEnds(f, objs, r))
    && (forall w :: IsWay(objs, w) && !InRelation(objs, w.Id()) && "name" in w.tags ==> WalksEndAround(f, objs, w.nodes))
  }

  /** A hierarchy without cycles is enough. */
  lemma AcyclicLookupsEnd(f: Finder, objs: Objs)
    requires Acyclic(f.byId)
    ensures LookupsEnd(f, objs)
  {
    forall nodes ensures WalksEndAround(f, objs, nodes) {
      if LookupPoint(objs, nodes).Some? {
        var p := LookupPoint(objs, nodes).value;
        AcyclicWalksEnd(f.g, f.byId, CandidatesIf(f.t, p, UpToCity), p);
      }
    }
  }

  // ---------------------------------------------------------------- merging ways by name and city

  datatype Key = Key(name: string, city: string)

  datatype Best = Best(id: int, branch: Branch)

  type BestMap = map<Key, Best>

  /** The id of the first city of a branch. */
  function CityOf(branch: Branch): Option<string> {
    if branch == [] then None
    else if branch[0].IsCity() then Some(branch[0].id)
    else CityOf(branch[1..])
  }

  function Look(m: BestMap, key: Key): Option<Best> {
    if key in m then Some(m[key]) else None
  }

  function MergeBranch(m: BestMap, name: string, id: int, branch: Branch): BestMap {
    match CityOf(branch)
    case None => m
    case Some(city) =>
      var key := Key(name, city);
      if key !in m || m[key].id > id then m[key := Best(id, branch)] else m
  }

  function MergeBranches(m: BestMap, name: string, id: int, branches: seq<Branch>): BestMap
    decreases |branches|
  {
    if branches == [] then m else MergeBranches(MergeBranch(m, name, id, branches[0]), name, id, branches[1..])
  }

  /** The first of the branches in a city. */
  function FirstIn(branches: seq<Branch>, city: string): Option<Branch> {
    if branches == [] then None
    else if CityOf(branches[0]) == Some(city) then Some(branches[0])
    else FirstIn(branches[1..], city)
  }

  /** A way replaces what is stored under its name and each of its cities exactly when its id is smaller. */
  lemma {:induction false} MergeBranchesEffect(m: BestMap, name: string, id: int, branches: seq<Branch>, key: Key)
    ensures Look(MergeBranches(m, name, id, branches), key)
         == if key.name == name && FirstIn(branches, key.city).Some? && (key !in m || m[key].id > id)
            then Some(Best(id, FirstIn(branches, key.city).value)) else Look(m, key)
    decreases |branches|
  {
    if branches != [] {
      MergeBranchesEffect(MergeBranch(m, name, id, branches[0]), name, id, branches[1..], key);
    }
  }

  /** Ways that are members of a relation are skipped, and so are ways without a name. */
  ghost function AddWay(f: Finder, objs: Objs, inRelation: set<OsmId>, m: BestMap, w: OsmObj): BestMap
    requires w.Way?
  {
    if w.Id() in inRelation || "name" !in w.tags then m
    else MergeBranches(m, w.tags["name"], w.id, GetStreetAdmin(f, objs, w.nodes))
  }

  ghost predicate AllWays(ways: seq<OsmObj>) {
    forall i :: 0 <= i < |ways| ==> ways[i].Way?
  }

  ghost function AddWays(f: Finder, objs: Objs, inRelation: set<OsmId>, ways: seq<OsmObj>, n: nat): BestMap
    requires AllWays(ways) && n <= |ways|
    decreases n
  {
    if n == 0 then map[] else AddWay(f, objs, inRelation, AddWays(f, objs, inRelation, ways, n - 1), ways[n - 1])
  }

  // ---------------------------------------------------------------- what the merged map is

  /** The way stands for a street of this name in this city. */
  ghost predicate Candidate(f: Finder, objs: Objs, key: Key, w: OsmObj) {
    && IsWay(objs, w) && !InRelation(objs, w.Id())
    && "name" in w.tags && w.tags["name"] == key.name
    && FirstIn(GetStreetAdmin(f, objs, w.nodes), key.city).Some?
  }

  ghost function BranchIn(f: Finder, objs: Objs, key: Key, w: OsmObj): Branch
    requires Candidate(f, objs, key, w)
  {
    FirstIn(GetStreetAdmin(f, objs, w.nodes), key.city).value
  }

  /** The candidate of least id, with its first branch in the city. */
  ghost predicate IsBest(f: Finder, objs: Objs, key: Key, best: Best) {
    && (exists w :: Candidate(f, objs, key, w) && w.id == best.id && BranchIn(f, objs, key, w) == best.branch)
    && (forall w :: Candidate(f, objs, key, w) ==> best.id <= w.id)
  }

  ghost predicate BestFor(f: Finder, objs: Objs, key: Key, best: Option<Best>) {
    match best
    case Some(b) => IsBest(f, objs, key, b)
    case None => forall w :: !Candidate(f, objs, key, w)
  }

  /** Each name and city that has a candidate is mapped to the best one. */
  ghost predicate IsBestMap(f: Finder, objs: Objs, m: BestMap) {
    forall key :: BestFor(f, objs, key, Look(m, key))
  }

  lemma BestIsUnique(f: Finder, objs: Objs, key: Key, a: Best, b: Best)
    requires IsBest(f, objs, key, a) && IsBest(f, objs, key, b)
    ensures a == b
  {
    var v :| Candidate(f, objs, key, v) && v.id == a.id && BranchIn(f, objs, key, v) == a.branch;
    var w :| Candidate(f, objs, key, w) && w.id == b.id && BranchIn(f, objs, key, w) == b.branch;
    assert v.Id() == w.Id();
  }

  lemma BestForIsUnique(f: Finder, objs: Objs, key: Key, a: Option<Best>, b: Option<Best>)
    requires BestFor(f, objs, key, a) && BestFor(f, objs, key, b)
    ensures a == b
  {
    if a.Some? && b.Some? {
      BestIsUnique(f, objs, key, a.value, b.value);
    }
  }

  lemma SameLookups(m: BestMap, m': BestMap)
    requires forall key :: Look(m, key) == Look(m', key)
    ensures m == m'
  {
    forall key ensures key in m <==> key in m' {
      assert Look(m, key) == Look(m', key);
    }
    forall key | key in m ensures m[key] == m'[key] {
      assert Look(m, key) == Look(m', key);
    }
  }

  lemma BestMapIsUnique(f: Finder, objs: Objs, m: BestMap, m': BestMap)
    requires IsBestMap(f, objs, m) && IsBestMap(f, objs, m')
    ensures m == m'
  {
    forall key ensures Look(m, key) == Look(m', key) {
      BestForIsUnique(f, objs, key, Look(m, key), Look(m', key));
    }
    SameLookups(m, m');
  }

  /** A way's claim to a key: its id, and its first branch in the city if it is a candidate. */
  datatype Claim = Claim(id: int, branch: Option<Branch>)

  ghost function ClaimOf(f: Finder, objs: Objs, key: Key, w: OsmObj): Claim
    requires w.Way?
  {
    Claim(w.id, if Candidate(f, objs, key, w) then Some(BranchIn(f, objs, key, w)) else None)
  }

  ghost function Claims(f: Finder, objs: Objs, key: Key, ways: seq<OsmObj>): (claims: seq<Claim>)
    requires AllWays(ways)
    ensures |claims| == |ways|
  {
    seq(|ways|, i requires 0 <= i < |ways| => ClaimOf(f, objs, key, ways[i]))
  }

  /** What is known of a key after `n` ways: the claim of least id among them, or that there is none. */
  ghost predicate BestAmong(claims: seq<Claim>, n: nat, best: Option<Best>)
    requires n <= |claims|
  {
    match best
    case None => forall i :: 0 <= i < n ==> claims[i].branch.None?
    case Some(b) =>
      && Claim(b.id, Some(b.branch)) in claims[..n]
      && (forall i :: 0 <= i < n && claims[i].branch.Some? ==> b.id <= claims[i].id)
  }

  lemma BestAmongStep(claims: seq<Claim>, n: nat, was: Option<Best>, now: Option<Best>)
    requires 0 < n <= |claims| && BestAmong(claims, n - 1, was)
    requires var c := claims[n - 1];
             now == if c.branch.Some? && (was.None? || was.value.id > c.id) then Some(Best(c.id, c.branch.value)) else was
    ensures BestAmong(claims, n, now)
  {
    assert claims[..n] == claims[..n - 1] + [claims[n - 1]];
  }

  /** What one more way does to a key. */
  lemma AddWayEffect(f: Finder, objs: Objs, inRelation: set<OsmId>, m: BestMap, w: OsmObj, key: Key)
    requires IsWay(objs, w) && (w.Id() in inRelation <==> InRelation(objs, w.Id()))
    ensures var c := ClaimOf(f, objs, key, w);
            var was := Look(m, key);
            var now := if c.branch.Some? && (was.None? || was.value.id > c.id) then Some(Best(c.id, c.branch.value)) else was;
            Look(AddWay(f, objs, inRelation, m, w), key) == now
  {
    if w.Id() !in inRelation && "name" in w.tags {
      MergeBranchesEffect(m, w.tags["name"], w.id, GetStreetAdmin(f, objs, w.nodes), key);
    }
  }

  /** The merged map holds the best of the ways added so far, in whatever order they come. */
  lemma {:induction false} AddWaysFindsBest(f: Finder, objs: Objs, inRelation: set<OsmId>, ways: seq<OsmObj>, n: nat, key: Key)
    requires AllWays(ways) && n <= |ways|
    requires forall w :: w in ways ==> IsWay(objs, w) && (w.Id() in inRelation <==> InRelation(objs, w.Id()))
    ensures BestAmong(Claims(f, objs, key, ways), n, Look(AddWays(f, objs, inRelation, ways, n), key))
    decreases n
  {
    if n > 0 {
      var m := AddWays(f, objs, inRelation, ways, n - 1);
      AddWaysFindsBest(f, objs, inRelation, ways, n - 1, key);
      assert ways[n - 1] in ways;
      AddWayEffect(f, objs, inRelation, m, ways[n - 1], key);
      BestAmongStep(Claims(f, objs, key, ways), n, Look(m, key), Look(AddWays(f, objs, inRelation, ways, n), key));
    }
  }

  lemma BestOfAll(f: Finder, objs: Objs, ways: seq<OsmObj>, key: Key, best: Option<Best>)
    requires AllWays(ways) && Enumerates(ways, objs, WayKind)
    requires BestAmong(Claims(f, objs, key, ways), |ways|, best)
    ensures BestFor(f, objs, key, best)
  {
    var claims := Claims(f, objs, key, ways);
    forall w | Candidate(f, objs, key, w) ensures best.Some? && best.value.id <= w.id {
      var i :| 0 <= i < |ways| && ways[i] == w;
      assert claims[i].branch.Some?;
    }
    if best.Some? {
      var i :| 0 <= i < |ways| && claims[i] == Claim(best.value.id, Some(best.value.branch));
      assert Candidate(f, objs, key, ways[i]);
    }
  }

  /** After every stored way is added once, in any order, the map is the best one. */
  lemma AllWaysGiveBestMap(f: Finder, objs: Objs, inRelation: set<OsmId>, ways: seq<OsmObj>)
    requires AllWays(ways) && Enumerates(ways, objs, WayKind)
    requires forall id: OsmId :: id.WayId? ==> (id in inRelation <==> InRelation(objs, id))
    ensures IsBestMap(f, objs, AddWays(f, objs, inRelation, ways, |ways|))
  {
    var m := AddWays(f, objs, inRelation, ways, |ways|);
    forall key ensures BestFor(f, objs, key, Look(m, key)) {
      AddWaysFindsBest(f, objs, inRelation, ways, |ways|, key);
      BestOfAll(f, objs, ways, key, Look(m, key));
    }
  }
}
