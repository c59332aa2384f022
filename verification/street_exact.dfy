/**
 * What the street extraction returns, in terms of tags, nodes, regions and ids alone: which ways and
 * relations become streets, with which name, place and regions, under which ids.
 */
module StreetExact {
  import opened Wrappers
  import opened Hierarchy
  import opened SpatialIndex
  import opened OsmStore
  import opened DocumentIds
  import opened BranchOrder
  import opened Streets
  import opened StreetPasses
  import opened StreetProperties

  // ---------------------------------------------------------------- cities

  /** The first region of the branch that is a city has this id. */
  ghost predicate FirstCity(branch: Branch, id: string) {
    exists i :: 0 <= i < |branch| && branch[i].zoneType == Some(City) && branch[i].id == id && NoCityBefore(branch, i)
  }

  ghost predicate NoCityBefore(branch: Branch, n: int)
    requires n <= |branch|
  {
    forall j :: 0 <= j < n ==> branch[j].zoneType != Some(City)
  }

  /** A way is merged under the first city of a branch, and under none where the branch has no city. */
  lemma {:induction false} CityOfExactly(branch: Branch, id: string)
    ensures CityOf(branch) == Some(id) <==> FirstCity(branch, id)
    ensures CityOf(branch).None? <==> NoCityBefore(branch, |branch|)
  {
    if branch != [] {
      var rest := branch[1..];
      CityOfExactly(rest, id);
      if branch[0].zoneType == Some(City) {
        assert NoCityBefore(branch, 0);
      } else {
        if i :| 0 <= i < |rest| && rest[i].zoneType == Some(City) && rest[i].id == id && NoCityBefore(rest, i) {
          assert branch[i + 1] == rest[i];
          assert NoCityBefore(branch, i + 1) by {
            forall j | 0 <= j < i + 1 ensures branch[j].zoneType != Some(City) {
              assert j > 0 ==> branch[j] == rest[j - 1];
            }
          }
        }
        if i :| 0 <= i < |branch| && branch[i].zoneType == Some(City) && branch[i].id == id && NoCityBefore(branch, i) {
          assert rest[i - 1] == branch[i];
          assert NoCityBefore(rest, i - 1) by {
            forall j | 0 <= j < i - 1 ensures rest[j].zoneType != Some(City) {
              assert rest[j] == branch[j + 1];
            }
          }
        }
        NoCityTail(branch);
      }
    }
  }

  lemma NoCityTail(branch: Branch)
    requires branch != [] && branch[0].zoneType != Some(City)
    ensures NoCityBefore(branch, |branch|) <==> NoCityBefore(branch[1..], |branch[1..]|)
  {
    var rest := branch[1..];
    if NoCityBefore(rest, |rest|) {
      forall j | 0 <= j < |branch| ensures branch[j].zoneType != Some(City) {
        assert j > 0 ==> branch[j] == rest[j - 1];
      }
    }
  }

  /** The regions up to a city are suburbs, city districts and cities. */
  lemma UpToCityExactly(a: Admin)
    ensures UpToCity(a) <==> a.zoneType == Some(Suburb) || a.zoneType == Some(CityDistrict) || a.zoneType == Some(City)
  {
  }

  /** The first branch with this first city. */
  ghost predicate FirstBranchIn(branches: seq<Branch>, city: string, b: Branch) {
    exists i :: 0 <= i < |branches| && branches[i] == b && FirstCity(b, city) && NoneBefore(branches, city, i)
  }

  ghost predicate NoneBefore(branches: seq<Branch>, city: string, n: int)
    requires n <= |branches|
  {
    forall j :: 0 <= j < n ==> !FirstCity(branches[j], city)
  }

  lemma {:induction false} FirstInExactly(branches: seq<Branch>, city: string, b: Branch)
    ensures FirstIn(branches, city) == Some(b) <==> FirstBranchIn(branches, city, b)
  {
    if branches != [] {
      var rest := branches[1..];
      FirstInExactly(rest, city, b);
      CityOfExactly(branches[0], city);
      if FirstCity(branches[0], city) {
        assert NoneBefore(branches, city, 0);
      } else {
        if i :| 0 <= i < |rest| && rest[i] == b && FirstCity(b, city) && NoneBefore(rest, city, i) {
          assert branches[i + 1] == rest[i];
          assert NoneBefore(branches, city, i + 1) by {
            forall j | 0 <= j < i + 1 ensures !FirstCity(branches[j], city) {
              assert j > 0 ==> branches[j] == rest[j - 1];
            }
          }
        }
        if i :| 0 <= i < |branches| && branches[i] == b && FirstCity(b, city) && NoneBefore(branches, city, i) {
          assert rest[i - 1] == branches[i];
          assert NoneBefore(rest, city, i - 1) by {
            forall j | 0 <= j < i - 1 ensures !FirstCity(rest[j], city) {
              assert rest[j] == branches[j + 1];
            }
          }
        }
      }
    }
  }

  lemma {:induction false} FirstInSome(branches: seq<Branch>, city: string)
    ensures FirstIn(branches, city).Some? <==> exists b :: b in branches && FirstCity(b, city)
  {
    if branches != [] {
      CityOfExactly(branches[0], city);
      FirstInSome(branches[1..], city);
      assert branches == [branches[0]] + branches[1..];
    }
  }

  // ---------------------------------------------------------------- nodes

  ghost predicate NodeStored(objs: Objs, id: int) {
    NodeId(id) in objs && objs[NodeId(id)].Node?
  }

  /** The point is the position of the first stored node of the list. */
  ghost predicate FirstStoredAt(objs: Objs, nodes: seq<int>, p: Point) {
    exists i :: 0 <= i < |nodes| && NodeStored(objs, nodes[i]) && objs[NodeId(nodes[i])].at == p && NoneStored(objs, nodes[..i])
  }

  ghost predicate NoneStored(objs: Objs, nodes: seq<int>) {
    forall n :: n in nodes ==> !NodeStored(objs, n)
  }

  lemma {:induction false} FirstNodeExactly(objs: Objs, nodes: seq<int>, p: Point)
    ensures FirstNode(objs, nodes) == Some(p) <==> FirstStoredAt(objs, nodes, p)
    ensures FirstNode(objs, nodes).None? <==> NoneStored(objs, nodes)
  {
    if nodes != [] {
      var rest := nodes[1..];
      FirstNodeExactly(objs, rest, p);
      assert nodes == [nodes[0]] + rest;
      if NodeStored(objs, nodes[0]) {
        assert NoneStored(objs, nodes[..0]);
        assert forall i :: 0 < i <= |nodes| ==> nodes[0] in nodes[..i];
      } else {
        forall i | 0 <= i <= |rest| ensures NoneStored(objs, nodes[..i + 1]) <==> NoneStored(objs, rest[..i]) {
          assert nodes[..i + 1] == [nodes[0]] + rest[..i];
        }
        if FirstStoredAt(objs, rest, p) {
          var i :| 0 <= i < |rest| && NodeStored(objs, rest[i]) && objs[NodeId(rest[i])].at == p && NoneStored(objs, rest[..i]);
          assert nodes[i + 1] == rest[i];
        }
        if FirstStoredAt(objs, nodes, p) {
          var i :| 0 <= i < |nodes| && NodeStored(objs, nodes[i]) && objs[NodeId(nodes[i])].at == p && NoneStored(objs, nodes[..i]);
          assert rest[i - 1] == nodes[i];
        }
      }
    }
  }

  /** Where a street is placed: at the first stored node from the middle of its way on, or at the origin. */
  lemma WayCoordExactly(objs: Objs, nodes: seq<int>, p: Point)
    ensures var half := nodes[|nodes| / 2..];
            GetWayCoord(objs, nodes) == p
            <==> FirstStoredAt(objs, half, p) || (NoneStored(objs, half) && p == Point(0.0, 0.0))
  {
    var half := nodes[|nodes| / 2..];
    FirstNodeExactly(objs, half, p);
    FirstNodeExactly(objs, half, GetWayCoord(objs, nodes));
  }

  /** Where its regions are looked up: at the first stored node from the middle on, then from the start. */
  lemma LookupPointExactly(objs: Objs, nodes: seq<int>, p: Point)
    ensures var second, first := nodes[|nodes| / 2..], nodes[..|nodes| / 2];
            LookupPoint(objs, nodes) == Some(p)
            <==> FirstStoredAt(objs, second, p) || (NoneStored(objs, second) && FirstStoredAt(objs, first, p))
  {
    var second, first := nodes[|nodes| / 2..], nodes[..|nodes| / 2];
    FirstNodeAppend(objs, second, first);
    FirstNodeExactly(objs, second, p);
    FirstNodeExactly(objs, first, p);
  }

  // ---------------------------------------------------------------- the documents of one object

  /** The id of document `i`: numbered only where there are several. */
  ghost predicate IsDocId(id: string, kind: string, osmId: int, several: bool, i: nat) {
    id == "street:osm:" + kind + ":" + Decimal(osmId) + if several then "-" + Decimal(i) else ""
  }

  /** One document for each branch, in the order of the ids of their regions, all of one name and place. */
  ghost predicate AreDocuments(streets: seq<Street>, name: string, kind: string, osmId: int, branches: seq<Branch>, coord: Point) {
    && |streets| == |branches|
    && (forall b :: CountOf(streets, b) == multiset(branches)[b])
    && (forall i :: 0 <= i < |streets| ==>
          streets[i].name == name && streets[i].coord == coord && IsDocId(streets[i].id, kind, osmId, |branches| > 1, i))
    && (forall i, j :: 0 <= i < j < |streets| ==> !Less(streets[j].admins, streets[i].admins))
  }

  /** How many of the streets have this branch. */
  function CountOf(streets: seq<Street>, b: Branch): nat {
    if streets == [] then 0 else (if streets[0].admins == b then 1 else 0) + CountOf(streets[1..], b)
  }

  lemma {:induction false} CountOfBranches(streets: seq<Street>, branches: seq<Branch>, b: Branch)
    requires |streets| == |branches| && forall i :: 0 <= i < |streets| ==> streets[i].admins == branches[i]
    ensures CountOf(streets, b) == multiset(branches)[b]
  {
    if streets != [] {
      CountOfBranches(streets[1..], branches[1..], b);
      assert branches == [branches[0]] + branches[1..];
    }
  }

  lemma BuildStreetsExactly(name: string, kind: string, id: int, branches: seq<Branch>, coord: Point)
    ensures AreDocuments(BuildStreets(name, kind, id, branches, coord), name, kind, id, branches, coord)
  {
    var streets := BuildStreets(name, kind, id, branches, coord);
    SortPermutes(branches);
    SortSorts(branches);
    forall b ensures CountOf(streets, b) == multiset(branches)[b] {
      CountOfBranches(streets, Sort(branches), b);
    }
  }

  // ---------------------------------------------------------------- streets of relations

  /** The member is a stored way of role street, and it or the relation has a name. */
  ghost predicate GivesStreet(objs: Objs, rel: OsmObj, r: Ref)
    requires rel.Relation?
  {
    && r.member.WayId? && r.role == "street" && r.member in objs && objs[r.member].Way?
    && ("name" in rel.tags || "name" in objs[r.member].tags)
  }

  /** The member number `i` is the first that gives a street. */
  ghost predicate FirstGives(objs: Objs, rel: OsmObj, i: nat)
    requires rel.Relation? && i < |rel.refs|
  {
    GivesStreet(objs, rel, rel.refs[i]) && forall r :: r in rel.refs[..i] ==> !GivesStreet(objs, rel, r)
  }

  lemma {:induction false} FirstStreetWayAt(objs: Objs, rel: OsmObj, refs: seq<Ref>, i: nat)
    requires rel.Relation? && i < |refs| && GivesStreet(objs, rel, refs[i])
    requires forall r :: r in refs[..i] ==> !GivesStreet(objs, rel, r)
    ensures var way := objs[refs[i].member];
            FirstStreetWay(objs, NameOf(rel.tags), refs)
            == Some((way, if "name" in rel.tags then rel.tags["name"] else way.tags["name"]))
  {
    if i > 0 {
      assert refs[0] in refs[..i];
      assert refs[1..][..i - 1] == refs[..i][1..];
      FirstStreetWayAt(objs, rel, refs[1..], i - 1);
    }
  }

  lemma {:induction false} NoStreetWay(objs: Objs, rel: OsmObj, refs: seq<Ref>)
    requires rel.Relation? && forall r :: r in refs ==> !GivesStreet(objs, rel, r)
    ensures FirstStreetWay(objs, NameOf(rel.tags), refs).None?
  {
    if refs != [] {
      assert refs[0] in refs;
      NoStreetWay(objs, rel, refs[1..]);
    }
  }

  /**
   * The streets of a relation are the documents of its first member that gives a street, under the
   * relation's name, or the way's where it has none; without such a member there are none.
   */
  lemma RelationStreetsExactly(f: Finder, objs: Objs, rel: OsmObj)
    requires rel.Relation?
    ensures (forall r :: r in rel.refs ==> !GivesStreet(objs, rel, r)) ==> RelationStreets(f, objs, rel) == []
    ensures forall i: nat :: i < |rel.refs| && FirstGives(objs, rel, i) ==>
                var way := objs[rel.refs[i].member];
                AreDocuments(RelationStreets(f, objs, rel), if "name" in rel.tags then rel.tags["name"] else way.tags["name"],
                             "relation", rel.id, GetStreetAdmin(f, objs, way.nodes), GetWayCoord(objs, way.nodes))
  {
    if forall r :: r in rel.refs ==> !GivesStreet(objs, rel, r) {
      NoStreetWay(objs, rel, rel.refs);
    }
    forall i: nat | i < |rel.refs| && FirstGives(objs, rel, i)
      ensures var way := objs[rel.refs[i].member];
              AreDocuments(RelationStreets(f, objs, rel), if "name" in rel.tags then rel.tags["name"] else way.tags["name"],
                           "relation", rel.id, GetStreetAdmin(f, objs, way.nodes), GetWayCoord(objs, way.nodes))
    {
      FirstStreetWayAt(objs, rel, rel.refs, i);
      var way := objs[rel.refs[i].member];
      BuildStreetsExactly(if "name" in rel.tags then rel.tags["name"] else way.tags["name"], "relation", rel.id,
                          GetStreetAdmin(f, objs, way.nodes), GetWayCoord(objs, way.nodes));
    }
  }

  // ---------------------------------------------------------------- streets of ways

  /** The way is stored and in no relation, bears the name, and has a branch in the city. */
  ghost predicate Eligible(f: Finder, objs: Objs, name: string, city: string, w: OsmObj) {
    && w.Way? && WayId(w.id) in objs && objs[WayId(w.id)] == w
    && (forall r :: IsRelation(objs, r) ==> forall i :: 0 <= i < |r.refs| ==> r.refs[i].member != WayId(w.id))
    && "name" in w.tags && w.tags["name"] == name
    && exists b :: b in GetStreetAdmin(f, objs, w.nodes) && FirstCity(b, city)
  }

  lemma EligibleIsCandidate(f: Finder, objs: Objs, name: string, city: string, w: OsmObj)
    ensures Eligible(f, objs, name, city, w) <==> Candidate(f, objs, Key(name, city), w)
  {
    if w.Way? {
      FirstInSome(GetStreetAdmin(f, objs, w.nodes), city);
      assert InRelation(objs, w.Id())
        <==> exists r :: IsRelation(objs, r) && exists i :: 0 <= i < |r.refs| && r.refs[i].member == WayId(w.id);
    }
  }

  ghost predicate OfWay(s: Street) {
    exists id :: Of(s, "way", id)
  }

  /** The document of a way with this name whose first city is this one. */
  ghost predicate IsWayStreet(streets: seq<Street>, name: string, city: string, s: Street) {
    s in streets && OfWay(s) && s.name == name && FirstCity(s.admins, city)
  }

  /** The street is that of the way of least id among the eligible, with its first branch in the city, where the way is. */
  ghost predicate StandsForLeast(f: Finder, objs: Objs, name: string, city: string, w: OsmObj, s: Street) {
    && Eligible(f, objs, name, city, w) && (forall v :: Eligible(f, objs, name, city, v) ==> w.id <= v.id)
    && Of(s, "way", w.id) && s.coord == GetWayCoord(objs, w.nodes)
    && FirstBranchIn(GetStreetAdmin(f, objs, w.nodes), city, s.admins)
  }

  /** The documents of ways are exactly those of the merged map. */
  lemma OfWayIsWayStreet(f: Finder, objs: Objs, m: BestMap, streets: seq<Street>, s: Street)
    requires Extracted(f, objs, m, streets) && s in streets
    ensures OfWay(s) <==> WayStreet(objs, m, s)
  {
    if OfWay(s) && RelationStreet(f, objs, s) {
      var r :| IsRelation(objs, r) && s in RelationStreets(f, objs, r);
      RelationStreetsIds(f, objs, r);
      var id :| Of(s, "way", id);
      OtherKindOtherId(s, s, r.id, id);
    }
    if WayStreet(objs, m, s) {
      var id :| s in WayStreets(objs, m, id);
      WayStreetsIds(objs, m, id);
    }
  }

  lemma WayStreetStands(f: Finder, objs: Objs, m: BestMap, streets: seq<Street>, name: string, city: string, s: Street)
    requires Extracted(f, objs, m, streets) && IsWayStreet(streets, name, city, s)
    ensures exists w :: StandsForLeast(f, objs, name, city, w, s)
  {
    OfWayIsWayStreet(f, objs, m, streets, s);
    CityOfExactly(s.admins, city);
    var id :| s in WayStreets(objs, m, id);
    WayStreetHasEntry(f, objs, m, id, s);
    WayStreetsIds(objs, m, id);
    WayStreetCoord(objs, m, id, s);
    assert BestFor(f, objs, Key(name, city), Look(m, Key(name, city)));
    var w := BestIsLeast(f, objs, name, city, Best(id, s.admins));
    assert StandsForLeast(f, objs, name, city, w, s);
  }

  lemma BestIsLeast(f: Finder, objs: Objs, name: string, city: string, best: Best) returns (w: OsmObj)
    requires IsBest(f, objs, Key(name, city), best)
    ensures Eligible(f, objs, name, city, w) && w.id == best.id
    ensures forall v :: Eligible(f, objs, name, city, v) ==> w.id <= v.id
    ensures FirstBranchIn(GetStreetAdmin(f, objs, w.nodes), city, best.branch)
  {
    var key := Key(name, city);
    w :| Candidate(f, objs, key, w) && w.id == best.id && BranchIn(f, objs, key, w) == best.branch;
    forall v ensures Eligible(f, objs, name, city, v) <==> Candidate(f, objs, key, v) {
      EligibleIsCandidate(f, objs, name, city, v);
    }
    FirstInExactly(GetStreetAdmin(f, objs, w.nodes), city, best.branch);
  }

  lemma WayStreetCoord(objs: Objs, m: BestMap, id: int, s: Street)
    requires s in WayStreets(objs, m, id)
    ensures WayId(id) in objs && objs[WayId(id)].Way? && s.coord == GetWayCoord(objs, objs[WayId(id)].nodes)
  {
    var keys := SortedKeys(m.Keys);
    BuildStreetsExactly(objs[WayId(id)].tags["name"], "way", id, GroupOf(m, keys, |keys|, id),
                        GetWayCoord(objs, objs[WayId(id)].nodes));
  }

  /**
   * There is a street of a way for a name and a city exactly when some way in no relation bears the
   * name and has a branch whose first city it is; the street is that of the least of those ways.
   */
  lemma WayStreetsAreNameCityPairs(f: Finder, objs: Objs, streets: seq<Street>, name: string, city: string)
    requires Extraction(f, objs, streets)
    ensures (exists w :: Eligible(f, objs, name, city, w)) <==> (exists s :: IsWayStreet(streets, name, city, s))
    ensures forall s :: IsWayStreet(streets, name, city, s) ==> exists w :: StandsForLeast(f, objs, name, city, w, s)
  {
    var m :| Extracted(f, objs, m, streets);
    var key := Key(name, city);
    if w :| Eligible(f, objs, name, city, w) {
      EligibleIsCandidate(f, objs, name, city, w);
      assert BestFor(f, objs, key, Look(m, key));
      var s := EntryHasWayStreet(f, objs, m, key);
      EntryIsSound(f, objs, m, key);
      CityOfExactly(s.admins, city);
      assert WayStreet(objs, m, s);
      OfWayIsWayStreet(f, objs, m, streets, s);
      assert IsWayStreet(streets, name, city, s);
    }
    forall s | IsWayStreet(streets, name, city, s) ensures exists w :: StandsForLeast(f, objs, name, city, w, s) {
      WayStreetStands(f, objs, m, streets, name, city, s);
    }
    if s :| IsWayStreet(streets, name, city, s) {
      var w :| StandsForLeast(f, objs, name, city, w, s);
    }
  }

  /** Two streets of ways with one name and one first city are the same. */
  lemma OneStreetPerNameAndCity(f: Finder, objs: Objs, streets: seq<Street>, name: string, city: string, s: Street, t: Street)
    requires Extraction(f, objs, streets) && IsWayStreet(streets, name, city, s) && IsWayStreet(streets, name, city, t)
    ensures s == t
  {
    var m :| Extracted(f, objs, m, streets);
    OfWayIsWayStreet(f, objs, m, streets, s);
    OfWayIsWayStreet(f, objs, m, streets, t);
    CityOfExactly(s.admins, city);
    CityOfExactly(t.admins, city);
    OneStreetPerKey(f, objs, m, s, t);
  }

  /** Every street is that of a relation, or of a way under its name and the first city of its branch. */
  lemma EveryStreetIsAccountedFor(f: Finder, objs: Objs, streets: seq<Street>, s: Street)
    requires Extraction(f, objs, streets) && s in streets
    ensures (exists r :: IsRelation(objs, r) && s in RelationStreets(f, objs, r))
         || (exists city :: IsWayStreet(streets, s.name, city, s))
  {
    var m :| Extracted(f, objs, m, streets);
    if WayStreet(objs, m, s) {
      OfWayIsWayStreet(f, objs, m, streets, s);
      var id :| s in WayStreets(objs, m, id);
      WayStreetHasEntry(f, objs, m, id, s);
      CityOfExactly(s.admins, CityOf(s.admins).value);
      assert IsWayStreet(streets, s.name, CityOf(s.admins).value, s);
    }
  }

  /** No street of a relation is missing. */
  lemma RelationStreetsAreReturned(f: Finder, objs: Objs, streets: seq<Street>, rel: OsmObj, s: Street)
    requires Extraction(f, objs, streets) && IsRelation(objs, rel) && s in RelationStreets(f, objs, rel)
    ensures s in streets
  {
    var m :| Extracted(f, objs, m, streets);
    assert RelationStreet(f, objs, s);
  }
}
