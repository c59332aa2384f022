/**
 * Turning the zones of a cosmogony file into administrative regions: ids formatted from another
 * source's ids, parents translated to formatted ids, and the list of regions above each.
 */
module Cosmogony {
  import opened Wrappers
  import opened Hierarchy

  /** A zone of the file; `insee` is the French municipal code among its tags. */
  datatype Zone = Zone(index: nat, osmId: string, insee: Option<string>, parent: Option<nat>, zoneType: Option<ZoneType>)

  /** What is known of each zone's ids: the OpenStreetMap id, and the municipal code of cities. */
  type ZoneIds = map<nat, (string, Option<string>)>

  function FormatId(french: bool, osmId: string, insee: Option<string>): string {
    if french && insee.Some? then "admin:fr:" + insee.value else "admin:osm:" + osmId
  }

  function IdsOf(z: Zone): (string, Option<string>) {
    (z.osmId, if z.zoneType == Some(City) then z.insee else None)
  }

  function ZoneIdsUpTo(zones: seq<Zone>, n: nat): (ids: ZoneIds)
    requires n <= |zones|
    ensures forall i :: 0 <= i < n ==> zones[i].index in ids
    decreases n
  {
    if n == 0 then map[] else ZoneIdsUpTo(zones, n - 1)[zones[n - 1].index := IdsOf(zones[n - 1])]
  }

  function FormattedId(ids: ZoneIds, french: bool, index: nat): string
    requires index in ids
  {
    FormatId(french, ids[index].0, ids[index].1)
  }

  /** The region of a zone, without the list of regions above it. */
  function AdminOf(ids: ZoneIds, french: bool, z: Zone): Admin
    requires z.index in ids
  {
    Admin(FormattedId(ids, french, z.index), z.zoneType,
          if z.parent.Some? && z.parent.value in ids then Some(FormattedId(ids, french, z.parent.value)) else None)
  }

  function AdminMapUpTo(ids: ZoneIds, french: bool, zones: seq<Zone>, n: nat): map<string, Admin>
    requires n <= |zones| && forall i :: 0 <= i < |zones| ==> zones[i].index in ids
    decreases n
  {
    if n == 0 then map[] else
      var a := AdminOf(ids, french, zones[n - 1]);
      AdminMapUpTo(ids, french, zones, n - 1)[a.id := a]
  }

  // ---------------------------------------------------------------- the passes

  /** The first pass: the ids of every zone. */
  method CollectIds(zones: seq<Zone>) returns (ids: ZoneIds)
    ensures ids == ZoneIdsUpTo(zones, |zones|)
    ensures forall i :: 0 <= i < |zones| ==> zones[i].index in ids
  {
    ids := map[];
    for n := 0 to |zones|
      invariant ids == ZoneIdsUpTo(zones, n)
      invariant forall i :: 0 <= i < n ==> zones[i].index in ids
    {
      var insee := None;
      if zones[n].zoneType == Some(City) {
        insee := zones[n].insee;
      }
      ids := ids[zones[n].index := (zones[n].osmId, insee)];
    }
  }

  /** The parent ids met on the way up, kept where they resolve. */
  function Resolved(admins: map<string, Admin>, ids: seq<string>): seq<Admin> {
    if ids == [] then []
    else (if ids[0] in admins then [admins[ids[0]]] else []) + Resolved(admins, ids[1..])
  }

  lemma {:induction false} ResolvedAppend(admins: map<string, Admin>, ids: seq<string>, id: string)
    ensures Resolved(admins, ids + [id]) == Resolved(admins, ids) + if id in admins then [admins[id]] else []
  {
    var last := if id in admins then [admins[id]] else [];
    if ids == [] {
      assert ids + [id] == [id];
      assert Resolved(admins, [id][1..]) == [];
    } else {
      var first := if ids[0] in admins then [admins[ids[0]]] else [];
      assert (ids + [id])[1..] == ids[1..] + [id];
      ResolvedAppend(admins, ids[1..], id);
      Associate(first, Resolved(admins, ids[1..]), last);
    }
  }

  lemma Associate(xs: seq<Admin>, ys: seq<Admin>, zs: seq<Admin>)
    ensures xs + (ys + zs) == (xs + ys) + zs
  {
  }

  /** The parent ids followed so far resolve to the regions between `admin` and `current`. */
  ghost predicate Followed(admins: map<string, Admin>, admin: Admin, parentIds: seq<string>, current: Admin) {
    ChainFinite(admins, current) && Resolved(admins, parentIds) + Ancestors(admins, current) == Ancestors(admins, admin)
  }

  lemma FollowOne(admins: map<string, Admin>, admin: Admin, parentIds: seq<string>, current: Admin)
    requires Followed(admins, admin, parentIds, current) && current.parentId.Some?
    ensures var id := current.parentId.value;
            if id in admins then
              Followed(admins, admin, parentIds + [id], admins[id])
              && |Ancestors(admins, admins[id])| < |Ancestors(admins, current)|
            else Resolved(admins, parentIds + [id]) == Ancestors(admins, admin)
  {
    var id := current.parentId.value;
    ResolvedAppend(admins, parentIds, id);
    AncestorsUnfold(admins, current);
    if id in admins {
      Shift(Resolved(admins, parentIds), admins[id], Ancestors(admins, admins[id]));
    } else {
      NothingMore(Resolved(admins, parentIds));
    }
  }

  lemma Shift(xs: seq<Admin>, a: Admin, ys: seq<Admin>)
    ensures xs + ([a] + ys) == (xs + [a]) + ys
    ensures |ys| < |[a] + ys|
  {
  }

  lemma NothingMore(xs: seq<Admin>)
    ensures xs + [] == xs
  {
  }

  /** The regions above a region: the loop follows parent ids until one is missing. */
  method AdministrativeRegions(admins: map<string, Admin>, admin: Admin) returns (regions: seq<Admin>)
    requires ChainFinite(admins, admin)
    ensures regions == Ancestors(admins, admin)
  {
    var parentIds: seq<string> := [];
    var current := admin;
    assert Resolved(admins, []) + Ancestors(admins, admin) == Ancestors(admins, admin);
    while current.parentId.Some?
      invariant Followed(admins, admin, parentIds, current)
      decreases |Ancestors(admins, current)|
    {
      FollowOne(admins, admin, parentIds, current);
      parentIds := parentIds + [current.parentId.value];
      if parentIds[|parentIds| - 1] in admins {
        current := admins[parentIds[|parentIds| - 1]];
      } else {
        return Resolved(admins, parentIds);
      }
    }
    AncestorsUnfold(admins, current);
    assert Resolved(admins, parentIds) + [] == Resolved(admins, parentIds);
    regions := Resolved(admins, parentIds);
  }

  /** The two later passes: regions without boundaries by id, then every region with those above it. */
  method IndexCosmogony(zones: seq<Zone>, french: bool) returns (admins: seq<Admin>, regions: seq<seq<Admin>>)
    requires Acyclic(AdminMapUpTo(ZoneIdsUpTo(zones, |zones|), french, zones, |zones|))
    ensures |admins| == |regions| == |zones|
    ensures var ids := ZoneIdsUpTo(zones, |zones|);
            forall i :: 0 <= i < |zones| ==>
              && admins[i] == AdminOf(ids, french, zones[i])
              && regions[i] == Ancestors(AdminMapUpTo(ids, french, zones, |zones|), admins[i])
  {
    var ids := CollectIds(zones);
    var byId: map<string, Admin> := map[];
    for n := 0 to |zones|
      invariant byId == AdminMapUpTo(ids, french, zones, n)
    {
      var a := AdminOf(ids, french, zones[n]);
      byId := byId[a.id := a];
    }
    admins, regions := [], [];
    for n := 0 to |zones|
      invariant |admins| == |regions| == n
      invariant forall i :: 0 <= i < n ==> admins[i] == AdminOf(ids, french, zones[i]) && regions[i] == Ancestors(byId, admins[i])
    {
      var a := AdminOf(ids, french, zones[n]);
      AcyclicAbove(byId, a);
      var above := AdministrativeRegions(byId, a);
      admins, regions := admins + [a], regions + [above];
    }
  }

  // ---------------------------------------------------------------- formatted ids

  /** Formatted ids coincide only for equal municipal codes, or equal OpenStreetMap ids. */
  lemma FormatIdCollides(french: bool, osmId: string, insee: Option<string>, osmId': string, insee': Option<string>)
    ensures FormatId(french, osmId, insee) == FormatId(french, osmId', insee')
       <==> if french && insee.Some? then insee == insee' else !(french && insee'.Some?) && osmId == osmId'
  {
    var a, b := FormatId(french, osmId, insee), FormatId(french, osmId', insee');
    assert "admin:fr:"[6] == 'f' && "admin:osm:"[6] == 'o';
    assert a[6] == (if french && insee.Some? then 'f' else 'o') && b[6] == (if french && insee'.Some? then 'f' else 'o');
    assert insee.Some? ==> ("admin:fr:" + insee.value)[9..] == insee.value;
    assert insee'.Some? ==> ("admin:fr:" + insee'.value)[9..] == insee'.value;
    assert ("admin:osm:" + osmId)[10..] == osmId && ("admin:osm:" + osmId')[10..] == osmId';
  }

  // ---------------------------------------------------------------- the hierarchy of the file

  ghost predicate DistinctIndexes(zones: seq<Zone>) {
    forall i, j :: 0 <= i < j < |zones| ==> zones[i].index != zones[j].index
  }

  lemma {:induction false} ZoneIdsAre(zones: seq<Zone>, n: nat)
    requires n <= |zones|
    ensures forall x :: x in ZoneIdsUpTo(zones, n) <==> exists i :: 0 <= i < n && zones[i].index == x
    ensures DistinctIndexes(zones) ==>
              forall i :: 0 <= i < n ==>
                zones[i].index in ZoneIdsUpTo(zones, n) && ZoneIdsUpTo(zones, n)[zones[i].index] == IdsOf(zones[i])
    decreases n
  {
    if n > 0 {
      ZoneIdsAre(zones, n - 1);
      forall x ensures x in ZoneIdsUpTo(zones, n) <==> exists i :: 0 <= i < n && zones[i].index == x {
        if x == zones[n - 1].index {
          assert 0 <= n - 1 < n && zones[n - 1].index == x;
        }
      }
    }
  }

  /** No two zones get the same formatted id. */
  ghost predicate DistinctFormattedIds(ids: ZoneIds, french: bool, zones: seq<Zone>)
    requires forall i :: 0 <= i < |zones| ==> zones[i].index in ids
  {
    forall i, j :: 0 <= i < j < |zones| ==>
      FormattedId(ids, french, zones[i].index) != FormattedId(ids, french, zones[j].index)
  }

  lemma {:induction false} AdminMapKeys(ids: ZoneIds, french: bool, zones: seq<Zone>, n: nat, id: string)
    requires n <= |zones| && forall i :: 0 <= i < |zones| ==> zones[i].index in ids
    requires id in AdminMapUpTo(ids, french, zones, n)
    ensures exists i :: 0 <= i < n && FormattedId(ids, french, zones[i].index) == id
    decreases n
  {
    if id != FormattedId(ids, french, zones[n - 1].index) {
      AdminMapKeys(ids, french, zones, n - 1, id);
    }
  }

  lemma {:induction false} AdminMapHolds(ids: ZoneIds, french: bool, zones: seq<Zone>, n: nat, i: nat)
    requires i < n <= |zones| && forall i :: 0 <= i < |zones| ==> zones[i].index in ids
    requires DistinctFormattedIds(ids, french, zones)
    ensures var m := AdminMapUpTo(ids, french, zones, n);
            var id := FormattedId(ids, french, zones[i].index);
            id in m && m[id] == AdminOf(ids, french, zones[i])
    decreases n
  {
    if i < n - 1 {
      AdminMapHolds(ids, french, zones, n - 1, i);
    }
  }

  /** The id of a zone's region: its municipal code where French cities are to keep it, else its OpenStreetMap id. */
  function RegionId(french: bool, z: Zone): string {
    if french && z.zoneType == Some(City) && z.insee.Some? then "admin:fr:" + z.insee.value else "admin:osm:" + z.osmId
  }

  /** The region carries the zone's type, the id of the zone, and the id of the parent zone where the file has it. */
  lemma RegionOfZone(zones: seq<Zone>, french: bool, z: Zone)
    requires z in zones && DistinctIndexes(zones)
    ensures var ids := ZoneIdsUpTo(zones, |zones|);
            && z.index in ids
            && AdminOf(ids, french, z).zoneType == z.zoneType
            && AdminOf(ids, french, z).id == RegionId(french, z)
            && (forall p :: IsParentZone(zones, z, p) ==> AdminOf(ids, french, z).parentId == Some(RegionId(french, p)))
            && ((forall p :: !IsParentZone(zones, z, p)) ==> AdminOf(ids, french, z).parentId.None?)
  {
    var ids := ZoneIdsUpTo(zones, |zones|);
    ZoneIdsAre(zones, |zones|);
    var i :| 0 <= i < |zones| && zones[i] == z;
    forall p | IsParentZone(zones, z, p) ensures AdminOf(ids, french, z).parentId == Some(RegionId(french, p)) {
      var j :| 0 <= j < |zones| && zones[j] == p;
    }
    if z.parent.Some? && z.parent.value in ids {
      var k :| 0 <= k < |zones| && zones[k].index == z.parent.value;
      assert IsParentZone(zones, z, zones[k]);
    }
  }

  /** The zone that `z` names as its parent, when it is in the file. */
  ghost predicate IsParentZone(zones: seq<Zone>, z: Zone, p: Zone) {
    z.parent.Some? && p in zones && p.index == z.parent.value
  }

  /** `chain` lists the zones above `z` in the file, nearest first, up to the first that is missing. */
  ghost predicate IsZoneChain(zones: seq<Zone>, z: Zone, chain: seq<Zone>)
    decreases |chain|
  {
    if chain == [] then forall p :: !IsParentZone(zones, z, p)
    else IsParentZone(zones, z, chain[0]) && IsZoneChain(zones, chain[0], chain[1..])
  }

  function AdminsOf(ids: ZoneIds, french: bool, chain: seq<Zone>): seq<Admin>
    requires forall z :: z in chain ==> z.index in ids
  {
    seq(|chain|, i requires 0 <= i < |chain| => AdminOf(ids, french, chain[i]))
  }

  /** A parent id is the id that the parent zone itself gets. */
  lemma ParentIdIsIdOfParent(zones: seq<Zone>, french: bool, z: Zone, p: Zone)
    requires z in zones && IsParentZone(zones, z, p)
    ensures var ids := ZoneIdsUpTo(zones, |zones|);
            && z.index in ids && p.index in ids
            && AdminOf(ids, french, z).parentId == Some(AdminOf(ids, french, p).id)
  {
    ZoneIdsAre(zones, |zones|);
    var i :| 0 <= i < |zones| && zones[i] == z;
    var j :| 0 <= j < |zones| && zones[j] == p;
  }

  lemma ParentOfAdminIsAdminOfParent(zones: seq<Zone>, french: bool, z: Zone)
    requires z in zones && DistinctIndexes(zones)
    requires DistinctFormattedIds(ZoneIdsUpTo(zones, |zones|), french, zones)
    ensures var ids := ZoneIdsUpTo(zones, |zones|);
            var byId := AdminMapUpTo(ids, french, zones, |zones|);
            && (forall p :: IsParentZone(zones, z, p) ==>
                  p.index in ids && Parent(byId, AdminOf(ids, french, z)) == Some(AdminOf(ids, french, p)))
            && ((forall p :: !IsParentZone(zones, z, p)) ==> Parent(byId, AdminOf(ids, french, z)).None?)
  {
    var ids := ZoneIdsUpTo(zones, |zones|);
    ZoneIdsAre(zones, |zones|);
    if z.parent.Some? && z.parent.value in ids {
      var i :| 0 <= i < |zones| && zones[i].index == z.parent.value;
      assert IsParentZone(zones, z, zones[i]);
    }
    forall p | IsParentZone(zones, z, p)
      ensures p.index in ids
      ensures Parent(AdminMapUpTo(ids, french, zones, |zones|), AdminOf(ids, french, z)) == Some(AdminOf(ids, french, p))
    {
      var i: nat :| i < |zones| && zones[i] == p;
      AdminMapHolds(ids, french, zones, |zones|, i);
    }
  }

  /**
   * When indexes and formatted ids are distinct, the regions above a region are those of the zones
   * above its zone in the file, nearest first, up to the first missing parent.
   */
  lemma {:induction false} RegionsFollowZones(zones: seq<Zone>, french: bool, z: Zone, chain: seq<Zone>)
    requires z in zones && DistinctIndexes(zones) && IsZoneChain(zones, z, chain)
    requires DistinctFormattedIds(ZoneIdsUpTo(zones, |zones|), french, zones)
    ensures forall p :: p in chain ==> p.index in ZoneIdsUpTo(zones, |zones|)
    ensures var ids := ZoneIdsUpTo(zones, |zones|);
            var byId := AdminMapUpTo(ids, french, zones, |zones|);
            && ChainFinite(byId, AdminOf(ids, french, z))
            && Ancestors(byId, AdminOf(ids, french, z)) == AdminsOf(ids, french, chain)
    decreases |chain|
  {
    var ids := ZoneIdsUpTo(zones, |zones|);
    var byId := AdminMapUpTo(ids, french, zones, |zones|);
    var a := AdminOf(ids, french, z);
    ParentOfAdminIsAdminOfParent(zones, french, z);
    if chain == [] {
      assert Up(byId, a, 1).None?;
    } else {
      RegionsFollowZones(zones, french, chain[0], chain[1..]);
      assert chain == [chain[0]] + chain[1..];
      ParentChainFinite(byId, a);
    }
    AncestorsUnfold(byId, a);
  }

  /** A file whose zones all have finite chains gives regions without cycles. */
  lemma AcyclicFileGivesAcyclicRegions(zones: seq<Zone>, french: bool)
    requires DistinctIndexes(zones)
    requires forall i :: 0 <= i < |zones| ==> exists chain :: IsZoneChain(zones, zones[i], chain)
    requires DistinctFormattedIds(ZoneIdsUpTo(zones, |zones|), french, zones)
    ensures Acyclic(AdminMapUpTo(ZoneIdsUpTo(zones, |zones|), french, zones, |zones|))
  {
    var ids := ZoneIdsUpTo(zones, |zones|);
    var byId := AdminMapUpTo(ids, french, zones, |zones|);
    forall id | id in byId ensures ChainFinite(byId, byId[id]) {
      AdminMapKeys(ids, french, zones, |zones|, id);
      var i: nat :| i < |zones| && FormattedId(ids, french, zones[i].index) == id;
      AdminMapHolds(ids, french, zones, |zones|, i);
      var chain :| IsZoneChain(zones, zones[i], chain);
      RegionsFollowZones(zones, french, zones[i], chain);
    }
  }
}
