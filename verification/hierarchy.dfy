/**
 * Administrative regions and their hierarchy: an id map in which every region may name a parent,
 * possibly absent from the map, possibly forming a cycle.
 */
module Hierarchy {
  import opened Wrappers

  /** Kinds of zones, from the smallest to the largest. */
  datatype ZoneType =
    | Suburb | CityDistrict | City | StateDistrict | State | CountryRegion | Country | NonAdministrative

  datatype Admin = Admin(id: string, zoneType: Option<ZoneType>, parentId: Option<string>) {
    predicate IsCity() {
      zoneType == Some(City)
    }
  }

  function ZoneRank(z: ZoneType): nat {
    match z
    case Suburb => 1
    case CityDistrict => 2
    case City => 3
    case StateDistrict => 4
    case State => 5
    case CountryRegion => 6
    case Country => 7
    case NonAdministrative => 8
  }

  /** The sort key of an optional zone type: regions without one come first. */
  function Rank(z: Option<ZoneType>): nat {
    if z.None? then 0 else ZoneRank(z.value)
  }

  /** The kinds of zones as documented, from the smallest to the largest. */
  const ZONES := [Suburb, CityDistrict, City, StateDistrict, State, CountryRegion, Country, NonAdministrative]

  /** The sort follows that order, with regions of no kind first, and leaves no kind out. */
  lemma ZonesInOrder()
    ensures forall z: ZoneType :: z in ZONES && Rank(None) < Rank(Some(z))
    ensures forall i, j :: 0 <= i < j < |ZONES| ==> Rank(Some(ZONES[i])) < Rank(Some(ZONES[j]))
  {
    forall i | 0 <= i < |ZONES| ensures Rank(Some(ZONES[i])) == i + 1 {
    }
    forall z: ZoneType ensures z in ZONES {
      assert ZONES[ZoneRank(z) - 1] == z;
    }
  }

  /** Regions by id; every region is stored under its own id. */
  ghost predicate Keyed(byId: map<string, Admin>) {
    forall id :: id in byId ==> byId[id].id == id
  }

  // ---------------------------------------------------------------- walking up

  /** The stored parent of a region. */
  function Parent(byId: map<string, Admin>, a: Admin): Option<Admin> {
    if a.parentId.Some? && a.parentId.value in byId then Some(byId[a.parentId.value]) else None
  }

  /** The region `n` parents above `a`. */
  function Up(byId: map<string, Admin>, a: Admin, n: nat): Option<Admin>
    decreases n
  {
    if n == 0 then Some(a) else
    match Parent(byId, a)
    case None => None
    case Some(p) => Up(byId, p, n - 1)
  }

  /** The walk up from `a` ends, at a region without parent or whose parent is not stored. */
  ghost predicate ChainFinite(byId: map<string, Admin>, a: Admin) {
    exists n: nat :: Up(byId, a, n).None?
  }

  ghost predicate Acyclic(byId: map<string, Admin>) {
    forall id :: id in byId ==> ChainFinite(byId, byId[id])
  }

  /** The regions above `a`, nearest first, at most `n` of them. */
  function AncestorsUpTo(byId: map<string, Admin>, a: Admin, n: nat): seq<Admin>
    decreases n
  {
    if n == 0 then [] else
    match Parent(byId, a)
    case None => []
    case Some(p) => [p] + AncestorsUpTo(byId, p, n - 1)
  }

  /** All regions above `a`, nearest first, when the walk up ends. */
  ghost function Ancestors(byId: map<string, Admin>, a: Admin): seq<Admin> {
    if ChainFinite(byId, a) then
      var n: nat :| Up(byId, a, n).None?;
      AncestorsUpTo(byId, a, n)
    else []
  }

  lemma {:induction false} UpStaysNone(byId: map<string, Admin>, a: Admin, n: nat, m: nat)
    requires Up(byId, a, n).None? && n <= m
    ensures Up(byId, a, m).None?
    decreases n
  {
    if Parent(byId, a).Some? {
      UpStaysNone(byId, Parent(byId, a).value, n - 1, m - 1);
    }
  }

  lemma {:induction false} UpComposes(byId: map<string, Admin>, a: Admin, n: nat, m: nat)
    requires Up(byId, a, n).Some?
    ensures Up(byId, a, n + m) == Up(byId, Up(byId, a, n).value, m)
    decreases n
  {
    if n > 0 {
      UpComposes(byId, Parent(byId, a).value, n - 1, m);
    }
  }

  lemma {:induction false} AncestorsUpToStable(byId: map<string, Admin>, a: Admin, n: nat, m: nat)
    requires Up(byId, a, n).None? && n <= m
    ensures AncestorsUpTo(byId, a, n) == AncestorsUpTo(byId, a, m)
    decreases n
  {
    if Parent(byId, a).Some? {
      AncestorsUpToStable(byId, Parent(byId, a).value, n - 1, m - 1);
    }
  }

  lemma AncestorsAre(byId: map<string, Admin>, a: Admin, n: nat)
    requires Up(byId, a, n).None?
    ensures Ancestors(byId, a) == AncestorsUpTo(byId, a, n)
  {
    assert ChainFinite(byId, a);
    var m: nat :| Up(byId, a, m).None? && Ancestors(byId, a) == AncestorsUpTo(byId, a, m);
    if m <= n {
      AncestorsUpToStable(byId, a, m, n);
    } else {
      AncestorsUpToStable(byId, a, n, m);
    }
  }

  lemma ParentChainFinite(byId: map<string, Admin>, a: Admin)
    requires Parent(byId, a).Some?
    ensures ChainFinite(byId, a) <==> ChainFinite(byId, Parent(byId, a).value)
  {
    var p := Parent(byId, a).value;
    if ChainFinite(byId, a) {
      var n: nat :| Up(byId, a, n).None?;
      assert Up(byId, p, n - 1).None?;
    }
    if ChainFinite(byId, p) {
      var n: nat :| Up(byId, p, n).None?;
      assert Up(byId, a, n + 1).None?;
    }
  }

  /** The ancestors of a region are its parent followed by the parent's ancestors. */
  lemma AncestorsUnfold(byId: map<string, Admin>, a: Admin)
    requires ChainFinite(byId, a)
    ensures Parent(byId, a).None? ==> Ancestors(byId, a) == []
    ensures Parent(byId, a).Some? ==>
              var p := Parent(byId, a).value;
              ChainFinite(byId, p) && Ancestors(byId, a) == [p] + Ancestors(byId, p)
  {
    if Parent(byId, a).None? {
      assert Up(byId, a, 1).None?;
      AncestorsAre(byId, a, 1);
    } else {
      var p := Parent(byId, a).value;
      ParentChainFinite(byId, a);
      var n: nat :| Up(byId, p, n).None?;
      AncestorsAre(byId, p, n);
      assert Up(byId, a, n + 1).None?;
      AncestorsAre(byId, a, n + 1);
    }
  }

  /** The list of ancestors is exactly the walk up: complete, nearest first. */
  lemma {:induction false} AncestorsAreTheWalk(byId: map<string, Admin>, a: Admin, k: nat)
    requires ChainFinite(byId, a)
    ensures k < |Ancestors(byId, a)| <==> Up(byId, a, k + 1).Some?
    ensures k < |Ancestors(byId, a)| ==> Up(byId, a, k + 1) == Some(Ancestors(byId, a)[k])
    decreases k
  {
    AncestorsUnfold(byId, a);
    if k > 0 && Parent(byId, a).Some? {
      AncestorsAreTheWalk(byId, Parent(byId, a).value, k - 1);
    }
    if Parent(byId, a).Some? {
      assert Up(byId, a, 1) == Some(Parent(byId, a).value);
    }
  }

  lemma {:induction false} UpPeriod(byId: map<string, Admin>, x: Admin, d: nat, k: nat)
    requires d > 0 && Up(byId, x, d) == Some(x)
    ensures Up(byId, x, k * d) == Some(x)
    decreases k
  {
    if k > 0 {
      UpPeriod(byId, x, d, k - 1);
      UpComposes(byId, x, d, (k - 1) * d);
      assert d + (k - 1) * d == k * d;
    }
  }

  /** A region that is met again on its own way up has no end to its walk. */
  lemma CycleIsInfinite(byId: map<string, Admin>, x: Admin, d: nat)
    requires d > 0 && Up(byId, x, d) == Some(x)
    ensures !ChainFinite(byId, x)
  {
    if ChainFinite(byId, x) {
      var n: nat :| Up(byId, x, n).None?;
      UpPeriod(byId, x, d, n);
      assert n <= n * d;
      UpStaysNone(byId, x, n, n * d);
    }
  }

  lemma {:induction false} ChainFiniteAbove(byId: map<string, Admin>, a: Admin, n: nat)
    requires ChainFinite(byId, a) && Up(byId, a, n).Some?
    ensures ChainFinite(byId, Up(byId, a, n).value)
    decreases n
  {
    if n > 0 {
      ParentChainFinite(byId, a);
      ChainFiniteAbove(byId, Parent(byId, a).value, n - 1);
    }
  }

  /** Without cycles among the stored regions, the walk up ends from any region, stored or not. */
  lemma AcyclicAbove(byId: map<string, Admin>, a: Admin)
    requires Acyclic(byId)
    ensures ChainFinite(byId, a)
  {
    if Parent(byId, a).Some? {
      assert Parent(byId, a).value == byId[a.parentId.value];
      ParentChainFinite(byId, a);
    } else {
      assert Up(byId, a, 1).None?;
    }
  }

  /** No region appears twice on a walk up that ends. */
  lemma NoRepeats(byId: map<string, Admin>, a: Admin, i: nat, j: nat)
    requires ChainFinite(byId, a) && i < j && Up(byId, a, j).Some?
    ensures Up(byId, a, i) != Up(byId, a, j)
  {
    if Up(byId, a, i).None? {
      UpStaysNone(byId, a, i, j);
    } else if Up(byId, a, i) == Up(byId, a, j) {
      var x := Up(byId, a, i).value;
      UpComposes(byId, a, i, j - i);
      CycleIsInfinite(byId, x, j - i);
      ChainFiniteAbove(byId, a, i);
    }
  }

  /** The list of ancestors has no repetition. */
  lemma AncestorsAreDistinct(byId: map<string, Admin>, a: Admin, i: nat, j: nat)
    requires ChainFinite(byId, a) && i < j < |Ancestors(byId, a)|
    ensures Ancestors(byId, a)[i] != Ancestors(byId, a)[j] && Ancestors(byId, a)[i] != a
  {
    AncestorsAreTheWalk(byId, a, i);
    AncestorsAreTheWalk(byId, a, j);
    NoRepeats(byId, a, i + 1, j + 1);
    NoRepeats(byId, a, 0, i + 1);
  }

  // ---------------------------------------------------------------- increasing zone types

  /** Every stored region has a larger kind of zone than each region below it. */
  ghost predicate StrictlyIncreasing(byId: map<string, Admin>) {
    forall id :: id in byId && Parent(byId, byId[id]).Some? ==>
      Rank(byId[id].zoneType) < Rank(Parent(byId, byId[id]).value.zoneType)
  }

  lemma {:induction false} WalkIncreases(byId: map<string, Admin>, id: string, n: nat)
    requires StrictlyIncreasing(byId) && id in byId
    ensures Up(byId, byId[id], n).Some? ==> Rank(Up(byId, byId[id], n).value.zoneType) >= Rank(byId[id].zoneType) + n
    decreases n
  {
    if n > 0 && Parent(byId, byId[id]).Some? {
      WalkIncreases(byId, byId[id].parentId.value, n - 1);
    }
  }

  /** Increasing zone types leave no room for cycles. */
  lemma IncreasingIsAcyclic(byId: map<string, Admin>)
    requires StrictlyIncreasing(byId)
    ensures Acyclic(byId)
  {
    forall id | id in byId ensures ChainFinite(byId, byId[id]) {
      WalkIncreases(byId, id, 9);
      assert Up(byId, byId[id], 9).None?;
    }
  }

  // ---------------------------------------------------------------- ancestor ids

  /** The id met after `n` more steps up from `start`; the last one may be absent from the map. */
  function UpId(byId: map<string, Admin>, start: Option<string>, n: nat): Option<string>
    decreases n
  {
    if n == 0 then start
    else if start.None? || start.value !in byId then None
    else UpId(byId, byId[start.value].parentId, n - 1)
  }

  /** `b` is a stored region above `a`, one or more steps away. */
  ghost predicate StoredAbove(byId: map<string, Admin>, a: Admin, b: Admin) {
    exists n: nat :: n > 0 && Up(byId, a, n) == Some(b)
  }

  /** The walk over ids and the walk over regions are the same walk. */
  lemma {:induction false} UpIsUpId(byId: map<string, Admin>, a: Admin, n: nat)
    ensures var id := UpId(byId, a.parentId, n);
            Up(byId, a, n + 1) == if id.Some? && id.value in byId then Some(byId[id.value]) else None
    decreases n
  {
    if n == 0 {
      assert UpId(byId, a.parentId, 0) == a.parentId;
      if Parent(byId, a).Some? {
        assert Up(byId, Parent(byId, a).value, 0) == Some(Parent(byId, a).value);
      }
    } else if Parent(byId, a).Some? {
      UpIsUpId(byId, Parent(byId, a).value, n - 1);
    }
  }

  /** Ancestors by id are the stored regions above. */
  lemma AncestorIdIsStoredAbove(byId: map<string, Admin>, a: Admin, b: Admin)
    requires Keyed(byId) && b.id in byId && byId[b.id] == b
    ensures IsAncestorId(byId, a, b.id) <==> StoredAbove(byId, a, b)
  {
    if IsAncestorId(byId, a, b.id) {
      var n: nat :| UpId(byId, a.parentId, n) == Some(b.id);
      UpIsUpId(byId, a, n);
      assert n + 1 > 0;
    }
    if StoredAbove(byId, a, b) {
      var n: nat :| n > 0 && Up(byId, a, n) == Some(b);
      UpIsUpId(byId, a, n - 1);
    }
  }

  /** `id` is met on the way up from `a`, however many steps away, cycles included. */
  ghost predicate IsAncestorId(byId: map<string, Admin>, a: Admin, id: string) {
    exists n: nat :: UpId(byId, a.parentId, n) == Some(id)
  }
}
