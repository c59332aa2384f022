/**
 * The spatial index: a tree of regions whose nodes carry envelopes, searched by point. Geometry is
 * a parameter; only its laws are used.
 */
module SpatialIndex {
  import opened Wrappers
  import opened Hierarchy

  datatype Point = Point(x: real, y: real)

  datatype Rect = Rect(min: Point, max: Point) {
    predicate ContainsPoint(p: Point) {
      min.x <= p.x <= max.x && min.y <= p.y <= max.y
    }

    predicate Covers(other: Rect) {
      min.x <= other.min.x && min.y <= other.min.y && other.max.x <= max.x && other.max.y <= max.y
    }

    function Union(other: Rect): (r: Rect)
      ensures r.Covers(this) && r.Covers(other)
    {
      Rect(Point(Min(min.x, other.min.x), Min(min.y, other.min.y)),
           Point(Max(max.x, other.max.x), Max(max.y, other.max.y)))
    }
  }

  function Min(a: real, b: real): real {
    if a <= b then a else b
  }

  function Max(a: real, b: real): real {
    if a <= b then b else a
  }

  /** An envelope holds its border, and every point of the envelopes it covers. */
  lemma EnvelopeHoldsItsBorder(r: Rect, other: Rect, p: Point)
    requires r.min.x <= r.max.x && r.min.y <= r.max.y
    ensures r.ContainsPoint(r.min) && r.ContainsPoint(r.max)
    ensures r.ContainsPoint(Point(r.min.x, r.max.y)) && r.ContainsPoint(Point(r.max.x, r.min.y))
    ensures r.Covers(other) && other.ContainsPoint(p) ==> r.ContainsPoint(p)
  {
  }

  /** A boundary, known only through the geometry operations. */
  datatype Shape = Shape(tag: int)

  /** The operations of the geometry library on boundaries: interior, interior or border, bounding box. */
  datatype Geometry = Geometry(contains: (Shape, Point) -> bool, intersects: (Shape, Point) -> bool,
                               boundingRect: Shape -> Option<Rect>) {
    /** The interior is part of the boundary, which lies inside its bounding box. */
    ghost predicate Lawful() {
      && (forall s, p :: contains(s, p) ==> intersects(s, p))
      && (forall s, p :: intersects(s, p) ==> boundingRect(s).Some? && boundingRect(s).value.ContainsPoint(p))
    }
  }

  /** What the tree stores: a region, its boundary, and the envelope of the boundary. */
  datatype SplitAdmin = SplitAdmin(envelope: Rect, boundary: Shape, admin: Admin)

  datatype RTree = Leaf(split: SplitAdmin) | Node(box: Rect, children: seq<RTree>) {
    function Envelope(): Rect {
      if Leaf? then split.envelope else box
    }
  }

  const EMPTY_TREE := Node(Rect(Point(1.0, 1.0), Point(0.0, 0.0)), [])

  /** The envelope of every node covers those of its children. */
  predicate Covered(t: RTree) {
    t.Leaf? || (forall c :: c in t.children ==> t.box.Covers(c.Envelope()) && Covered(c))
  }

  function Leaves(t: RTree): seq<SplitAdmin> {
    match t
    case Leaf(split) => [split]
    case Node(_, children) => LeavesOf(children)
  }

  function LeavesOf(ts: seq<RTree>): seq<SplitAdmin> {
    if ts == [] then [] else Leaves(ts[0]) + LeavesOf(ts[1..])
  }

  /** The pruned search: a node is entered only if its envelope contains the point. */
  function Locate(t: RTree, p: Point): seq<SplitAdmin> {
    match t
    case Leaf(split) => if split.envelope.ContainsPoint(p) then [split] else []
    case Node(box, children) => if box.ContainsPoint(p) then LocateIn(children, p) else []
  }

  function LocateIn(ts: seq<RTree>, p: Point): seq<SplitAdmin> {
    if ts == [] then [] else Locate(ts[0], p) + LocateIn(ts[1..], p)
  }

  /** The linear scan of leaf envelopes. */
  function Scan(splits: seq<SplitAdmin>, p: Point): seq<SplitAdmin> {
    if splits == [] then []
    else (if splits[0].envelope.ContainsPoint(p) then [splits[0]] else []) + Scan(splits[1..], p)
  }

  lemma {:induction false} ScanAppend(xs: seq<SplitAdmin>, ys: seq<SplitAdmin>, p: Point)
    ensures Scan(xs + ys, p) == Scan(xs, p) + Scan(ys, p)
  {
    if xs == [] {
      assert xs + ys == ys;
    } else {
      assert (xs + ys)[1..] == xs[1..] + ys;
      ScanAppend(xs[1..], ys, p);
    }
  }

  /** The pruned search of a well-covered tree finds what the scan of its leaves finds, in the same order. */
  lemma {:induction false} LocateIsScan(t: RTree, p: Point)
    requires Covered(t)
    ensures Locate(t, p) == Scan(Leaves(t), p)
    ensures !t.Envelope().ContainsPoint(p) ==> Scan(Leaves(t), p) == []
    decreases t
  {
    match t
    case Leaf(split) =>
      assert Scan([split], p) == (if split.envelope.ContainsPoint(p) then [split] else []) + Scan([], p);
    case Node(box, children) => LocateInIsScan(box, children, p);
  }

  lemma {:induction false} LocateInIsScan(box: Rect, ts: seq<RTree>, p: Point)
    requires forall c :: c in ts ==> box.Covers(c.Envelope()) && Covered(c)
    ensures LocateIn(ts, p) == Scan(LeavesOf(ts), p)
    ensures !box.ContainsPoint(p) ==> Scan(LeavesOf(ts), p) == []
    decreases ts
  {
    if ts != [] {
      assert ts[0] in ts;
      LocateIsScan(ts[0], p);
      LocateInIsScan(box, ts[1..], p);
      ScanAppend(Leaves(ts[0]), LeavesOf(ts[1..]), p);
    }
  }

  lemma {:induction false} ScanMembers(splits: seq<SplitAdmin>, p: Point, s: SplitAdmin)
    ensures s in Scan(splits, p) <==> s in splits && s.envelope.ContainsPoint(p)
  {
    if splits != [] {
      ScanMembers(splits[1..], p, s);
      assert splits == [splits[0]] + splits[1..];
    }
  }

  /** What any insertion into the tree must achieve; how the tree is rearranged is left open. */
  predicate Inserted(t: RTree, split: SplitAdmin, t': RTree) {
    Covered(t') && multiset(Leaves(t')) == multiset(Leaves(t)) + multiset{split}
  }

  lemma InsertionExists(t: RTree, split: SplitAdmin) returns (t': RTree)
    requires Covered(t)
    ensures Inserted(t, split, t')
  {
    var children := [t, Leaf(split)];
    t' := Node(t.Envelope().Union(split.envelope), children);
    assert children[1..] == [Leaf(split)] && children[1..][1..] == [];
    assert LeavesOf(children[1..]) == [split] + LeavesOf([]);
    assert Leaves(t') == Leaves(t) + [split];
  }

  // ---------------------------------------------------------------- sorting by zone type

  function SortInsert(s: SplitAdmin, sorted: seq<SplitAdmin>): seq<SplitAdmin> {
    if sorted == [] || Rank(s.admin.zoneType) <= Rank(sorted[0].admin.zoneType) then [s] + sorted
    else [sorted[0]] + SortInsert(s, sorted[1..])
  }

  /** The stable sort by zone type. */
  function SortByZone(splits: seq<SplitAdmin>): seq<SplitAdmin> {
    if splits == [] then [] else SortInsert(splits[0], SortByZone(splits[1..]))
  }

  ghost predicate ByZone(splits: seq<SplitAdmin>) {
    forall i, j :: 0 <= i < j < |splits| ==> Rank(splits[i].admin.zoneType) <= Rank(splits[j].admin.zoneType)
  }

  function OfRank(splits: seq<SplitAdmin>, r: nat): seq<SplitAdmin> {
    if splits == [] then []
    else (if Rank(splits[0].admin.zoneType) == r then [splits[0]] else []) + OfRank(splits[1..], r)
  }

  ghost predicate AtLeast(splits: seq<SplitAdmin>, r: nat) {
    forall i :: 0 <= i < |splits| ==> r <= Rank(splits[i].admin.zoneType)
  }

  lemma {:induction false} SortInsertAtLeast(s: SplitAdmin, sorted: seq<SplitAdmin>, r: nat)
    requires AtLeast(sorted, r) && r <= Rank(s.admin.zoneType)
    ensures AtLeast(SortInsert(s, sorted), r)
  {
    if sorted != [] && Rank(s.admin.zoneType) > Rank(sorted[0].admin.zoneType) {
      SortInsertAtLeast(s, sorted[1..], r);
    }
  }

  lemma {:induction false} SortInsertSorts(s: SplitAdmin, sorted: seq<SplitAdmin>)
    requires ByZone(sorted)
    ensures ByZone(SortInsert(s, sorted))
  {
    if sorted != [] && Rank(s.admin.zoneType) > Rank(sorted[0].admin.zoneType) {
      SortInsertSorts(s, sorted[1..]);
      SortInsertAtLeast(s, sorted[1..], Rank(sorted[0].admin.zoneType));
    }
  }

  lemma {:induction false} SortInsertPermutes(s: SplitAdmin, sorted: seq<SplitAdmin>)
    ensures multiset(SortInsert(s, sorted)) == multiset{s} + multiset(sorted)
  {
    if sorted != [] && Rank(s.admin.zoneType) > Rank(sorted[0].admin.zoneType) {
      SortInsertPermutes(s, sorted[1..]);
      assert sorted == [sorted[0]] + sorted[1..];
    }
  }

  lemma {:induction false} SortInsertIsStable(s: SplitAdmin, sorted: seq<SplitAdmin>, r: nat)
    requires ByZone(sorted)
    ensures OfRank(SortInsert(s, sorted), r) == OfRank([s] + sorted, r)
  {
    assert ([s] + sorted)[1..] == sorted;
    if sorted != [] && Rank(s.admin.zoneType) > Rank(sorted[0].admin.zoneType) {
      SortInsertIsStable(s, sorted[1..], r);
      assert ([sorted[0]] + SortInsert(s, sorted[1..]))[1..] == SortInsert(s, sorted[1..]);
      assert ([s] + sorted[1..])[1..] == sorted[1..];
    }
  }

  /** Sorting permutes, orders by zone type, and keeps the order within each zone type. */
  lemma {:induction false} SortByZoneSorts(splits: seq<SplitAdmin>)
    ensures ByZone(SortByZone(splits))
    ensures multiset(SortByZone(splits)) == multiset(splits)
    ensures forall r: nat :: OfRank(SortByZone(splits), r) == OfRank(splits, r)
  {
    if splits != [] {
      SortByZoneSorts(splits[1..]);
      SortInsertSorts(splits[0], SortByZone(splits[1..]));
      SortInsertPermutes(splits[0], SortByZone(splits[1..]));
      assert splits == [splits[0]] + splits[1..];
      forall r: nat ensures OfRank(SortByZone(splits), r) == OfRank(splits, r) {
        SortInsertIsStable(splits[0], SortByZone(splits[1..]), r);
        assert ([splits[0]] + SortByZone(splits[1..]))[1..] == SortByZone(splits[1..]);
      }
    }
  }

  lemma SortedMembers(splits: seq<SplitAdmin>, s: SplitAdmin)
    ensures s in SortByZone(splits) <==> s in splits
  {
    SortByZoneSorts(splits);
    assert s in SortByZone(splits) <==> s in multiset(SortByZone(splits));
    assert s in splits <==> s in multiset(splits);
  }

  // ---------------------------------------------------------------- what comes before what

  /** `s` stands before `u` in the list. */
  predicate Before(xs: seq<SplitAdmin>, s: SplitAdmin, u: SplitAdmin) {
    xs != [] && ((xs[0] == s && u in xs[1..]) || Before(xs[1..], s, u))
  }

  lemma {:induction false} BeforeMembers(xs: seq<SplitAdmin>, s: SplitAdmin, u: SplitAdmin)
    requires Before(xs, s, u)
    ensures s in xs && u in xs
  {
    if !(xs[0] == s && u in xs[1..]) {
      BeforeMembers(xs[1..], s, u);
    }
  }

  lemma {:induction false} PositionsAreBefore(xs: seq<SplitAdmin>, i: nat, j: nat)
    requires i < j < |xs|
    ensures Before(xs, xs[i], xs[j])
  {
    if i == 0 {
      assert xs[j] == xs[1..][j - 1];
    } else {
      PositionsAreBefore(xs[1..], i - 1, j - 1);
    }
  }

  lemma {:induction false} BeforeTotal(xs: seq<SplitAdmin>, s: SplitAdmin, u: SplitAdmin)
    requires s in xs && u in xs && s != u
    ensures Before(xs, s, u) || Before(xs, u, s)
  {
    if xs[0] != s && xs[0] != u {
      BeforeTotal(xs[1..], s, u);
    }
  }

  lemma HeadOnce(xs: seq<SplitAdmin>)
    requires xs != [] && multiset(xs)[xs[0]] <= 1
    ensures xs[0] !in xs[1..]
  {
    assert xs == [xs[0]] + xs[1..];
    assert multiset(xs) == multiset{xs[0]} + multiset(xs[1..]);
  }

  lemma RestCounts(xs: seq<SplitAdmin>, s: SplitAdmin)
    requires xs != []
    ensures multiset(xs[1..])[s] <= multiset(xs)[s]
  {
    assert xs == [xs[0]] + xs[1..];
  }

  /** Where nothing is repeated, only one of two entries stands before the other. */
  lemma {:induction false} BeforeAsymmetric(xs: seq<SplitAdmin>, s: SplitAdmin, u: SplitAdmin)
    requires multiset(xs)[s] <= 1 && multiset(xs)[u] <= 1 && Before(xs, s, u)
    ensures !Before(xs, u, s)
  {
    if xs[0] == s || xs[0] == u {
      HeadOnce(xs);
      if Before(xs[1..], u, s) {
        BeforeMembers(xs[1..], u, s);
      }
      if Before(xs[1..], s, u) {
        BeforeMembers(xs[1..], s, u);
      }
    } else {
      RestCounts(xs, s);
      RestCounts(xs, u);
      BeforeAsymmetric(xs[1..], s, u);
    }
  }

  lemma SortInsertMembers(x: SplitAdmin, sorted: seq<SplitAdmin>, s: SplitAdmin)
    ensures s in SortInsert(x, sorted) <==> s == x || s in sorted
  {
    SortInsertPermutes(x, sorted);
    assert s in SortInsert(x, sorted) <==> s in multiset(SortInsert(x, sorted));
  }

  /** The sort puts the smaller zone type first, and for equal ones keeps the order. */
  ghost predicate SortsBefore(xs: seq<SplitAdmin>, s: SplitAdmin, u: SplitAdmin) {
    || Rank(s.admin.zoneType) < Rank(u.admin.zoneType)
    || (Rank(s.admin.zoneType) == Rank(u.admin.zoneType) && Before(xs, s, u))
  }

  lemma {:induction false} ScanKeepsNoOtherOrder(xs: seq<SplitAdmin>, p: Point, s: SplitAdmin, u: SplitAdmin)
    requires Before(Scan(xs, p), s, u)
    ensures Before(xs, s, u)
  {
    assert Scan(xs, p) == (if xs[0].envelope.ContainsPoint(p) then [xs[0]] else []) + Scan(xs[1..], p);
    if xs[0].envelope.ContainsPoint(p) {
      assert Scan(xs, p)[1..] == Scan(xs[1..], p);
      if xs[0] == s && u in Scan(xs[1..], p) {
        ScanMembers(xs[1..], p, u);
      } else {
        ScanKeepsNoOtherOrder(xs[1..], p, s, u);
      }
    } else {
      assert Scan(xs, p) == Scan(xs[1..], p);
      ScanKeepsNoOtherOrder(xs[1..], p, s, u);
    }
  }

  /** What inserting may put in order. */
  ghost predicate InsertOrders(x: SplitAdmin, sorted: seq<SplitAdmin>, s: SplitAdmin, u: SplitAdmin) {
    || Before(sorted, s, u)
    || (s == x && u in sorted && Rank(x.admin.zoneType) <= Rank(u.admin.zoneType))
    || (u == x && s in sorted && Rank(s.admin.zoneType) < Rank(x.admin.zoneType))
  }

  lemma {:induction false} InsertKeepsNoOtherOrder(x: SplitAdmin, sorted: seq<SplitAdmin>, s: SplitAdmin, u: SplitAdmin)
    requires ByZone(sorted) && Before(SortInsert(x, sorted), s, u)
    ensures InsertOrders(x, sorted, s, u)
  {
    if sorted == [] || Rank(x.admin.zoneType) <= Rank(sorted[0].admin.zoneType) {
      assert ([x] + sorted)[1..] == sorted;
      if s == x && u in sorted {
        var i :| 0 <= i < |sorted| && sorted[i] == u;
        assert Rank(sorted[0].admin.zoneType) <= Rank(sorted[i].admin.zoneType);
      }
    } else {
      var rest := SortInsert(x, sorted[1..]);
      assert ([sorted[0]] + rest)[1..] == rest;
      if sorted[0] == s && u in rest {
        SortInsertMembers(x, sorted[1..], u);
      } else {
        InsertKeepsNoOtherOrder(x, sorted[1..], s, u);
      }
    }
  }

  /** Two entries of the sorted list stand there as the sort orders them, repeated entries included. */
  lemma {:induction false} SortedAsOrdered(xs: seq<SplitAdmin>, s: SplitAdmin, u: SplitAdmin)
    requires Before(SortByZone(xs), s, u)
    ensures SortsBefore(xs, s, u)
  {
    if xs != [] {
      var rest := xs[1..];
      SortByZoneSorts(rest);
      InsertKeepsNoOtherOrder(xs[0], SortByZone(rest), s, u);
      SortedMembers(rest, s);
      SortedMembers(rest, u);
      if Before(SortByZone(rest), s, u) {
        SortedAsOrdered(rest, s, u);
      }
    }
  }
}
