/** Sorting branches of regions by their ids, so that the documents of a street are numbered deterministically. */
module BranchOrder {
  import opened Hierarchy

  type Branch = seq<Admin>

  // ---------------------------------------------------------------- the order

  predicate StrLess(a: string, b: string) {
    b != "" && (a == "" || a[0] < b[0] || (a[0] == b[0] && StrLess(a[1..], b[1..])))
  }

  /** Branches compare region by region, regions by id. */
  predicate Less(a: Branch, b: Branch) {
    b != [] && (a == [] || StrLess(a[0].id, b[0].id) || (a[0].id == b[0].id && Less(a[1..], b[1..])))
  }

  predicate SameIds(a: Branch, b: Branch) {
    |a| == |b| && forall i :: 0 <= i < |a| ==> a[i].id == b[i].id
  }

  lemma {:induction false} StrTotal(a: string, b: string)
    ensures a == b || StrLess(a, b) || StrLess(b, a)
    ensures !(StrLess(a, b) && StrLess(b, a)) && !StrLess(a, a)
    decreases |a| + |b|
  {
    if a != "" && b != "" {
      StrTotal(a[1..], b[1..]);
      assert a == [a[0]] + a[1..] && b == [b[0]] + b[1..];
    }
    StrIrreflexive(a);
  }

  lemma {:induction false} StrIrreflexive(a: string)
    ensures !StrLess(a, a)
  {
    if a != "" {
      StrIrreflexive(a[1..]);
    }
  }

  lemma {:induction false} StrTransitive(a: string, b: string, c: string)
    requires StrLess(a, b) && StrLess(b, c)
    ensures StrLess(a, c)
  {
    if a != "" && a[0] == b[0] && b[0] == c[0] {
      StrTransitive(a[1..], b[1..], c[1..]);
    }
  }

  lemma {:induction false} LessTotal(a: Branch, b: Branch)
    ensures SameIds(a, b) || Less(a, b) || Less(b, a)
    ensures SameIds(a, b) ==> !Less(a, b)
    ensures Less(a, b) ==> !Less(b, a)
    decreases |a| + |b|
  {
    if a != [] && b != [] {
      StrTotal(a[0].id, b[0].id);
      LessTotal(a[1..], b[1..]);
      if a[0].id == b[0].id && SameIds(a[1..], b[1..]) {
        forall i | 0 <= i < |a| ensures a[i].id == b[i].id {
          if i > 0 {
            assert a[i] == a[1..][i - 1] && b[i] == b[1..][i - 1];
          }
        }
      }
      if SameIds(a, b) {
        assert SameIds(a[1..], b[1..]);
      }
    }
  }

  lemma {:induction false} LessTransitive(a: Branch, b: Branch, c: Branch)
    requires Less(a, b) && Less(b, c)
    ensures Less(a, c)
  {
    if a != [] {
      StrTotal(a[0].id, b[0].id);
      StrTotal(b[0].id, c[0].id);
      if StrLess(a[0].id, b[0].id) && StrLess(b[0].id, c[0].id) {
        StrTransitive(a[0].id, b[0].id, c[0].id);
      } else if a[0].id == b[0].id == c[0].id {
        LessTransitive(a[1..], b[1..], c[1..]);
      }
    }
  }

  /** Strings compare by their first difference; a proper prefix comes first. */
  ghost predicate FirstDifference(a: string, b: string, n: int) {
    && 0 <= n <= |a| && n < |b| && a[..n] == b[..n] && (n == |a| || a[n] < b[n])
  }

  lemma {:induction false} StrLessExactly(a: string, b: string)
    ensures StrLess(a, b) <==> exists n :: FirstDifference(a, b, n)
  {
    if b != "" {
      if a == "" || a[0] != b[0] {
        assert FirstDifference(a, b, 0) <==> (a == "" || a[0] < b[0]);
        assert forall n :: 0 < n <= |a| && n < |b| ==> a[..n][0] == a[0] && b[..n][0] == b[0];
      } else {
        StrLessExactly(a[1..], b[1..]);
        forall n ensures FirstDifference(a, b, n + 1) <==> FirstDifference(a[1..], b[1..], n) {
          if 0 <= n <= |a[1..]| && n < |b[1..]| {
            assert a[..n + 1] == [a[0]] + a[1..][..n] && b[..n + 1] == [b[0]] + b[1..][..n];
            assert a[1..][..n] == a[..n + 1][1..] && b[1..][..n] == b[..n + 1][1..];
          }
        }
        if k :| FirstDifference(a[1..], b[1..], k) {
          assert FirstDifference(a, b, k + 1);
        }
        if n :| FirstDifference(a, b, n) {
          var k := n - 1;
          assert FirstDifference(a, b, k + 1);
          assert FirstDifference(a[1..], b[1..], k);
        }
      }
    }
  }

  /** Branches compare by the ids of the first regions that differ in id; a proper prefix comes first. */
  ghost predicate FirstOtherId(a: Branch, b: Branch, n: int) {
    && 0 <= n <= |a| && n < |b| && (forall i :: 0 <= i < n ==> a[i].id == b[i].id)
    && (n == |a| || StrLess(a[n].id, b[n].id))
  }

  lemma {:induction false} LessExactly(a: Branch, b: Branch)
    ensures Less(a, b) <==> exists n :: FirstOtherId(a, b, n)
  {
    if b != [] {
      if a == [] || a[0].id != b[0].id {
        assert FirstOtherId(a, b, 0) <==> (a == [] || StrLess(a[0].id, b[0].id));
      } else {
        StrIrreflexive(a[0].id);
        LessExactly(a[1..], b[1..]);
        forall n ensures FirstOtherId(a, b, n + 1) <==> FirstOtherId(a[1..], b[1..], n) {
          OneFurther(a, b, n);
        }
        if k :| FirstOtherId(a[1..], b[1..], k) {
          assert FirstOtherId(a, b, k + 1);
        }
        if n :| FirstOtherId(a, b, n) {
          var k := n - 1;
          assert FirstOtherId(a, b, k + 1);
          assert FirstOtherId(a[1..], b[1..], k);
        }
      }
    }
  }

  lemma OneFurther(a: Branch, b: Branch, n: int)
    requires a != [] && b != [] && a[0].id == b[0].id
    ensures n >= 0 ==> (FirstOtherId(a, b, n + 1) <==> FirstOtherId(a[1..], b[1..], n))
    ensures n < 0 ==> !FirstOtherId(a[1..], b[1..], n) && !FirstOtherId(a, b, n + 1)
  {
    StrIrreflexive(a[0].id);
    if FirstOtherId(a[1..], b[1..], n) {
      forall i | 0 <= i < n + 1 ensures a[i].id == b[i].id {
        assert i > 0 ==> a[i] == a[1..][i - 1] && b[i] == b[1..][i - 1];
      }
    }
    if n >= 0 && FirstOtherId(a, b, n + 1) {
      forall i | 0 <= i < n ensures a[1..][i].id == b[1..][i].id {
        assert a[1..][i] == a[i + 1] && b[1..][i] == b[i + 1];
      }
    }
  }

  // ---------------------------------------------------------------- sorting

  function Insert(b: Branch, sorted: seq<Branch>): seq<Branch> {
    if sorted == [] || !Less(sorted[0], b) then [b] + sorted else [sorted[0]] + Insert(b, sorted[1..])
  }

  function Sort(branches: seq<Branch>): seq<Branch> {
    if branches == [] then [] else Insert(branches[0], Sort(branches[1..]))
  }

  /** Branches with the same ids are the same branch. */
  ghost predicate IdsTell(branches: seq<Branch>) {
    forall a, b :: a in branches && b in branches && SameIds(a, b) ==> a == b
  }

  ghost predicate Sorted(branches: seq<Branch>) {
    forall i, j :: 0 <= i < j < |branches| ==> !Less(branches[j], branches[i])
  }

  lemma {:induction false} InsertPermutes(b: Branch, sorted: seq<Branch>)
    ensures multiset(Insert(b, sorted)) == multiset{b} + multiset(sorted)
    ensures |Insert(b, sorted)| == |sorted| + 1
    ensures forall x :: x in Insert(b, sorted) <==> x == b || x in sorted
  {
    if sorted != [] && Less(sorted[0], b) {
      InsertPermutes(b, sorted[1..]);
      assert sorted == [sorted[0]] + sorted[1..];
    }
  }

  lemma {:induction false} SortPermutes(branches: seq<Branch>)
    ensures multiset(Sort(branches)) == multiset(branches)
    ensures |Sort(branches)| == |branches|
    ensures forall x :: x in Sort(branches) <==> x in branches
  {
    if branches != [] {
      SortPermutes(branches[1..]);
      InsertPermutes(branches[0], Sort(branches[1..]));
      assert branches == [branches[0]] + branches[1..];
    }
  }

  lemma {:induction false} SameIdsLess(x: Branch, a: Branch, b: Branch)
    requires SameIds(a, b)
    ensures Less(x, a) <==> Less(x, b)
  {
    if x != [] && a != [] {
      assert SameIds(a[1..], b[1..]) by {
        forall i | 0 <= i < |a[1..]| ensures a[1..][i].id == b[1..][i].id {
          assert a[1..][i] == a[i + 1] && b[1..][i] == b[i + 1];
        }
      }
      SameIdsLess(x[1..], a[1..], b[1..]);
    }
  }

  /** What is not before the head is not before anything the head is not after. */
  lemma NotLessTransitive(x: Branch, head: Branch, b: Branch)
    requires !Less(x, head) && !Less(head, b)
    ensures !Less(x, b)
  {
    LessTotal(b, head);
    if Less(x, b) {
      if Less(b, head) {
        LessTransitive(x, b, head);
      } else {
        SameIdsLess(x, b, head);
      }
    }
  }

  lemma {:induction false} InsertSorts(b: Branch, sorted: seq<Branch>)
    requires Sorted(sorted)
    ensures Sorted(Insert(b, sorted))
  {
    if sorted != [] && Less(sorted[0], b) {
      InsertSorts(b, sorted[1..]);
      InsertPermutes(b, sorted[1..]);
      LessTotal(sorted[0], b);
      var rest := Insert(b, sorted[1..]);
      forall k | 0 <= k < |rest| ensures !Less(rest[k], sorted[0]) {
        assert rest[k] in rest;
      }
    } else {
      forall k | 0 <= k < |sorted| ensures !Less(sorted[k], b) {
        if k > 0 {
          NotLessTransitive(sorted[k], sorted[0], b);
        }
      }
    }
  }

  /** Branches come out sorted. */
  lemma {:induction false} SortSorts(branches: seq<Branch>)
    ensures Sorted(Sort(branches))
  {
    if branches != [] {
      SortSorts(branches[1..]);
      InsertSorts(branches[0], Sort(branches[1..]));
    }
  }

  lemma HeadIsLeast(xs: seq<Branch>, x: Branch)
    requires Sorted(xs) && x in xs && IdsTell(xs)
    ensures x == xs[0] || !Less(x, xs[0])
  {
  }

  /** Where ids tell branches apart, any two sorted lists of the same branches are equal. */
  lemma {:induction false} SortedUnique(xs: seq<Branch>, ys: seq<Branch>)
    requires Sorted(xs) && Sorted(ys) && multiset(xs) == multiset(ys) && IdsTell(xs)
    ensures xs == ys
    decreases |xs|
  {
    assert |multiset(xs)| == |xs| && |multiset(ys)| == |ys|;
    if xs != [] {
      SameHeads(xs, ys);
      TailCounts(xs);
      TailCounts(ys);
      SortedUnique(xs[1..], ys[1..]);
    }
  }

  lemma TailCounts(xs: seq<Branch>)
    requires xs != []
    ensures xs == [xs[0]] + xs[1..] && multiset(xs[1..]) == multiset(xs) - multiset{xs[0]}
  {
    assert xs == [xs[0]] + xs[1..];
  }

  lemma SameHeads(xs: seq<Branch>, ys: seq<Branch>)
    requires Sorted(xs) && Sorted(ys) && multiset(xs) == multiset(ys) && IdsTell(xs) && xs != [] && ys != []
    ensures xs[0] == ys[0]
  {
    forall x ensures x in xs <==> x in ys {
      assert x in xs <==> x in multiset(xs);
      assert x in ys <==> x in multiset(ys);
    }
    assert xs[0] in xs && ys[0] in ys;
    HeadIsLeast(xs, ys[0]);
    HeadIsLeast(ys, xs[0]);
    LessTotal(xs[0], ys[0]);
  }

  /** The sorted list depends only on which branches there are, not on their order. */
  lemma SortIsCanonical(xs: seq<Branch>, ys: seq<Branch>)
    requires multiset(xs) == multiset(ys) && IdsTell(xs)
    ensures Sort(xs) == Sort(ys)
  {
    SortSorts(xs);
    SortSorts(ys);
    SortPermutes(xs);
    SortPermutes(ys);
    forall a, b | a in Sort(xs) && b in Sort(xs) && SameIds(a, b) ensures a == b {
    }
    SortedUnique(Sort(xs), Sort(ys));
  }
}
