/**
 * Index and alias names: how they are formatted, how a document type and a dataset are read back
 * from an index name, and which index names the pattern used to find previous indices matches.
 */
module Naming {
  import opened Wrappers

  const INDEX_ROOT := "munin"

  /** The document type and dataset of an index. */
  datatype Pair = Pair(docType: string, dataset: string)

  datatype Error = InvalidName

  /** The name of a fresh index; `ts` is the formatted creation time. */
  function RootDoctypeDatasetTs(pair: Pair, ts: string): string {
    INDEX_ROOT + "_" + pair.docType + "_" + pair.dataset + "_" + ts
  }

  function RootDoctypeDataset(pair: Pair): string {
    INDEX_ROOT + "_" + pair.docType + "_" + pair.dataset
  }

  function RootDoctype(docType: string): string {
    INDEX_ROOT + "_" + docType
  }

  function Root(): string {
    INDEX_ROOT
  }

  // ---------------------------------------------------------------- reading a name back

  /** The end of the longest run without '_' that starts `s`. */
  function RunEnd(s: string): (e: nat)
    ensures e <= |s| && '_' !in s[..e] && (e < |s| ==> s[e] == '_')
  {
    if s == "" || s[0] == '_' then 0 else
      var e := RunEnd(s[1..]);
      assert s[..e + 1] == [s[0]] + s[1..][..e];
      e + 1
  }

  /**
   * The regular expression `[^_]+_([^_]+)_([^_]+)_*` anchored at the start of `s`. A run must be
   * followed by '_', so the greedy choice of each run is the only one that can succeed.
   */
  function CapturesHere(s: string): Option<Pair> {
    var a := RunEnd(s);
    if a == 0 || a == |s| then None else
    var s1 := s[a + 1..];
    var b := RunEnd(s1);
    if b == 0 || b == |s1| then None else
    var s2 := s1[b + 1..];
    var c := RunEnd(s2);
    if c == 0 then None else Some(Pair(s1[..b], s2[..c]))
  }

  /** The leftmost match of the regular expression. */
  function Captures(s: string): Option<Pair> {
    if s == "" then None else
    match CapturesHere(s)
    case Some(pair) => Some(pair)
    case None => Captures(s[1..])
  }

  function SplitIndexName(name: string): Result<Pair, Error> {
    match Captures(name)
    case Some(pair) => Ok(pair)
    case None => Err(InvalidName)
  }

  // ---------------------------------------------------------------- what the scan means

  /** The pieces of a name between its underscores. */
  function Segments(s: string): (segs: seq<string>)
    ensures segs != []
    decreases |s|
  {
    var e := RunEnd(s);
    if e == |s| then [s] else [s[..e]] + Segments(s[e + 1..])
  }

  /** The second and third of the first three consecutive non-empty pieces. */
  function FirstTriple(segs: seq<string>): Option<Pair> {
    if |segs| < 3 then None
    else if segs[0] != "" && segs[1] != "" && segs[2] != "" then Some(Pair(segs[1], segs[2]))
    else FirstTriple(segs[1..])
  }

  lemma CapturesHereIsLeadingTriple(s: string)
    ensures var segs := Segments(s);
            CapturesHere(s) == if |segs| >= 3 && segs[0] != "" && segs[1] != "" && segs[2] != ""
                               then Some(Pair(segs[1], segs[2])) else None
  {
    var a := RunEnd(s);
    if a == |s| {
      HeadSegment(s);
    } else if RunEnd(s[a + 1..]) == |s[a + 1..]| {
      TwoPieces(s);
    } else {
      ThreePieces(s);
    }
  }

  lemma TwoPieces(s: string)
    requires RunEnd(s) < |s|
    requires var s1 := s[RunEnd(s) + 1..]; RunEnd(s1) == |s1|
    ensures |Segments(s)| == 2
  {
    HeadSegment(s);
    HeadSegment(s[RunEnd(s) + 1..]);
  }

  lemma ThreePieces(s: string)
    requires RunEnd(s) < |s|
    requires var s1 := s[RunEnd(s) + 1..]; RunEnd(s1) < |s1|
    ensures var s1 := s[RunEnd(s) + 1..];
            var s2 := s1[RunEnd(s1) + 1..];
            && |Segments(s)| >= 3
            && Segments(s)[0] == s[..RunEnd(s)] && Segments(s)[1] == s1[..RunEnd(s1)] && Segments(s)[2] == s2[..RunEnd(s2)]
  {
    var s1 := s[RunEnd(s) + 1..];
    var s2 := s1[RunEnd(s1) + 1..];
    HeadSegment(s);
    HeadSegment(s1);
    HeadSegment(s2);
    ThirdOf(Segments(s), Segments(s1), Segments(s2));
  }

  lemma ThirdOf(segs: seq<string>, tail: seq<string>, tail2: seq<string>)
    requires |segs| >= 2 && |tail| >= 2 && |tail2| >= 1 && segs[1..] == tail && tail[1..] == tail2
    ensures |segs| >= 3 && segs[1] == tail[0] && segs[2] == tail2[0]
  {
  }

  lemma HeadSegment(s: string)
    ensures var e := RunEnd(s);
            && Segments(s)[0] == s[..e]
            && (e == |s| ==> |Segments(s)| == 1)
            && (e < |s| ==> |Segments(s)| >= 2 && Segments(s)[1..] == Segments(s[e + 1..]))
  {
  }

  /** The regular-expression scan finds the first three consecutive non-empty pieces, for every name. */
  lemma {:induction false} SplitFindsFirstTriple(s: string)
    ensures Captures(s) == FirstTriple(Segments(s))
    decreases |s|
  {
    CapturesHereIsLeadingTriple(s);
    if s != "" && CapturesHere(s).None? {
      SplitFindsFirstTriple(s[1..]);
      var e := RunEnd(s);
      if e == 0 {
        assert Segments(s) == [""] + Segments(s[1..]);
      } else {
        // dropping one character of a non-empty first piece drops no piece
        CapturesHereIsLeadingTriple(s[1..]);
        assert RunEnd(s[1..]) == e - 1;
        if e < |s| {
          assert s[1..][e..] == s[e + 1..];
          assert Segments(s)[1..] == Segments(s[1..])[1..] == Segments(s[e + 1..]);
          FirstTripleSkips(Segments(s));
          if e > 1 {
            FirstTripleSkips(Segments(s[1..]));
          } else {
            assert Segments(s[1..])[0] == "";
          }
        }
      }
    }
  }

  lemma FirstTripleSkips(segs: seq<string>)
    requires |segs| >= 1 && segs[0] != ""
    requires |segs| < 3 || segs[1] == "" || segs[2] == ""
    ensures FirstTriple(segs) == FirstTriple(segs[1..])
  {
  }

  // ---------------------------------------------------------------- round trip

  /** A name part that the format can carry: non-empty and without the separator. */
  predicate CleanPart(part: string) {
    part != "" && '_' !in part
  }

  predicate Clean(pair: Pair) {
    CleanPart(pair.docType) && CleanPart(pair.dataset) && '*' !in pair.docType && '*' !in pair.dataset
  }

  lemma JoinTail(part: string, rest: string)
    requires part != ""
    ensures (part + rest)[0] == part[0] && (part + rest)[1..] == part[1..] + rest
  {
  }

  lemma JoinHead(part: string, rest: string)
    ensures (part + rest)[..|part|] == part
  {
  }

  lemma {:induction false} RunEndIs(part: string, rest: string)
    requires '_' !in part
    requires rest == "" || rest[0] == '_'
    ensures RunEnd(part + rest) == |part|
    ensures (part + rest)[..|part|] == part
  {
    JoinHead(part, rest);
    if part == "" {
      assert part + rest == rest;
    } else {
      JoinTail(part, rest);
      assert part[0] in part;
      RunEndIs(part[1..], rest);
    }
  }

  lemma CapturesClean(s: string)
    ensures Captures(s).Some? ==> CleanPart(Captures(s).value.docType) && CleanPart(Captures(s).value.dataset)
  {
  }

  lemma SegmentsCons(part: string, rest: string)
    requires '_' !in part
    ensures Segments(part + "_" + rest) == [part] + Segments(rest)
  {
    RunEndIs(part, "_" + rest);
    assert part + "_" + rest == part + ("_" + rest);
    assert (part + "_" + rest)[|part| + 1..] == rest;
  }

  lemma SegmentsOfPart(part: string)
    requires '_' !in part
    ensures Segments(part) == [part]
  {
    RunEndIs(part, "");
    assert part + "" == part;
  }

  lemma SegmentsOfTwo(a: string, b: string)
    requires '_' !in a && '_' !in b
    ensures Segments(a + "_" + b) == [a, b]
  {
    SegmentsCons(a, b);
    SegmentsOfPart(b);
  }

  lemma Regroup(a: string, b: string, c: string)
    ensures a + "_" + b + "_" + c == a + "_" + (b + "_" + c)
  {
  }

  lemma SegmentsOfThree(a: string, b: string, c: string)
    requires '_' !in a && '_' !in b && '_' !in c
    ensures Segments(a + "_" + b + "_" + c) == [a, b, c]
  {
    Regroup(a, b, c);
    var tail := b + "_" + c;
    assert Segments(tail) == [b, c] by { SegmentsOfTwo(b, c); }
    SegmentsCons(a, tail);
  }

  lemma RegroupFour(a: string, b: string, c: string, rest: string)
    ensures a + "_" + b + "_" + c + "_" + rest == a + "_" + (b + "_" + (c + "_" + rest))
  {
    Regroup(a + "_" + b, c, rest);
    Regroup(a, b, c + "_" + rest);
  }

  lemma ConsThree(a: string, b: string, c: string, rest: seq<string>)
    ensures [a] + ([b] + ([c] + rest)) == [a, b, c] + rest
  {
  }

  lemma SegmentsOfFour(a: string, b: string, c: string, rest: string)
    requires '_' !in a && '_' !in b && '_' !in c
    ensures Segments(a + "_" + b + "_" + c + "_" + rest) == [a, b, c] + Segments(rest)
  {
    calc {
      Segments(a + "_" + b + "_" + c + "_" + rest);
      { RegroupFour(a, b, c, rest); }
      Segments(a + "_" + (b + "_" + (c + "_" + rest)));
      { SegmentsCons(a, b + "_" + (c + "_" + rest)); }
      [a] + Segments(b + "_" + (c + "_" + rest));
      { SegmentsCons(b, c + "_" + rest); }
      [a] + ([b] + Segments(c + "_" + rest));
      { SegmentsCons(c, rest); }
      [a] + ([b] + ([c] + Segments(rest)));
      { ConsThree(a, b, c, Segments(rest)); }
      [a, b, c] + Segments(rest);
    }
  }

  /** The pieces of anything that starts with the stem of a clean pair. */
  lemma SegmentsOfStem(pair: Pair, rest: string)
    requires '_' !in pair.docType && '_' !in pair.dataset
    ensures Segments(RootDoctypeDatasetTs(pair, rest)) == [INDEX_ROOT, pair.docType, pair.dataset] + Segments(rest)
  {
    SegmentsOfFour(INDEX_ROOT, pair.docType, pair.dataset, rest);
  }

  /**
   * Reading an index name back gives the pair it was made from exactly when both parts are
   * non-empty and free of '_'.
   */
  lemma SplitInvertsFormat(pair: Pair, ts: string)
    ensures SplitIndexName(RootDoctypeDatasetTs(pair, ts)) == Ok(pair)
       <==> CleanPart(pair.docType) && CleanPart(pair.dataset)
  {
    var name := RootDoctypeDatasetTs(pair, ts);
    CapturesClean(name);
    if CleanPart(pair.docType) && CleanPart(pair.dataset) {
      SegmentsOfStem(pair, ts);
      SplitFindsFirstTriple(name);
    }
  }

  /**
   * What goes wrong otherwise: the dataset of a name is cut at its first '_', so an index made for
   * `head_tail` is read back as an index of `head`.
   */
  lemma SplitCutsDataset(docType: string, head: string, tail: string, ts: string)
    requires CleanPart(docType) && CleanPart(head)
    ensures SplitIndexName(RootDoctypeDatasetTs(Pair(docType, head + "_" + tail), ts)) == Ok(Pair(docType, head))
  {
    assert RootDoctypeDatasetTs(Pair(docType, head + "_" + tail), ts)
        == RootDoctypeDatasetTs(Pair(docType, head), tail + "_" + ts);
    SplitInvertsFormat(Pair(docType, head), tail + "_" + ts);
  }

  // ---------------------------------------------------------------- the pattern of previous indices

  /** Wildcard matching of index names: '*' stands for any run of characters. */
  predicate Glob(pattern: string, s: string)
    decreases |pattern| + |s|
  {
    if pattern == "" then s == ""
    else if pattern[0] == '*' then Glob(pattern[1..], s) || (s != "" && Glob(pattern, s[1..]))
    else s != "" && s[0] == pattern[0] && Glob(pattern[1..], s[1..])
  }

  /** The pattern under which the indices of a pair are looked up. */
  function IndexPattern(pair: Pair): string {
    RootDoctypeDataset(pair) + "_*"
  }

  /** True of the index names that the pattern of `pair` matches. */
  predicate Matches(pair: Pair, name: string) {
    Glob(IndexPattern(pair), name)
  }

  lemma {:induction false} StarMatchesAll(s: string)
    ensures Glob("*", s)
  {
    if s != "" {
      StarMatchesAll(s[1..]);
    }
  }

  lemma {:induction false} GlobIsPrefix(stem: string, s: string)
    requires '*' !in stem
    ensures Glob(stem + "*", s) <==> stem <= s
    decreases |stem|
  {
    if stem == "" {
      assert stem + "*" == "*";
      StarMatchesAll(s);
    } else if s != "" {
      assert (stem + "*")[1..] == stem[1..] + "*";
      GlobIsPrefix(stem[1..], s[1..]);
      assert stem <= s <==> stem[0] == s[0] && stem[1..] <= s[1..] by {
        if stem[0] == s[0] && stem[1..] <= s[1..] {
          assert stem == [stem[0]] + stem[1..] && s == [s[0]] + s[1..];
        }
      }
    }
  }

  lemma MatchesIsStem(pair: Pair, name: string)
    requires '*' !in pair.docType && '*' !in pair.dataset
    ensures Matches(pair, name) <==> RootDoctypeDatasetTs(pair, "") <= name
  {
    var stem := RootDoctypeDatasetTs(pair, "");
    assert IndexPattern(pair) == stem + "*";
    GlobIsPrefix(stem, name);
  }

  lemma MatchedName(pair: Pair, name: string) returns (ts: string)
    requires Clean(pair) && Matches(pair, name)
    ensures name == RootDoctypeDatasetTs(pair, ts)
  {
    MatchesIsStem(pair, name);
    ts := name[|RootDoctypeDatasetTs(pair, "")|..];
  }

  /** Every index made for a clean pair is matched by its own pattern, whatever its timestamp. */
  lemma MatchesOwn(pair: Pair, ts: string)
    requires Clean(pair)
    ensures Matches(pair, RootDoctypeDatasetTs(pair, ts))
  {
    MatchesIsStem(pair, RootDoctypeDatasetTs(pair, ts));
    assert RootDoctypeDatasetTs(pair, ts)[..|RootDoctypeDatasetTs(pair, "")|] == RootDoctypeDatasetTs(pair, "");
  }

  /** Patterns of distinct clean pairs share no name at all. */
  lemma MatchesDisjoint(p: Pair, q: Pair, name: string)
    requires Clean(p) && Clean(q)
    requires Matches(p, name) && Matches(q, name)
    ensures p == q
  {
    var ts := MatchedName(p, name);
    var us := MatchedName(q, name);
    SplitInvertsFormat(p, ts);
    SplitInvertsFormat(q, us);
  }

  /** The pattern matches exactly the names that continue after the pieces root, type and dataset. */
  lemma MatchesIsSegments(pair: Pair, name: string)
    requires Clean(pair)
    ensures Matches(pair, name)
       <==> |Segments(name)| >= 4 && Segments(name)[..3] == [INDEX_ROOT, pair.docType, pair.dataset]
  {
    if Matches(pair, name) {
      var ts := MatchedName(pair, name);
      SegmentsOfStem(pair, ts);
    }
    if |Segments(name)| >= 4 && Segments(name)[..3] == [INDEX_ROOT, pair.docType, pair.dataset] {
      var ts := NameFromSegments(pair, name, Segments(name)[..3]);
      MatchesOwn(pair, ts);
    }
  }

  lemma NameFromSegments(pair: Pair, name: string, head: seq<string>) returns (ts: string)
    requires |Segments(name)| >= 4 && Segments(name)[..3] == head == [INDEX_ROOT, pair.docType, pair.dataset]
    ensures name == RootDoctypeDatasetTs(pair, ts)
  {
    assert head[0] == Segments(name)[0] && head[1] == Segments(name)[1] && head[2] == Segments(name)[2];
    var r1 := AfterFirst(name);
    var r2 := AfterFirst(r1);
    ts := AfterFirst(r2);
    assert name == INDEX_ROOT + "_" + (pair.docType + "_" + (pair.dataset + "_" + ts));
    Regroup(INDEX_ROOT, pair.docType, pair.dataset + "_" + ts);
    Regroup(INDEX_ROOT + "_" + pair.docType, pair.dataset, ts);
  }

  lemma AfterFirst(name: string) returns (rest: string)
    requires |Segments(name)| >= 2
    ensures name == Segments(name)[0] + "_" + rest && Segments(rest) == Segments(name)[1..]
  {
    rest := name[RunEnd(name) + 1..];
  }

  // ---------------------------------------------------------------- names in general

  /** The pieces of two strings joined by an underscore. */
  lemma {:induction false} SegmentsAppend(a: string, b: string)
    ensures Segments(a + "_" + b) == Segments(a) + Segments(b)
    decreases |a|
  {
    var e := RunEnd(a);
    if e == |a| {
      SegmentsCons(a, b);
      SegmentsOfPart(a);
    } else {
      var part, tail := a[..e], a[e + 1..];
      assert a == part + "_" + tail;
      Regroup(part, tail, b);
      SegmentsCons(part, tail + "_" + b);
      SegmentsAppend(tail, b);
      JoinSegments([part], Segments(tail), Segments(b));
    }
  }

  lemma JoinSegments(xs: seq<string>, ys: seq<string>, zs: seq<string>)
    ensures xs + (ys + zs) == (xs + ys) + zs
  {
  }

  /** The pieces of any name made by the format. */
  lemma SegmentsOfName(pair: Pair, rest: string)
    ensures Segments(RootDoctypeDatasetTs(pair, rest))
         == [INDEX_ROOT] + Segments(pair.docType) + Segments(pair.dataset) + Segments(rest)
  {
    SegmentsOfPart(INDEX_ROOT);
    SegmentsAppend(INDEX_ROOT, pair.docType);
    SegmentsAppend(INDEX_ROOT + "_" + pair.docType, pair.dataset);
    SegmentsAppend(RootDoctypeDataset(pair), rest);
  }

  lemma {:induction false} FirstTripleAppend(xs: seq<string>, ys: seq<string>)
    requires FirstTriple(ys).Some?
    ensures FirstTriple(xs + ys).Some?
  {
    if xs == [] {
      assert xs + ys == ys;
    } else {
      assert (xs + ys)[1..] == xs[1..] + ys;
      FirstTripleAppend(xs[1..], ys);
    }
  }

  /** A timestamp has three non-empty pieces: the date, the time and the fraction. */
  predicate IsTimestamp(ts: string) {
    FirstTriple(Segments(ts)).Some?
  }

  lemma TimestampFormat(date: string, time: string, fraction: string)
    requires CleanPart(date) && CleanPart(time) && CleanPart(fraction)
    ensures IsTimestamp(date + "_" + time + "_" + fraction)
  {
    SegmentsOfThree(date, time, fraction);
  }

  /** With a timestamp at its end, a name can always be read, whatever its type and dataset. */
  lemma TimestampedNameIsReadable(pair: Pair, ts: string)
    requires IsTimestamp(ts)
    ensures SplitIndexName(RootDoctypeDatasetTs(pair, ts)).Ok?
  {
    var name := RootDoctypeDatasetTs(pair, ts);
    SplitFindsFirstTriple(name);
    SegmentsOfName(pair, ts);
    FirstTripleAppend([INDEX_ROOT] + Segments(pair.docType) + Segments(pair.dataset), Segments(ts));
  }

  /** A pattern matches its own stem, wildcards in it included. */
  lemma {:induction false} GlobSelf(stem: string)
    ensures Glob(stem + "*", stem)
  {
    if stem != "" {
      assert (stem + "*")[1..] == stem[1..] + "*";
      GlobSelf(stem[1..]);
    } else {
      assert stem + "*" == "*" && Glob("", "");
      assert "*"[1..] == "";
    }
  }

  /** The pieces of the stem of a pair, and of anything that continues it. */
  lemma StemIsOwn(pair: Pair, q: Pair)
    requires '_' !in q.docType && '_' !in q.dataset
    requires RootDoctypeDatasetTs(pair, "") <= RootDoctypeDatasetTs(q, "")
    ensures pair == q
  {
    var stem, name := RootDoctypeDatasetTs(pair, ""), RootDoctypeDatasetTs(q, "");
    var rest := name[|stem|..];
    assert name == RootDoctypeDatasetTs(pair, rest) by {
      assert name == stem + rest;
    }
    SegmentsOfName(pair, rest);
    SegmentsOfStem(q, "");
    assert Segments("") == [""];
    var all := [INDEX_ROOT, q.docType, q.dataset, ""];
    assert Segments(name) == all;
    var d, s, r := Segments(pair.docType), Segments(pair.dataset), Segments(rest);
    FourPieces(INDEX_ROOT, d, s, r, all);
    SinglePiece(pair.docType);
    SinglePiece(pair.dataset);
  }

  lemma FourPieces(root: string, d: seq<string>, s: seq<string>, r: seq<string>, all: seq<string>)
    requires |all| == 4 && [root] + d + s + r == all && d != [] && s != [] && r != []
    ensures d == [all[1]] && s == [all[2]]
  {
    assert |d| == 1 && |s| == 1;
    assert ([root] + d + s + r)[1] == d[0] && ([root] + d + s + r)[2] == s[0];
  }

  lemma SinglePiece(s: string)
    requires |Segments(s)| == 1
    ensures Segments(s) == [s]
  {
  }

  /** The stem of a pair read back from a name is matched by that pair, and by no other without wildcards. */
  lemma StemMatches(q: Pair, pair: Pair)
    requires '_' !in q.docType && '_' !in q.dataset
    requires '*' !in pair.docType && '*' !in pair.dataset
    ensures Matches(q, RootDoctypeDatasetTs(q, ""))
    ensures Matches(pair, RootDoctypeDatasetTs(q, "")) ==> pair == q
  {
    var stem := RootDoctypeDatasetTs(q, "");
    assert IndexPattern(q) == stem + "*";
    GlobSelf(stem);
    MatchesIsStem(pair, stem);
    if Matches(pair, stem) {
      StemIsOwn(pair, q);
    }
  }

  // ---------------------------------------------------------------- aliases

  /** The three aliases of a pair differ from each other and from every other pair's dataset alias. */
  lemma AliasesDistinct(p: Pair, q: Pair)
    requires Clean(p) && Clean(q)
    ensures RootDoctypeDataset(p) != RootDoctype(q.docType)
    ensures RootDoctypeDataset(p) != Root() && RootDoctype(p.docType) != Root()
    ensures RootDoctypeDataset(p) == RootDoctypeDataset(q) ==> p == q
  {
    AliasSegments(p);
    AliasSegments(q);
  }

  lemma AliasSegments(p: Pair)
    requires Clean(p)
    ensures Segments(RootDoctypeDataset(p)) == [INDEX_ROOT, p.docType, p.dataset]
    ensures Segments(RootDoctype(p.docType)) == [INDEX_ROOT, p.docType]
    ensures Segments(Root()) == [INDEX_ROOT]
  {
    SegmentsOfPart(INDEX_ROOT);
    SegmentsOfTwo(INDEX_ROOT, p.docType);
    SegmentsOfThree(INDEX_ROOT, p.docType, p.dataset);
  }
}
