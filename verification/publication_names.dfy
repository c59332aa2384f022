/**
 * Whose indices a run deletes. Publication works with the pair read back from the index name, and
 * deletes what the pattern of that pair finds.
 */
module PublicationNames {
  import opened Wrappers
  import opened Naming
  import opened Elasticsearch
  import opened Publication

  /** Whatever cluster it finds, a run deletes no index that the pattern of its own pair does not match. */
  ghost predicate DeletesOnlyOwn(pair: Pair, ts: string) {
    forall c: Cluster, visibility, docs, choices, m ::
      m in c.indices && m !in RunSteps(c, NewRun(pair, visibility, ts, docs), choices).0.indices ==> Matches(pair, m)
  }

  // ---------------------------------------------------------------- a name that is read back as its own pair

  /** What the run is about to delete belongs to the pair. */
  ghost predicate WorksOn(p: Publisher, q: Pair) {
    match p.phase
    case Creating => SplitIndexName(p.name) == Ok(q)
    case SwitchingDataset(previous) => p.target == q && forall m :: m in previous ==> Matches(q, m)
    case SwitchingDoctype(previous) => p.target == q && forall m :: m in previous ==> Matches(q, m)
    case SwitchingRoot(previous) => p.target == q && forall m :: m in previous ==> Matches(q, m)
    case Deleting(previous) => p.target == q && forall m :: m in previous ==> Matches(q, m)
    case Failed => true
    case _ => p.target == q
  }

  lemma StepWorksOn(c: Cluster, p: Publisher, choice: Choice, q: Pair)
    requires WorksOn(p, q)
    ensures WorksOn(Step(c, p, choice).1, q)
  {
  }

  lemma StepDeletesOwn(c: Cluster, p: Publisher, choice: Choice, q: Pair, m: string)
    requires WorksOn(p, q) && m in c.indices && !Matches(q, m)
    ensures m in Step(c, p, choice).0.indices
  {
  }

  lemma {:induction false} RunDeletesOwn(c: Cluster, p: Publisher, choices: seq<Choice>, q: Pair, m: string)
    requires WorksOn(p, q) && m in c.indices && !Matches(q, m)
    ensures m in RunSteps(c, p, choices).0.indices
    decreases |choices|
  {
    if choices != [] {
      var (c', p') := Step(c, p, choices[0]);
      StepWorksOn(c, p, choices[0], q);
      StepDeletesOwn(c, p, choices[0], q, m);
      RunDeletesOwn(c', p', choices[1..], q, m);
    }
  }

  // ---------------------------------------------------------------- a name that makes no index

  /** A run whose index cannot be created, or whose name cannot be read, deletes nothing. */
  lemma {:induction false} RunWithoutIndexDeletesNothing(c: Cluster, p: Publisher, choices: seq<Choice>, m: string)
    requires p.phase.Failed? || (p.phase.Creating? && ('*' in p.name || SplitIndexName(p.name).Err?))
    requires m in c.indices
    ensures m in RunSteps(c, p, choices).0.indices
    decreases |choices|
  {
    if choices != [] {
      var (c', p') := Step(c, p, choices[0]);
      RunWithoutIndexDeletesNothing(c', p', choices[1..], m);
    }
  }

  // ---------------------------------------------------------------- a name that is read back as another pair

  /** A private run without documents that works on `target` deletes any other index of `target`. */
  lemma RunDeletesTarget(c: Cluster, p: Publisher, target: Pair, m: string)
    requires p.phase.Creating? && p.visibility.Private? && p.docs == multiset{}
    requires SplitIndexName(p.name) == Ok(target)
    requires m in c.indices && Matches(target, m)
    requires c.CreateIndex(p.name).Some?
    ensures m !in RunSteps(c, p, [Proceed, Proceed, Proceed, Proceed, Proceed, Drop(m)]).0.indices
  {
    var (c1, p1) := Step(c, p, Proceed);
    var (c2, p2) := Step(c1, p1, Proceed);
    var (c3, p3) := Step(c2, p2, Proceed);
    var (c4, p4) := Step(c3, p3, Proceed);
    var (c5, p5) := Step(c4, p4, Proceed);
    var (c6, p6) := Step(c5, p5, Drop(m));
    assert p5.phase.Deleting? && m in p5.phase.previous && m in c5.indices;
    assert RunSteps(c5, p5, [Drop(m)]) == (c6, p6);
    assert RunSteps(c4, p4, [Proceed, Drop(m)]) == (c6, p6);
    assert RunSteps(c3, p3, [Proceed, Proceed, Drop(m)]) == (c6, p6);
    assert RunSteps(c2, p2, [Proceed, Proceed, Proceed, Drop(m)]) == (c6, p6);
    assert RunSteps(c1, p1, [Proceed, Proceed, Proceed, Proceed, Drop(m)]) == (c6, p6);
  }

  /** A name that is read back as another pair has its run delete an index of that pair. */
  lemma OtherTargetIsDeleted(pair: Pair, ts: string, q: Pair) returns (c: Cluster, m: string)
    requires '*' !in RootDoctypeDatasetTs(pair, ts)
    requires SplitIndexName(RootDoctypeDatasetTs(pair, ts)) == Ok(q) && q != pair
    ensures m in c.indices && !Matches(pair, m)
    ensures m !in RunSteps(c, NewRun(pair, Private, ts, multiset{}), [Proceed, Proceed, Proceed, Proceed, Proceed, Drop(m)]).0.indices
  {
    var name := RootDoctypeDatasetTs(pair, ts);
    m := RootDoctypeDatasetTs(q, "");
    c := Cluster(map[m := IndexState(map[], map[])], map[]);
    CapturesClean(name);
    NoWildcardInParts(pair, ts);
    StemMatches(q, pair);
    MatchesIsStem(pair, name);
    assert name[..|RootDoctypeDatasetTs(pair, "")|] == RootDoctypeDatasetTs(pair, "");
    RunDeletesTarget(c, NewRun(pair, Private, ts, multiset{}), q, m);
  }

  lemma NoWildcardInParts(pair: Pair, ts: string)
    requires '*' !in RootDoctypeDatasetTs(pair, ts)
    ensures '*' !in pair.docType && '*' !in pair.dataset
  {
    var name := RootDoctypeDatasetTs(pair, ts);
    var n := |INDEX_ROOT| + 1;
    assert name[n..n + |pair.docType|] == pair.docType;
    assert name[n + |pair.docType| + 1..][..|pair.dataset|] == pair.dataset;
  }

  // ---------------------------------------------------------------- exactly when

  /**
   * A run deletes only indices of its own pair exactly when both parts of the pair are non-empty and
   * free of the separator, or its name makes no index: it holds a wildcard, or cannot be read.
   */
  lemma DeletesOnlyOwnExactly(pair: Pair, ts: string)
    ensures DeletesOnlyOwn(pair, ts)
       <==> || (CleanPart(pair.docType) && CleanPart(pair.dataset))
            || '*' in RootDoctypeDatasetTs(pair, ts)
            || SplitIndexName(RootDoctypeDatasetTs(pair, ts)).Err?
  {
    var name := RootDoctypeDatasetTs(pair, ts);
    SplitInvertsFormat(pair, ts);
    if SplitIndexName(name) == Ok(pair) || '*' in name || SplitIndexName(name).Err? {
      forall c: Cluster, visibility, docs, choices, m
        | m in c.indices && m !in RunSteps(c, NewRun(pair, visibility, ts, docs), choices).0.indices
        ensures Matches(pair, m)
      {
        var p := NewRun(pair, visibility, ts, docs);
        if SplitIndexName(name) == Ok(pair) {
          if !Matches(pair, m) {
            RunDeletesOwn(c, p, choices, pair, m);
          }
        } else {
          RunWithoutIndexDeletesNothing(c, p, choices, m);
        }
      }
    } else {
      var c, m := OtherTargetIsDeleted(pair, ts, SplitIndexName(name).value);
    }
  }

  /** With timestamps as they are made, and without wildcards, only the parts of the pair decide. */
  lemma TimestampedRunDeletesOnlyOwnExactly(pair: Pair, ts: string)
    requires IsTimestamp(ts) && '*' !in RootDoctypeDatasetTs(pair, ts)
    ensures DeletesOnlyOwn(pair, ts) <==> CleanPart(pair.docType) && CleanPart(pair.dataset)
  {
    TimestampedNameIsReadable(pair, ts);
    DeletesOnlyOwnExactly(pair, ts);
  }

  /** A dataset cut at its first separator: any index of the dataset `head` is deleted by a run for `head_tail`. */
  lemma UnderscoreRunDeletesOtherDataset(c: Cluster, docType: string, head: string, tail: string, ts: string, m: string)
    requires CleanPart(docType) && CleanPart(head)
    requires m in c.indices && Matches(Pair(docType, head), m)
    requires c.CreateIndex(RootDoctypeDatasetTs(Pair(docType, head + "_" + tail), ts)).Some?
    ensures var run := NewRun(Pair(docType, head + "_" + tail), Private, ts, multiset{});
            m !in RunSteps(c, run, [Proceed, Proceed, Proceed, Proceed, Proceed, Drop(m)]).0.indices
  {
    SplitCutsDataset(docType, head, tail, ts);
    RunDeletesTarget(c, NewRun(Pair(docType, head + "_" + tail), Private, ts, multiset{}), Pair(docType, head), m);
  }
}
