/**
 * What every reachable state of the publication machines keeps: aliases never expose a partly
 * filled index or two indices of one pair, public data stays available while it is replaced, and a
 * finished run leaves exactly its own index, whatever runs were abandoned before it.
 */
module PublicationSafety {
  import opened Naming
  import opened Elasticsearch
  import opened Publication

  // ---------------------------------------------------------------- one step of a run keeps its pair's invariant

  lemma CreatingKeepsInv(w: World, q: Pair, choice: Choice)
    requires Clean(q) && PairInv(w, q) && q in w.runs && w.runs[q].phase.Creating?
    ensures PairInv(Next(w, Advance(q, choice)), q)
  {
    var p := w.runs[q];
    var w' := Next(w, Advance(q, choice));
    // the name is new, so no alias of the pair holds it and no complete index is touched
    assert forall a :: w'.cluster.Resolve(a) == w.cluster.Resolve(a);
    assert forall a, m :: Exposes(w'.cluster, a, q, m) ==> Exposes(w.cluster, a, q, m);
    if w'.runs[q].phase.Inserting? {
      forall a ensures p.name !in w'.cluster.Resolve(a) {
        assert Exposes(w.cluster, a, q, p.name) ==> Complete(w, p.name);
      }
    }
  }

  /** Changing the contents of an index that no alias holds changes nothing that is exposed. */
  lemma HiddenChangeKeepsAliases(w: World, w': World, q: Pair, name: string)
    requires AliasInv(w, q) && Hidden(w.cluster, name)
    requires w'.goals == w.goals && w'.cluster.aliases == w.cluster.aliases
    requires w'.cluster.indices.Keys == w.cluster.indices.Keys
    requires forall m :: m in w.cluster.indices && m != name ==> w'.cluster.indices[m] == w.cluster.indices[m]
    ensures AliasInv(w', q) && Hidden(w'.cluster, name)
  {
    assert forall a :: w'.cluster.Resolve(a) == w.cluster.Resolve(a);
    forall a, m | Exposes(w'.cluster, a, q, m)
      ensures Exposes(w.cluster, a, q, m) && IsAliasOf(q, a) && Complete(w', m)
    {
      assert Exposes(w.cluster, a, q, m) && m != name;
      assert Complete(w, m);
    }
  }

  lemma WriteFills(goal: multiset<Document>, pending: multiset<Document>, docs: map<string, string>, doc: Document)
    requires PartlyFilled(goal, pending, docs) && doc in pending
    ensures PartlyFilled(goal, pending - multiset{doc}, docs[doc.id := doc.body])
  {
    var docs' := docs[doc.id := doc.body];
    forall d | d in goal ensures d in pending - multiset{doc} || d.id in docs' {
      assert d in pending || d.id in docs;
    }
    forall id | id in docs' ensures Document(id, docs'[id]) in goal {
      if id == doc.id {
        assert Document(id, docs'[id]) == doc;
      }
    }
  }

  lemma InsertingKeepsInv(w: World, q: Pair, choice: Choice)
    requires Clean(q) && PairInv(w, q) && q in w.runs && w.runs[q].phase.Inserting?
    ensures PairInv(Next(w, Advance(q, choice)), q)
  {
    var p := w.runs[q];
    var w' := Next(w, Advance(q, choice));
    var pending := p.phase.pending;
    HiddenChangeKeepsAliases(w, w', q, p.name);
    if pending != multiset{} && choice.Write? && choice.doc in pending {
      WriteFills(p.docs, pending, w.cluster.indices[p.name].stored, choice.doc);
    } else {
      assert w'.cluster == w.cluster && w'.goals == w.goals;
      if pending == multiset{} {
        assert Filled(p.docs, w.cluster.indices[p.name].stored);
      }
    }
  }

  lemma FillingKeepsInv(w: World, q: Pair, choice: Choice)
    requires Clean(q) && PairInv(w, q) && q in w.runs
    requires w.runs[q].phase.Refreshing? || w.runs[q].phase.Listing?
    ensures PairInv(Next(w, Advance(q, choice)), q)
  {
    var p := w.runs[q];
    HiddenChangeKeepsAliases(w, Next(w, Advance(q, choice)), q, p.name);
  }

  /** After one switch request, the alias exposes exactly the new index of the pair; no other alias changes. */
  lemma SwitchExposesNew(c: Cluster, q: Pair, aliasName: string, name: string, previous: set<string>)
    requires Matches(q, name) && name in c.indices && OthersAre(c, q, name, previous)
    requires forall m :: Exposes(c, aliasName, q, m) ==> m in c.indices
    ensures c.UpdateAlias(aliasName, name, previous).Some?
    ensures var c' := c.UpdateAlias(aliasName, name, previous).value;
            && c'.indices == c.indices
            && (forall m :: Exposes(c', aliasName, q, m) <==> m == name)
            && (forall a :: a != aliasName ==> c'.Resolve(a) == c.Resolve(a))
  {
    assert name !in previous;
  }

  lemma SwitchKeepsAliases(w: World, w': World, q: Pair, aliasName: string, name: string)
    requires Clean(q) && AliasInv(w, q) && IsAliasOf(q, aliasName) && Matches(q, name) && Complete(w, name)
    requires w'.goals == w.goals && w'.cluster.indices == w.cluster.indices
    requires forall m :: Exposes(w'.cluster, aliasName, q, m) <==> m == name
    requires forall a :: a != aliasName ==> w'.cluster.Resolve(a) == w.cluster.Resolve(a)
    requires forall m :: m in w'.cluster.Resolve(aliasName) ==> m == name || m in w.cluster.Resolve(aliasName)
    ensures AliasInv(w', q)
  {
    forall a, m | Exposes(w'.cluster, a, q, m)
      ensures IsAliasOf(q, a) && Complete(w', m) && (a == aliasName || Exposes(w.cluster, a, q, m))
    {
      assert a != aliasName ==> Exposes(w.cluster, a, q, m);
    }
  }

  /** The alias that a switching phase is about to update. */
  function SwitchedAlias(p: Publisher): string
    requires p.phase.SwitchingDataset? || p.phase.SwitchingDoctype? || p.phase.SwitchingRoot?
  {
    match p.phase
    case SwitchingDataset(_) => RootDoctypeDataset(p.target)
    case SwitchingDoctype(_) => RootDoctype(p.target.docType)
    case _ => Root()
  }

  lemma SwitchingKeepsInv(w: World, q: Pair, choice: Choice)
    requires Clean(q) && PairInv(w, q) && q in w.runs
    requires var phase := w.runs[q].phase; phase.SwitchingDataset? || phase.SwitchingDoctype? || phase.SwitchingRoot?
    ensures PairInv(Next(w, Advance(q, choice)), q)
    ensures !Next(w, Advance(q, choice)).runs[q].phase.Failed?
  {
    var p := w.runs[q];
    var w' := Next(w, Advance(q, choice));
    AliasesDistinct(q, q);
    SwitchExposesNew(w.cluster, q, SwitchedAlias(p), p.name, p.phase.previous);
    SwitchKeepsAliases(w, w', q, SwitchedAlias(p), p.name);
    assert Exposes(w'.cluster, SwitchedAlias(p), q, p.name);
  }

  lemma DeleteEffect(c: Cluster, name: string)
    requires name in c.indices
    ensures c.DeleteIndex(name).Some?
    ensures var c' := c.DeleteIndex(name).value;
            && c'.indices == c.indices - {name}
            && forall a :: c'.Resolve(a) == c.Resolve(a) - {name}
  {
  }

  lemma DeletingKeepsAliases(w: World, w': World, q: Pair, name: string)
    requires AliasInv(w, q) && name in w.cluster.indices
    requires w'.cluster.indices == w.cluster.indices - {name} && w'.goals == w.goals
    requires forall a :: w'.cluster.Resolve(a) == w.cluster.Resolve(a) - {name}
    ensures AliasInv(w', q)
  {
    forall a, m | Exposes(w'.cluster, a, q, m)
      ensures Exposes(w.cluster, a, q, m) && IsAliasOf(q, a) && Complete(w', m)
    {
      assert Exposes(w.cluster, a, q, m);
    }
  }

  lemma DeletingKeepsInv(w: World, q: Pair, choice: Choice)
    requires Clean(q) && PairInv(w, q) && q in w.runs && w.runs[q].phase.Deleting?
    ensures PairInv(Next(w, Advance(q, choice)), q)
    ensures !Next(w, Advance(q, choice)).runs[q].phase.Failed?
  {
    var p := w.runs[q];
    var w' := Next(w, Advance(q, choice));
    if choice.Drop? && choice.name in p.phase.previous {
      DeleteEffect(w.cluster, choice.name);
      DeletingKeepsAliases(w, w', q, choice.name);
    } else {
      assert w'.cluster == w.cluster && w'.goals == w.goals;
      assert AliasInv(w', q);
    }
  }

  lemma AdvanceKeepsOwnInv(w: World, q: Pair, choice: Choice)
    requires Clean(q) && PairInv(w, q) && q in w.runs
    ensures PairInv(Next(w, Advance(q, choice)), q)
  {
    match w.runs[q].phase
    case Creating => CreatingKeepsInv(w, q, choice);
    case Inserting(_) => InsertingKeepsInv(w, q, choice);
    case Refreshing => FillingKeepsInv(w, q, choice);
    case Listing => FillingKeepsInv(w, q, choice);
    case SwitchingDataset(_) => SwitchingKeepsInv(w, q, choice);
    case SwitchingDoctype(_) => SwitchingKeepsInv(w, q, choice);
    case SwitchingRoot(_) => SwitchingKeepsInv(w, q, choice);
    case Deleting(_) => DeletingKeepsInv(w, q, choice);
    case Done =>
      assert Next(w, Advance(q, choice)).runs == w.runs;
    case Failed =>
      assert Next(w, Advance(q, choice)).runs == w.runs;
  }

  lemma AutoRefreshKeepsAliases(w: World, name: string, q: Pair)
    requires AliasInv(w, q)
    ensures AliasInv(Next(w, AutoRefresh(name)), q)
  {
    var w' := Next(w, AutoRefresh(name));
    assert forall a :: w'.cluster.Resolve(a) == w.cluster.Resolve(a);
    assert forall m :: Complete(w, m) ==> Complete(w', m);
    assert forall a, m :: Exposes(w'.cluster, a, q, m) ==> Exposes(w.cluster, a, q, m);
  }

  lemma AutoRefreshKeepsInv(w: World, name: string, q: Pair)
    requires Clean(q) && PairInv(w, q)
    ensures PairInv(Next(w, AutoRefresh(name)), q)
  {
    var w' := Next(w, AutoRefresh(name));
    AutoRefreshKeepsAliases(w, name, q);
    assert forall a :: w'.cluster.Resolve(a) == w.cluster.Resolve(a);
    assert w'.cluster.indices.Keys == w.cluster.indices.Keys;
  }

  /** Every event that starts only clean pairs keeps the invariant of every pair. */
  lemma NextKeepsInv(w: World, e: Event)
    requires Inv(w) && (e.Start? ==> Clean(e.pair))
    ensures Inv(Next(w, e))
  {
    var w' := Next(w, e);
    forall q | Clean(q) ensures PairInv(w', q) {
      assert PairInv(w, q);
      match e
      case AutoRefresh(name) => AutoRefreshKeepsInv(w, name, q);
      case Start(pair, _, ts, _) =>
        if pair == q {
          MatchesOwn(q, ts);
          SplitInvertsFormat(q, ts);
          assert forall a, m :: Exposes(w'.cluster, a, q, m) ==> Exposes(w.cluster, a, q, m) && Complete(w', m);
        } else {
          NonInterference(w, e, q);
          ViewKeepsInv(w, w', q);
        }
      case Advance(pair, choice) =>
        if pair != q {
          NonInterference(w, e, q);
          ViewKeepsInv(w, w', q);
        } else if q in w.runs {
          AdvanceKeepsOwnInv(w, q, choice);
        }
    }
  }

  lemma {:induction false} ExecKeepsInv(w: World, events: seq<Event>)
    requires Inv(w) && CleanTrace(events)
    ensures Inv(Exec(w, events))
    decreases |events|
  {
    if events != [] {
      NextKeepsInv(w, events[0]);
      ExecKeepsInv(Next(w, events[0]), events[1..]);
    }
  }

  // ---------------------------------------------------------------- every reachable state

  /** Every state of every interleaving keeps the invariant. */
  lemma ReachableInv(events: seq<Event>)
    requires CleanTrace(events)
    ensures Inv(Exec(EMPTY_WORLD, events))
  {
    assert Inv(EMPTY_WORLD);
    ExecKeepsInv(EMPTY_WORLD, events);
  }

  /** The indices of the pair that an alias exposes. */
  function Exposed(c: Cluster, aliasName: string, q: Pair): set<string> {
    set m | m in c.Resolve(aliasName) && Matches(q, m)
  }

  ghost predicate OfCleanPair(name: string) {
    exists q :: Clean(q) && Matches(q, name)
  }

  /** Behind an alias there are only indices that runs of clean pairs created. */
  ghost predicate AliasesHoldPairs(c: Cluster) {
    forall a, m :: m in c.Resolve(a) ==> OfCleanPair(m)
  }

  /** A step puts no index behind an alias but the run's own. */
  lemma StepAddsOwnIndex(c: Cluster, p: Publisher, choice: Choice, a: string, m: string)
    requires m in Step(c, p, choice).0.Resolve(a)
    ensures m in c.Resolve(a) || m == p.name
  {
    match p.phase
    case Deleting(previous) =>
      if choice.Drop? && choice.name in previous && choice.name in c.indices {
        DeleteEffect(c, choice.name);
      }
    case _ =>
  }

  lemma NextKeepsPairs(w: World, e: Event)
    requires Inv(w) && AliasesHoldPairs(w.cluster)
    ensures AliasesHoldPairs(Next(w, e).cluster)
  {
    if e.Advance? && e.pair in w.runs {
      var p := w.runs[e.pair];
      assert Clean(e.pair) && PairInv(w, e.pair);
      forall a, m | m in Next(w, e).cluster.Resolve(a) ensures OfCleanPair(m) {
        StepAddsOwnIndex(w.cluster, p, e.choice, a, m);
        assert Matches(e.pair, p.name);
      }
    } else {
      assert Next(w, e).cluster.aliases == w.cluster.aliases;
      assert forall a :: Next(w, e).cluster.Resolve(a) == w.cluster.Resolve(a);
    }
  }

  lemma {:induction false} ExecKeepsPairs(w: World, events: seq<Event>)
    requires Inv(w) && CleanTrace(events) && AliasesHoldPairs(w.cluster)
    ensures AliasesHoldPairs(Exec(w, events).cluster)
    decreases |events|
  {
    if events != [] {
      NextKeepsPairs(w, events[0]);
      NextKeepsInv(w, events[0]);
      ExecKeepsPairs(Next(w, events[0]), events[1..]);
    }
  }

  /**
   * In every reachable state an index behind any alias belongs to a clean pair, exists and shows
   * exactly its documents, and the alias shows no other index of that pair.
   */
  lemma AliasesExposeWholeIndices(events: seq<Event>, aliasName: string, m: string)
    requires CleanTrace(events)
    requires m in Exec(EMPTY_WORLD, events).cluster.Resolve(aliasName)
    ensures var w := Exec(EMPTY_WORLD, events);
            && m in w.cluster.indices && m in w.goals
            && Filled(w.goals[m], w.cluster.indices[m].searchable)
    ensures exists q :: Clean(q) && Exposed(Exec(EMPTY_WORLD, events).cluster, aliasName, q) == {m}
  {
    assert Inv(EMPTY_WORLD);
    ExecKeepsPairs(EMPTY_WORLD, events);
    ReachableInv(events);
    var w := Exec(EMPTY_WORLD, events);
    assert OfCleanPair(m);
    var q :| Clean(q) && Matches(q, m);
    assert PairInv(w, q) && Exposes(w.cluster, aliasName, q, m);
    assert forall n :: n in Exposed(w.cluster, aliasName, q) <==> Exposes(w.cluster, aliasName, q, n);
    assert Exposed(w.cluster, aliasName, q) == {m};
  }

  /** Contents made of documents with distinct ids are exactly those documents. */
  lemma FilledWithDistinctIds(goal: multiset<Document>, docs: map<string, string>, d: Document)
    requires Filled(goal, docs)
    requires forall x, y :: x in goal && y in goal && x.id == y.id ==> x == y
    ensures d in goal <==> d.id in docs && docs[d.id] == d.body
  {
    if d in goal {
      assert Document(d.id, docs[d.id]) in goal;
    }
  }

  /**
   * Recovery: when the latest run of a pair has finished, its index is the only one of the pair, and
   * the aliases hold what the run's visibility asks for, whatever runs were abandoned before.
   */
  lemma FinishedRunLeavesItsIndex(events: seq<Event>, q: Pair)
    requires CleanTrace(events)
    requires var w := Exec(EMPTY_WORLD, events); q in w.runs && w.runs[q].phase.Done?
    ensures var w := Exec(EMPTY_WORLD, events);
            var p := w.runs[q];
            var public := if p.visibility.Public? then {p.name} else {};
            && w.cluster.FindByPattern(q) == {p.name}
            && w.cluster.Resolve(RootDoctypeDataset(q)) == {p.name}
            && Exposed(w.cluster, RootDoctype(q.docType), q) == public
            && Exposed(w.cluster, Root(), q) == public
            && Filled(p.docs, w.cluster.indices[p.name].searchable)
  {
    ReachableInv(events);
    var w := Exec(EMPTY_WORLD, events);
    assert Clean(q) && PairInv(w, q);
    FinishedAliases(w, q);
  }

  lemma FinishedAliases(w: World, q: Pair)
    requires Clean(q) && PairInv(w, q) && q in w.runs && w.runs[q].phase.Done?
    ensures var p := w.runs[q];
            var public := if p.visibility.Public? then {p.name} else {};
            && w.cluster.FindByPattern(q) == {p.name}
            && w.cluster.Resolve(RootDoctypeDataset(q)) == {p.name}
            && Exposed(w.cluster, RootDoctype(q.docType), q) == public
            && Exposed(w.cluster, Root(), q) == public
  {
    var p := w.runs[q];
    forall a, m | Exposes(w.cluster, a, q, m) ensures m == p.name {
      assert Complete(w, m);
      assert m !in {} ==> m == p.name;
    }
    forall a ensures Exposed(w.cluster, a, q) == if p.name in w.cluster.Resolve(a) then {p.name} else {} {
      assert forall m :: m in Exposed(w.cluster, a, q) <==> Exposes(w.cluster, a, q, m);
    }
    assert w.cluster.Resolve(RootDoctypeDataset(q)) == Exposed(w.cluster, RootDoctypeDataset(q), q);
  }

  // ---------------------------------------------------------------- no downtime

  /** Each of the three aliases shows exactly one index of the pair. */
  ghost predicate Served(c: Cluster, q: Pair) {
    && |Exposed(c, RootDoctypeDataset(q), q)| == 1
    && |Exposed(c, RootDoctype(q.docType), q)| == 1
    && |Exposed(c, Root(), q)| == 1
  }

  /** The one event that takes a served pair away: a run deletes an index that a public alias still shows. */
  predicate DeletesExposed(w: World, e: Event, q: Pair) {
    && e.Advance? && e.pair == q && q in w.runs
    && w.runs[q].phase.Deleting? && e.choice.Drop? && e.choice.name in w.runs[q].phase.previous
    && (e.choice.name in Exposed(w.cluster, RootDoctype(q.docType), q) || e.choice.name in Exposed(w.cluster, Root(), q))
  }

  lemma SameShareSameExposed(c: Cluster, c': Cluster, q: Pair)
    requires forall a, m :: Exposes(c, a, q, m) <==> Exposes(c', a, q, m)
    ensures forall a :: Exposed(c', a, q) == Exposed(c, a, q)
  {
    forall a ensures Exposed(c', a, q) == Exposed(c, a, q) {
      assert forall m :: m in Exposed(c, a, q) <==> Exposes(c, a, q, m);
      assert forall m :: m in Exposed(c', a, q) <==> Exposes(c', a, q, m);
    }
  }

  lemma SwitchStepExposed(w: World, q: Pair, choice: Choice, a: string)
    requires Clean(q) && PairInv(w, q) && q in w.runs
    requires var phase := w.runs[q].phase; phase.SwitchingDataset? || phase.SwitchingDoctype? || phase.SwitchingRoot?
    ensures var c' := Next(w, Advance(q, choice)).cluster;
            Exposed(c', a, q) == if a == SwitchedAlias(w.runs[q]) then {w.runs[q].name} else Exposed(w.cluster, a, q)
  {
    var p := w.runs[q];
    var c' := Next(w, Advance(q, choice)).cluster;
    SwitchExposesNew(w.cluster, q, SwitchedAlias(p), p.name, p.phase.previous);
    assert forall m :: m in Exposed(c', SwitchedAlias(p), q) <==> Exposes(c', SwitchedAlias(p), q, m);
  }

  lemma DeleteStepExposed(w: World, q: Pair, name: string, a: string)
    requires PairInv(w, q) && q in w.runs && w.runs[q].phase.Deleting? && name in w.runs[q].phase.previous
    ensures Exposed(Next(w, Advance(q, Drop(name))).cluster, a, q) == Exposed(w.cluster, a, q) - {name}
  {
    DeleteEffect(w.cluster, name);
  }

  /** The run of `q` takes an index out of the cluster. */
  predicate IsDeletion(w: World, e: Event, q: Pair) {
    && e.Advance? && e.pair == q && q in w.runs
    && w.runs[q].phase.Deleting? && e.choice.Drop? && e.choice.name in w.runs[q].phase.previous
  }

  /** Every event but a deletion leaves each alias of the pair as it was, or with the new index. */
  lemma OldOrNew(w: World, e: Event, q: Pair, a: string)
    requires Inv(w) && Clean(q) && !IsDeletion(w, e, q)
    ensures Exposed(Next(w, e).cluster, a, q) == Exposed(w.cluster, a, q)
         || (q in w.runs && Exposed(Next(w, e).cluster, a, q) == {w.runs[q].name})
  {
    var c' := Next(w, e).cluster;
    assert PairInv(w, q);
    if !e.AutoRefresh? && e.pair != q {
      NonInterference(w, e, q);
      SameShareSameExposed(w.cluster, c', q);
    } else if e.Advance? && q in w.runs &&
              (var phase := w.runs[q].phase; phase.SwitchingDataset? || phase.SwitchingDoctype? || phase.SwitchingRoot?) {
      SwitchStepExposed(w, q, e.choice, a);
    } else {
      if e.Advance? && q in w.runs {
        QuietStep(w.cluster, w.runs[q], e.choice);
      }
      assert c'.aliases == w.cluster.aliases;
    }
  }

  lemma QuietStep(c: Cluster, p: Publisher, choice: Choice)
    requires !p.phase.SwitchingDataset? && !p.phase.SwitchingDoctype? && !p.phase.SwitchingRoot?
    requires !(p.phase.Deleting? && choice.Drop? && choice.name in p.phase.previous)
    ensures Step(c, p, choice).0.aliases == c.aliases
  {
  }

  /** An alias that the deleting run has switched shows its index alone, and that index is not to be deleted. */
  lemma DeletedIsNotNew(w: World, q: Pair, a: string)
    requires PairInv(w, q) && q in w.runs && w.runs[q].phase.Deleting?
    ensures w.runs[q].name in w.cluster.Resolve(a) ==> Exposed(w.cluster, a, q) == {w.runs[q].name}
    ensures w.runs[q].name !in w.runs[q].phase.previous
  {
    var name := w.runs[q].name;
    if name in w.cluster.Resolve(a) {
      assert Exposes(w.cluster, a, q, name);
      forall m | m in Exposed(w.cluster, a, q) ensures m == name {
        assert Exposes(w.cluster, a, q, m);
      }
    }
  }

  lemma RemovalEmpties(s: set<string>, name: string)
    requires |s| == 1
    ensures |s - {name}| == 1 <==> name !in s
  {
    if name in s {
      assert |s - {name}| == 0;
    } else {
      assert s - {name} == s;
    }
  }

  /**
   * From a state where the pair is served, every event of any run keeps it served, unless it deletes
   * an index that a public alias still shows; and only a private run ever does that.
   */
  lemma DowntimeOnlyByPrivateDeletion(w: World, e: Event, q: Pair)
    requires Inv(w) && Clean(q) && Served(w.cluster, q)
    ensures Served(Next(w, e).cluster, q) <==> !DeletesExposed(w, e, q)
    ensures DeletesExposed(w, e, q) ==> w.runs[q].visibility.Private?
  {
    var d, t, r := RootDoctypeDataset(q), RootDoctype(q.docType), Root();
    if IsDeletion(w, e, q) {
      assert PairInv(w, q);
      var name := e.choice.name;
      DeleteStepExposed(w, q, name, d);
      DeleteStepExposed(w, q, name, t);
      DeleteStepExposed(w, q, name, r);
      DeletedIsNotNew(w, q, d);
      DeletedIsNotNew(w, q, t);
      DeletedIsNotNew(w, q, r);
      RemovalEmpties(Exposed(w.cluster, d, q), name);
      RemovalEmpties(Exposed(w.cluster, t, q), name);
      RemovalEmpties(Exposed(w.cluster, r, q), name);
    } else {
      OldOrNew(w, e, q, d);
      OldOrNew(w, e, q, t);
      OldOrNew(w, e, q, r);
    }
  }

  /** No run of `q` among the events is private. */
  ghost predicate PublicFor(events: seq<Event>, q: Pair) {
    forall e :: e in events && e.Start? && e.pair == q ==> e.visibility.Public?
  }

  ghost predicate RunIsPublic(w: World, q: Pair) {
    q in w.runs ==> w.runs[q].visibility.Public?
  }

  lemma RunStaysPublic(w: World, e: Event, q: Pair)
    requires RunIsPublic(w, q)
    requires e.Start? && e.pair == q ==> e.visibility.Public?
    ensures RunIsPublic(Next(w, e), q)
  {
    if e.Advance? && e.pair == q && q in w.runs {
      assert Step(w.cluster, w.runs[q], e.choice).1.visibility == w.runs[q].visibility;
    }
  }

  lemma {:induction false} ServedThroughout(w: World, events: seq<Event>, q: Pair)
    requires Inv(w) && Clean(q) && Served(w.cluster, q)
    requires CleanTrace(events) && PublicFor(events, q)
    requires RunIsPublic(w, q)
    ensures Served(Exec(w, events).cluster, q)
    decreases |events|
  {
    if events != [] {
      DowntimeOnlyByPrivateDeletion(w, events[0], q);
      NextKeepsInv(w, events[0]);
      RunStaysPublic(w, events[0], q);
      ServedThroughout(Next(w, events[0]), events[1..], q);
    }
  }

  lemma {:induction false} ExecAppend(w: World, before: seq<Event>, after: seq<Event>)
    ensures Exec(w, before + after) == Exec(Exec(w, before), after)
    decreases |before|
  {
    if before == [] {
      assert before + after == after;
    } else {
      assert (before + after)[1..] == before[1..] + after;
      ExecAppend(Next(w, before[0]), before[1..], after);
    }
  }

  /**
   * No downtime: once a public run of the pair has finished, every later state, with public runs of
   * the pair stopped anywhere and runs of other pairs in between, has each of its three aliases
   * showing exactly one whole index.
   */
  lemma NoDowntime(before: seq<Event>, after: seq<Event>, q: Pair)
    requires CleanTrace(before) && CleanTrace(after) && PublicFor(after, q)
    requires var w := Exec(EMPTY_WORLD, before);
             q in w.runs && w.runs[q].phase.Done? && w.runs[q].visibility.Public?
    ensures Served(Exec(EMPTY_WORLD, before + after).cluster, q)
  {
    var w := Exec(EMPTY_WORLD, before);
    ReachableInv(before);
    assert Clean(q) && PairInv(w, q);
    FinishedAliases(w, q);
    assert Exposed(w.cluster, RootDoctypeDataset(q), q) == {w.runs[q].name} by {
      MatchesAllOfDataset(w, q);
    }
    ServedThroughout(w, after, q);
    ExecAppend(EMPTY_WORLD, before, after);
  }

  lemma MatchesAllOfDataset(w: World, q: Pair)
    requires AliasInv(w, q)
    ensures Exposed(w.cluster, RootDoctypeDataset(q), q) == w.cluster.Resolve(RootDoctypeDataset(q))
  {
  }

  // ---------------------------------------------------------------- a run can always finish

  function Rank(phase: Phase): nat {
    match phase
    case Creating => 8
    case Inserting(_) => 7
    case Refreshing => 6
    case Listing => 5
    case SwitchingDataset(_) => 4
    case SwitchingDoctype(_) => 3
    case SwitchingRoot(_) => 2
    case Deleting(_) => 1
    case Done => 0
    case Failed => 0
  }

  function Size(phase: Phase): nat {
    match phase
    case Inserting(pending) => |pending|
    case Deleting(previous) => |previous|
    case _ => 0
  }

  /** A run whose name is free reaches the end if it keeps being scheduled, whatever was left behind before it. */
  lemma {:induction false} RunCanFinish(w: World, q: Pair) returns (events: seq<Event>)
    requires Inv(w) && q in w.runs && !w.runs[q].phase.Failed?
    requires w.runs[q].phase.Creating? ==> w.cluster.CreateIndex(w.runs[q].name).Some?
    ensures forall e :: e in events ==> e.Advance? && e.pair == q
    ensures var w' := Exec(w, events);
            q in w'.runs && w'.runs[q].phase.Done? && w'.runs[q].name == w.runs[q].name
    decreases Rank(w.runs[q].phase), Size(w.runs[q].phase)
  {
    var phase := w.runs[q].phase;
    if phase.Done? {
      events := [];
    } else {
      var choice := Proceed;
      if phase.Inserting? && phase.pending != multiset{} {
        var doc :| doc in phase.pending;
        choice := Write(doc);
      } else if phase.Deleting? && phase.previous != {} {
        var name :| name in phase.previous;
        choice := Drop(name);
      }
      var w' := Next(w, Advance(q, choice));
      assert Clean(q) && PairInv(w, q);
      StepDoesNotFail(w, q, choice);
      StepDecreases(w.cluster, w.runs[q], choice);
      NextKeepsInv(w, Advance(q, choice));
      var rest := RunCanFinish(w', q);
      events := [Advance(q, choice)] + rest;
      assert events[1..] == rest;
    }
  }

  /** The choice does work where the phase leaves one open. */
  predicate Useful(c: Cluster, p: Publisher, choice: Choice) {
    && !p.phase.Failed? && !p.phase.Done?
    && (p.phase.Creating? ==> c.CreateIndex(p.name).Some?)
    && (p.phase.Inserting? && p.phase.pending != multiset{} ==> choice.Write? && choice.doc in p.phase.pending)
    && (p.phase.Deleting? && p.phase.previous != {} ==> choice.Drop? && choice.name in p.phase.previous)
  }

  lemma StepDecreases(c: Cluster, p: Publisher, choice: Choice)
    requires Useful(c, p, choice) && !Step(c, p, choice).1.phase.Failed?
    ensures var p' := Step(c, p, choice).1;
            && p'.name == p.name && !p'.phase.Creating?
            && (Rank(p'.phase) < Rank(p.phase) || (Rank(p'.phase) == Rank(p.phase) && Size(p'.phase) < Size(p.phase)))
  {
  }

  lemma StepDoesNotFail(w: World, q: Pair, choice: Choice)
    requires Clean(q) && PairInv(w, q) && q in w.runs && Useful(w.cluster, w.runs[q], choice)
    ensures !Step(w.cluster, w.runs[q], choice).1.phase.Failed?
  {
    var p := w.runs[q];
    assert Next(w, Advance(q, choice)).runs[q] == Step(w.cluster, p, choice).1;
    if p.phase.SwitchingDataset? || p.phase.SwitchingDoctype? || p.phase.SwitchingRoot? {
      SwitchingKeepsInv(w, q, choice);
    } else if p.phase.Deleting? {
      DeletingKeepsInv(w, q, choice);
    }
  }
}
