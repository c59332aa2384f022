/**
 * Generating and publishing an index, as a machine that performs one cluster request a step and
 * may stop after any of them; and any number of such machines running against one cluster.
 */
module Publication {
  import opened Wrappers
  import opened Naming
  import opened Elasticsearch

  datatype Visibility = Public | Private

  datatype Phase =
    | Creating
    | Inserting(pending: multiset<Document>)
    | Refreshing
    | Listing
    | SwitchingDataset(previous: set<string>)
    | SwitchingDoctype(previous: set<string>)
    | SwitchingRoot(previous: set<string>)
    | Deleting(previous: set<string>)
    | Done
    | Failed

  /**
   * One run. `pair` and `visibility` come from the container configuration; `target` is the pair
   * read back from the name of the created index, which is the one publication works with.
   */
  datatype Publisher = Publisher(
    pair: Pair, visibility: Visibility, name: string, docs: multiset<Document>, target: Pair, phase: Phase)

  /** How the run goes on where the order is free: which document is written, which index is deleted. */
  datatype Choice = Proceed | Write(doc: Document) | Drop(name: string)

  function NewRun(pair: Pair, visibility: Visibility, ts: string, docs: multiset<Document>): Publisher {
    Publisher(pair, visibility, RootDoctypeDatasetTs(pair, ts), docs, pair, Creating)
  }

  /** The effect of a request on the cluster and the next phase; a refused request ends the run. */
  function Issue(c: Cluster, p: Publisher, answer: Option<Cluster>, next: Phase): (Cluster, Publisher) {
    match answer
    case Some(c') => (c', p.(phase := next))
    case None => (c, p.(phase := Failed))
  }

  function Step(c: Cluster, p: Publisher, choice: Choice): (Cluster, Publisher) {
    match p.phase
    case Creating =>
      (match c.CreateIndex(p.name)
       case None => (c, p.(phase := Failed))
       case Some(c') =>
         match SplitIndexName(p.name)
         case Ok(target) => (c', p.(target := target, phase := Inserting(p.docs)))
         case Err(_) => (c', p.(phase := Failed)))
    case Inserting(pending) =>
      if pending == multiset{} then (c, p.(phase := Refreshing))
      else if choice.Write? && choice.doc in pending then
        Issue(c, p, c.IndexDocument(p.name, choice.doc), Inserting(pending - multiset{choice.doc}))
      else (c, p)
    case Refreshing => Issue(c, p, c.Refresh(p.name), Listing)
    case Listing => (c, p.(phase := SwitchingDataset(c.FindByPattern(p.target) - {p.name})))
    case SwitchingDataset(previous) =>
      Issue(c, p, c.UpdateAlias(RootDoctypeDataset(p.target), p.name, previous),
            if p.visibility.Public? then SwitchingDoctype(previous) else Deleting(previous))
    case SwitchingDoctype(previous) =>
      Issue(c, p, c.UpdateAlias(RootDoctype(p.target.docType), p.name, previous), SwitchingRoot(previous))
    case SwitchingRoot(previous) =>
      Issue(c, p, c.UpdateAlias(Root(), p.name, previous), Deleting(previous))
    case Deleting(previous) =>
      if previous == {} then (c, p.(phase := Done))
      else if choice.Drop? && choice.name in previous then
        Issue(c, p, c.DeleteIndex(choice.name), Deleting(previous - {choice.name}))
      else (c, p)
    case Done => (c, p)
    case Failed => (c, p)
  }

  /** A run driven alone through a list of choices. */
  function RunSteps(c: Cluster, p: Publisher, choices: seq<Choice>): (Cluster, Publisher)
    decreases |choices|
  {
    if choices == [] then (c, p) else
      var (c', p') := Step(c, p, choices[0]);
      RunSteps(c', p', choices[1..])
  }

  // ---------------------------------------------------------------- many runs

  /**
   * A cluster, the latest run of each pair, and the documents every created index was meant to
   * hold. Runs of one pair follow each other: a new one starts after the last one stopped, wherever
   * that was. Runs of distinct pairs interleave freely.
   */
  datatype World = World(cluster: Cluster, runs: map<Pair, Publisher>, goals: map<string, multiset<Document>>)

  datatype Event =
    | Start(pair: Pair, visibility: Visibility, ts: string, docs: multiset<Document>)
    | Advance(pair: Pair, choice: Choice)
    | AutoRefresh(name: string)

  const EMPTY_WORLD := World(Cluster(map[], map[]), map[], map[])

  function Next(w: World, e: Event): World {
    match e
    case Start(pair, visibility, ts, docs) => w.(runs := w.runs[pair := NewRun(pair, visibility, ts, docs)])
    case Advance(pair, choice) =>
      if pair !in w.runs then w else
        var p := w.runs[pair];
        var (c, p') := Step(w.cluster, p, choice);
        World(c, w.runs[pair := p'],
              if p.phase.Creating? && p'.phase.Inserting? then w.goals[p.name := p.docs] else w.goals)
    case AutoRefresh(name) =>
      match w.cluster.Refresh(name)
      case Some(c) => w.(cluster := c)
      case None => w
  }

  function Exec(w: World, events: seq<Event>): World
    decreases |events|
  {
    if events == [] then w else Exec(Next(w, events[0]), events[1..])
  }

  /** Every started pair has a document type and a dataset that the name format can carry. */
  ghost predicate CleanTrace(events: seq<Event>) {
    forall e :: e in events && e.Start? ==> Clean(e.pair)
  }

  // ---------------------------------------------------------------- what holds

  /** True of contents made of `goal`: its ids and no others, each with one of its bodies. */
  ghost predicate Filled(goal: multiset<Document>, docs: map<string, string>) {
    && (forall d :: d in goal ==> d.id in docs)
    && (forall id :: id in docs ==> Document(id, docs[id]) in goal)
  }

  ghost predicate PartlyFilled(goal: multiset<Document>, pending: multiset<Document>, docs: map<string, string>) {
    && (forall d :: d in pending ==> d in goal)
    && (forall d :: d in goal ==> d in pending || d.id in docs)
    && (forall id :: id in docs ==> Document(id, docs[id]) in goal)
  }

  /** The index exists, stores all the documents it was meant to hold, and shows them to searches. */
  ghost predicate Complete(w: World, name: string) {
    && name in w.cluster.indices && name in w.goals
    && Filled(w.goals[name], w.cluster.indices[name].stored)
    && Filled(w.goals[name], w.cluster.indices[name].searchable)
  }

  predicate IsAliasOf(q: Pair, aliasName: string) {
    aliasName == RootDoctypeDataset(q) || aliasName == RootDoctype(q.docType) || aliasName == Root()
  }

  /** `name` is an index of the pair `q` that `aliasName` exposes. */
  predicate Exposes(c: Cluster, aliasName: string, q: Pair, name: string) {
    name in c.Resolve(aliasName) && Matches(q, name)
  }

  /** What every alias shows of one pair: at most one index, complete, and only under the pair's own aliases. */
  ghost predicate AliasInv(w: World, q: Pair) {
    && (forall a, m :: Exposes(w.cluster, a, q, m) ==> IsAliasOf(q, a) && Complete(w, m))
    && (forall a, m, n :: Exposes(w.cluster, a, q, m) && Exposes(w.cluster, a, q, n) ==> m == n)
    && (forall m :: m in w.cluster.Resolve(RootDoctypeDataset(q)) ==> Matches(q, m))
  }

  ghost predicate Hidden(c: Cluster, name: string) {
    forall a :: name !in c.Resolve(a)
  }

  /** `others` are the indices of the pair other than `name`. */
  ghost predicate OthersAre(c: Cluster, q: Pair, name: string, others: set<string>) {
    forall m :: m in others <==> m in c.indices && Matches(q, m) && m != name
  }

  ghost predicate Created(w: World, p: Publisher) {
    p.target == p.pair && p.name in w.cluster.indices && p.name in w.goals && w.goals[p.name] == p.docs
  }

  /** The aliases of a finished or deleting run: exactly those its visibility asks for hold its index. */
  ghost predicate Switched(c: Cluster, p: Publisher) {
    && p.name in c.Resolve(RootDoctypeDataset(p.pair))
    && (p.name in c.Resolve(RootDoctype(p.pair.docType)) <==> p.visibility.Public?)
    && (p.name in c.Resolve(Root()) <==> p.visibility.Public?)
  }

  ghost predicate RunInv(w: World, p: Publisher) {
    && Matches(p.pair, p.name)
    && SplitIndexName(p.name) == Ok(p.pair)
    && match p.phase
       case Creating => true
       case Inserting(pending) =>
         Created(w, p) && Hidden(w.cluster, p.name) &&
         PartlyFilled(p.docs, pending, w.cluster.indices[p.name].stored)
       case Refreshing =>
         Created(w, p) && Hidden(w.cluster, p.name) && Filled(p.docs, w.cluster.indices[p.name].stored)
       case Listing => Created(w, p) && Hidden(w.cluster, p.name) && Complete(w, p.name)
       case SwitchingDataset(previous) =>
         Created(w, p) && Hidden(w.cluster, p.name) && Complete(w, p.name) &&
         OthersAre(w.cluster, p.pair, p.name, previous)
       case SwitchingDoctype(previous) =>
         Created(w, p) && Complete(w, p.name) && p.visibility.Public? &&
         OthersAre(w.cluster, p.pair, p.name, previous) &&
         p.name in w.cluster.Resolve(RootDoctypeDataset(p.pair))
       case SwitchingRoot(previous) =>
         Created(w, p) && Complete(w, p.name) && p.visibility.Public? &&
         OthersAre(w.cluster, p.pair, p.name, previous) &&
         p.name in w.cluster.Resolve(RootDoctypeDataset(p.pair)) &&
         p.name in w.cluster.Resolve(RootDoctype(p.pair.docType))
       case Deleting(previous) =>
         Created(w, p) && Complete(w, p.name) && OthersAre(w.cluster, p.pair, p.name, previous) &&
         Switched(w.cluster, p)
       case Done =>
         Created(w, p) && Complete(w, p.name) && OthersAre(w.cluster, p.pair, p.name, {}) &&
         Switched(w.cluster, p)
       case Failed => true
  }

  ghost predicate PairInv(w: World, q: Pair) {
    && AliasInv(w, q)
    && (q in w.runs ==> w.runs[q].pair == q && RunInv(w, w.runs[q]))
  }

  ghost predicate Inv(w: World) {
    && (forall q :: q in w.runs ==> Clean(q))
    && (forall q :: Clean(q) ==> PairInv(w, q))
  }

  // ---------------------------------------------------------------- frames

  /** Nothing of the pair `q` changed in the cluster: its indices, their contents, every alias's share of them. */
  ghost predicate SameShare(c: Cluster, c': Cluster, q: Pair) {
    && (forall m :: Matches(q, m) ==>
          && (m in c.indices <==> m in c'.indices)
          && (m in c.indices ==> c.indices[m] == c'.indices[m]))
    && (forall a, m :: Exposes(c, a, q, m) <==> Exposes(c', a, q, m))
    && c'.Resolve(RootDoctypeDataset(q)) == c.Resolve(RootDoctypeDataset(q))
  }

  /** Nothing of the pair `q` changed in the world: its share of the cluster, its goals, its run. */
  ghost predicate SameView(w: World, w': World, q: Pair) {
    && SameShare(w.cluster, w'.cluster, q)
    && (forall m :: Matches(q, m) ==>
          (m in w.goals <==> m in w'.goals) && (m in w.goals ==> w.goals[m] == w'.goals[m]))
    && (q in w.runs <==> q in w'.runs)
    && (q in w.runs ==> w.runs[q] == w'.runs[q])
  }

  lemma UpdateAliasFrame(c: Cluster, aliasName: string, add: string, remove: set<string>, q: Pair)
    requires aliasName != RootDoctypeDataset(q)
    requires !Matches(q, add) && forall m :: m in remove ==> !Matches(q, m)
    ensures var answer := c.UpdateAlias(aliasName, add, remove);
            answer.Some? ==> SameShare(c, answer.value, q)
  {
  }

  lemma DeleteIndexFrame(c: Cluster, name: string, q: Pair)
    requires !Matches(q, name) && name !in c.Resolve(RootDoctypeDataset(q))
    ensures var answer := c.DeleteIndex(name);
            answer.Some? ==> SameShare(c, answer.value, q)
  {
  }

  /** A step of a run changes nothing of a pair that matches neither its index nor those it replaces. */
  lemma StepFrame(c: Cluster, p: Publisher, choice: Choice, q: Pair)
    requires Clean(q) && Clean(p.pair) && q != p.pair
    requires p.phase.Creating? || p.phase.Failed? || p.target == p.pair
    requires forall m :: Matches(q, m) ==> m != p.name
    requires forall m :: m in c.Resolve(RootDoctypeDataset(q)) ==> Matches(q, m)
    requires p.phase.SwitchingDataset? || p.phase.SwitchingDoctype? || p.phase.SwitchingRoot? || p.phase.Deleting? ==>
      forall m :: m in p.phase.previous ==> !Matches(q, m)
    ensures SameShare(c, Step(c, p, choice).0, q)
  {
    AliasesDistinct(q, p.pair);
    match p.phase
    case SwitchingDataset(previous) => UpdateAliasFrame(c, RootDoctypeDataset(p.pair), p.name, previous, q);
    case SwitchingDoctype(previous) => UpdateAliasFrame(c, RootDoctype(p.pair.docType), p.name, previous, q);
    case SwitchingRoot(previous) => UpdateAliasFrame(c, Root(), p.name, previous, q);
    case Deleting(previous) =>
      if choice.Drop? && choice.name in previous {
        DeleteIndexFrame(c, choice.name, q);
      }
    case _ =>
  }

  /** Non-interference: an event of another pair changes nothing of `q`. */
  lemma NonInterference(w: World, e: Event, q: Pair)
    requires Inv(w) && Clean(q)
    requires e.Start? || e.Advance?
    requires e.pair != q
    ensures SameView(w, Next(w, e), q)
  {
    if e.Advance? && e.pair in w.runs {
      var p := w.runs[e.pair];
      assert PairInv(w, e.pair) && PairInv(w, q);
      forall m | Matches(q, m) ensures !Matches(e.pair, m) {
        if Matches(e.pair, m) {
          MatchesDisjoint(q, e.pair, m);
        }
      }
      StepFrame(w.cluster, p, e.choice, q);
    }
  }

  lemma ViewKeepsInv(w: World, w': World, q: Pair)
    requires Clean(q) && PairInv(w, q) && SameView(w, w', q)
    ensures PairInv(w', q)
  {
    forall a, m | Exposes(w'.cluster, a, q, m)
      ensures IsAliasOf(q, a) && Complete(w', m)
    {
      assert Exposes(w.cluster, a, q, m);
    }
    if q in w.runs {
      var p := w.runs[q];
      assert forall a :: p.name in w.cluster.Resolve(a) <==> p.name in w'.cluster.Resolve(a) by {
        forall a ensures p.name in w.cluster.Resolve(a) <==> p.name in w'.cluster.Resolve(a) {
          assert Exposes(w.cluster, a, q, p.name) <==> Exposes(w'.cluster, a, q, p.name);
        }
      }
    }
  }
}
