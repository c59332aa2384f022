/**
 * The storage adapter: the ordered requests by which an index is created, filled and published.
 * Every execution, complete or broken off by the connection, is a run of the publication machine.
 */
module Storage {
  import opened Wrappers
  import opened Naming
  import opened Elasticsearch
  import opened Publication
  import opened PublicationSafety
  import Bulk
  import opened Paging

  /** An index as described back by the cluster: its name, and the pair read from that name. */
  datatype Index = Index(name: string, pair: Pair)

  datatype AliasAction = Add(aliasName: string, indices: set<string>) | Remove(aliasName: string, indices: set<string>)

  /** One atomic alias request with a list of actions. */
  function ApplyActions(c: Cluster, actions: seq<AliasAction>): Option<Cluster>
    decreases |actions|
  {
    if actions == [] then Some(c)
    else if !(actions[0].indices <= c.indices.Keys) then None
    else
      var held := c.Resolve(actions[0].aliasName);
      var now := if actions[0].Add? then held + actions[0].indices else held - actions[0].indices;
      ApplyActions(c.(aliases := c.aliases[actions[0].aliasName := now]), actions[1..])
  }

  /** The cluster refuses a request that only removes, and removes nothing. */
  predicate OnlyVainRemovals(c: Cluster, actions: seq<AliasAction>) {
    forall a :: a in actions ==> a.Remove? && a.indices !! c.Resolve(a.aliasName)
  }

  function AnswerActions(c: Cluster, actions: seq<AliasAction>): Option<Cluster> {
    if OnlyVainRemovals(c, actions) then None else ApplyActions(c, actions)
  }

  /** What an alias request with both kinds of actions amounts to. */
  function AliasAnswer(c: Cluster, aliasName: string, toAdd: set<string>, toRemove: set<string>): Option<Cluster> {
    if !(toAdd <= c.indices.Keys && toRemove <= c.indices.Keys) then None
    else if toAdd == {} && toRemove !! c.Resolve(aliasName) then None
    else Some(c.(aliases := c.aliases[aliasName := c.Resolve(aliasName) + toAdd - toRemove]))
  }

  lemma ActionsAnswer(c: Cluster, aliasName: string, toAdd: set<string>, toRemove: set<string>)
    requires toAdd != {} || toRemove != {}
    ensures var adds := if toAdd == {} then [] else [Add(aliasName, toAdd)];
            var removes := if toRemove == {} then [] else [Remove(aliasName, toRemove)];
            AnswerActions(c, adds + removes) == AliasAnswer(c, aliasName, toAdd, toRemove)
  {
    var add, remove := Add(aliasName, toAdd), Remove(aliasName, toRemove);
    if toAdd == {} {
      assert [] + [remove] == [remove];
      OneAction(c, remove);
      assert c.Resolve(aliasName) + toAdd == c.Resolve(aliasName);
      assert remove in [remove];
    } else {
      assert add in [add] && ([add] + [remove])[0] == add;
      OneAction(c, add);
      if toRemove == {} {
        assert [add] + [] == [add];
        assert c.Resolve(aliasName) + toAdd - toRemove == c.Resolve(aliasName) + toAdd;
      } else {
        TwoActions(c, aliasName, toAdd, toRemove);
      }
    }
  }

  lemma OneAction(c: Cluster, action: AliasAction)
    ensures ApplyActions(c, [action])
         == if !(action.indices <= c.indices.Keys) then None else
              var held := c.Resolve(action.aliasName);
              var now := if action.Add? then held + action.indices else held - action.indices;
              Some(c.(aliases := c.aliases[action.aliasName := now]))
  {
    var held := c.Resolve(action.aliasName);
    var now := if action.Add? then held + action.indices else held - action.indices;
    var c' := c.(aliases := c.aliases[action.aliasName := now]);
    assert ApplyActions(c', []) == Some(c');
  }

  lemma TwoActions(c: Cluster, aliasName: string, toAdd: set<string>, toRemove: set<string>)
    ensures ApplyActions(c, [Add(aliasName, toAdd)] + [Remove(aliasName, toRemove)])
         == if !(toAdd <= c.indices.Keys && toRemove <= c.indices.Keys) then None
            else Some(c.(aliases := c.aliases[aliasName := c.Resolve(aliasName) + toAdd - toRemove]))
  {
    var add, remove := Add(aliasName, toAdd), Remove(aliasName, toRemove);
    assert ([add] + [remove])[1..] == [remove];
    var c1 := c.(aliases := c.aliases[aliasName := c.Resolve(aliasName) + toAdd]);
    OneAction(c1, remove);
    assert c1.Resolve(aliasName) == c.Resolve(aliasName) + toAdd && c1.indices == c.indices;
    assert c1.aliases[aliasName := c.Resolve(aliasName) + toAdd - toRemove]
        == c.aliases[aliasName := c.Resolve(aliasName) + toAdd - toRemove];
  }

  lemma {:induction false} RunStepsSnoc(c: Cluster, p: Publisher, choices: seq<Choice>, last: Choice)
    ensures var (c', p') := RunSteps(c, p, choices);
            RunSteps(c, p, choices + [last]) == Step(c', p', last)
    decreases |choices|
  {
    if choices == [] {
      var (c', p') := Step(c, p, last);
      assert RunSteps(c', p', []) == (c', p');
      assert ([last])[1..] == [];
      assert choices + [last] == [last];
    } else {
      assert (choices + [last])[1..] == choices[1..] + [last];
      var (c', p') := Step(c, p, choices[0]);
      RunStepsSnoc(c', p', choices[1..], last);
    }
  }

  lemma {:induction false} RunStepsAppend(c: Cluster, p: Publisher, first: seq<Choice>, then_: seq<Choice>)
    ensures var (c', p') := RunSteps(c, p, first);
            RunSteps(c, p, first + then_) == RunSteps(c', p', then_)
    decreases |first|
  {
    if first == [] {
      assert first + then_ == then_;
    } else {
      assert (first + then_)[1..] == first[1..] + then_;
      var (c', p') := Step(c, p, first[0]);
      RunStepsAppend(c', p', first[1..], then_);
    }
  }

  function Advances(q: Pair, choices: seq<Choice>): seq<Event> {
    seq(|choices|, i requires 0 <= i < |choices| => Advance(q, choices[i]))
  }

  /** A run driven alone is an execution of the world in which only its pair advances. */
  lemma {:induction false} RunIsExecution(w: World, q: Pair, choices: seq<Choice>)
    requires q in w.runs
    ensures var w' := Exec(w, Advances(q, choices));
            q in w'.runs && (w'.cluster, w'.runs[q]) == RunSteps(w.cluster, w.runs[q], choices)
    decreases |choices|
  {
    if choices != [] {
      assert Advances(q, choices)[1..] == Advances(q, choices[1..]);
      RunIsExecution(Next(w, Advance(q, choices[0])), q, choices[1..]);
    }
  }

  lemma StepKeepsItsName(c: Cluster, p: Publisher, choice: Choice)
    ensures var p' := Step(c, p, choice).1;
            p'.name == p.name && p'.visibility == p.visibility && p'.docs == p.docs
  {
  }

  lemma {:induction false} RunKeepsItsName(c: Cluster, p: Publisher, choices: seq<Choice>)
    ensures var p' := RunSteps(c, p, choices).1;
            p'.name == p.name && p'.visibility == p.visibility && p'.docs == p.docs
    decreases |choices|
  {
    if choices != [] {
      var (c', p') := Step(c, p, choices[0]);
      StepKeepsItsName(c, p, choices[0]);
      RunKeepsItsName(c', p', choices[1..]);
    }
  }

  /** An import made from a reachable state, as an execution that goes on from it. */
  lemma ImportIsExecution(events: seq<Event>, q: Pair, visibility: Visibility, ts: string, docs: multiset<Document>,
                          choices: seq<Choice>) returns (after: seq<Event>)
    requires CleanTrace(events) && Clean(q)
    ensures after == [Start(q, visibility, ts, docs)] + Advances(q, choices)
    ensures CleanTrace(events + after) && CleanTrace(after)
    ensures var w := Exec(EMPTY_WORLD, events);
            var w' := Exec(EMPTY_WORLD, events + after);
            && w' == Exec(w, after) && q in w'.runs
            && (w'.cluster, w'.runs[q]) == RunSteps(w.cluster, NewRun(q, visibility, ts, docs), choices)
  {
    after := [Start(q, visibility, ts, docs)] + Advances(q, choices);
    assert after[1..] == Advances(q, choices);
    var w := Exec(EMPTY_WORLD, events);
    ExecAppend(EMPTY_WORLD, events, after);
    RunIsExecution(Next(w, after[0]), q, choices);
  }

  /**
   * An import that runs to its end from any reachable state leaves its index as the only one of the
   * pair, with its documents, behind the aliases its visibility asks for.
   */
  lemma CompleteImportLeavesItsIndex(events: seq<Event>, q: Pair, visibility: Visibility, ts: string,
                                     docs: multiset<Document>, choices: seq<Choice>)
    requires CleanTrace(events) && Clean(q)
    requires RunSteps(Exec(EMPTY_WORLD, events).cluster, NewRun(q, visibility, ts, docs), choices).1.phase.Done?
    ensures var c := RunSteps(Exec(EMPTY_WORLD, events).cluster, NewRun(q, visibility, ts, docs), choices).0;
            var name := RootDoctypeDatasetTs(q, ts);
            var public := if visibility.Public? then {name} else {};
            && c.FindByPattern(q) == {name} && c.Resolve(RootDoctypeDataset(q)) == {name}
            && Exposed(c, RootDoctype(q.docType), q) == public && Exposed(c, Root(), q) == public
            && name in c.indices && Filled(docs, c.indices[name].searchable)
  {
    var after := ImportIsExecution(events, q, visibility, ts, docs, choices);
    RunKeepsItsName(Exec(EMPTY_WORLD, events).cluster, NewRun(q, visibility, ts, docs), choices);
    FinishedRunLeavesItsIndex(events + after, q);
    assert RootDoctypeDatasetTs(q, ts) in Exec(EMPTY_WORLD, events + after).cluster.FindByPattern(q);
  }

  /** One more step of a public run: each alias of a served pair shows what it showed, or the run's index. */
  lemma StepShowsOldOrNew(w: World, q: Pair, choice: Choice, a: string)
    requires Inv(w) && Clean(q) && Served(w.cluster, q) && IsAliasOf(q, a)
    requires q in w.runs && w.runs[q].visibility.Public?
    ensures var w' := Next(w, Advance(q, choice));
            && Served(w'.cluster, q)
            && (Exposed(w'.cluster, a, q) == Exposed(w.cluster, a, q) || Exposed(w'.cluster, a, q) == {w.runs[q].name})
  {
    var e := Advance(q, choice);
    DowntimeOnlyByPrivateDeletion(w, e, q);
    if IsDeletion(w, e, q) {
      assert PairInv(w, q);
      DeleteStepExposed(w, q, choice.name, a);
      RemovalEmpties(Exposed(w.cluster, a, q), choice.name);
      assert choice.name !in Exposed(w.cluster, a, q);
    } else {
      OldOrNew(w, e, q, a);
    }
  }

  lemma {:induction false} RunShowsOldOrNew(w: World, q: Pair, choices: seq<Choice>, a: string)
    requires Inv(w) && Clean(q) && Served(w.cluster, q) && IsAliasOf(q, a)
    requires q in w.runs && w.runs[q].visibility.Public?
    ensures var after := Exposed(Exec(w, Advances(q, choices)).cluster, a, q);
            after == Exposed(w.cluster, a, q) || after == {w.runs[q].name}
    decreases |choices|
  {
    if choices != [] {
      var e := Advance(q, choices[0]);
      assert Advances(q, choices)[1..] == Advances(q, choices[1..]);
      StepShowsOldOrNew(w, q, choices[0], a);
      NextKeepsInv(w, e);
      StepKeepsItsName(w.cluster, w.runs[q], choices[0]);
      RunShowsOldOrNew(Next(w, e), q, choices[1..], a);
    }
  }

  /**
   * A public import of a served pair keeps it served, whichever of its requests is the last, and
   * each of the three aliases then shows what it showed before, or the new index.
   */
  lemma StoppedImportKeepsServing(events: seq<Event>, q: Pair, ts: string, docs: multiset<Document>, choices: seq<Choice>)
    requires CleanTrace(events) && Clean(q) && Served(Exec(EMPTY_WORLD, events).cluster, q)
    ensures Served(RunSteps(Exec(EMPTY_WORLD, events).cluster, NewRun(q, Public, ts, docs), choices).0, q)
    ensures var before := Exec(EMPTY_WORLD, events).cluster;
            var after := RunSteps(before, NewRun(q, Public, ts, docs), choices).0;
            forall a :: IsAliasOf(q, a) ==>
              Exposed(after, a, q) == Exposed(before, a, q) || Exposed(after, a, q) == {RootDoctypeDatasetTs(q, ts)}
  {
    var w := Exec(EMPTY_WORLD, events);
    var after := ImportIsExecution(events, q, Public, ts, docs, choices);
    ReachableInv(events);
    var w' := Next(w, after[0]);
    NextKeepsInv(w, after[0]);
    assert after[1..] == Advances(q, choices);
    ServedThroughout(w', after[1..], q);
    forall a | IsAliasOf(q, a)
      ensures var shown := Exposed(Exec(w, after).cluster, a, q);
              shown == Exposed(w.cluster, a, q) || shown == {RootDoctypeDatasetTs(q, ts)}
    {
      RunShowsOldOrNew(w', q, choices, a);
    }
  }

  /** A complete import leaves the pair served by all three aliases exactly when it is public. */
  lemma CompleteImportServesExactlyIfPublic(events: seq<Event>, q: Pair, visibility: Visibility, ts: string,
                                            docs: multiset<Document>, choices: seq<Choice>)
    requires CleanTrace(events) && Clean(q)
    requires RunSteps(Exec(EMPTY_WORLD, events).cluster, NewRun(q, visibility, ts, docs), choices).1.phase.Done?
    ensures Served(RunSteps(Exec(EMPTY_WORLD, events).cluster, NewRun(q, visibility, ts, docs), choices).0, q)
       <==> visibility.Public?
  {
    var c := RunSteps(Exec(EMPTY_WORLD, events).cluster, NewRun(q, visibility, ts, docs), choices).0;
    var name := RootDoctypeDatasetTs(q, ts);
    CompleteImportLeavesItsIndex(events, q, visibility, ts, docs, choices);
    MatchesOwn(q, ts);
    assert Exposed(c, RootDoctypeDataset(q), q) == {name};
  }

  /** Any served pair goes down by a private import under a free name, if it runs to its end, as it can. */
  lemma PrivateImportEndsService(events: seq<Event>, q: Pair, ts: string, docs: multiset<Document>)
      returns (choices: seq<Choice>)
    requires CleanTrace(events) && Clean(q) && Served(Exec(EMPTY_WORLD, events).cluster, q)
    requires Exec(EMPTY_WORLD, events).cluster.CreateIndex(RootDoctypeDatasetTs(q, ts)).Some?
    ensures var (c', p') := RunSteps(Exec(EMPTY_WORLD, events).cluster, NewRun(q, Private, ts, docs), choices);
            p'.phase.Done? && !Served(c', q)
  {
    var w := Exec(EMPTY_WORLD, events);
    ReachableInv(events);
    var start := Start(q, Private, ts, docs);
    NextKeepsInv(w, start);
    var after := RunCanFinish(Next(w, start), q);
    choices := seq(|after|, i requires 0 <= i < |after| => ChoiceOf(after[i]));
    assert Advances(q, choices) == after by {
      forall i | 0 <= i < |after| ensures after[i] == Advance(q, choices[i]) {
        assert after[i] in after;
      }
    }
    RunIsExecution(Next(w, start), q, choices);
    CompleteImportServesExactlyIfPublic(events, q, Private, ts, docs, choices);
  }

  function ChoiceOf(e: Event): Choice {
    if e.Advance? then e.choice else Proceed
  }

  function Elements(names: seq<string>): set<string> {
    set n | n in names
  }

  predicate Distinct(names: seq<string>) {
    forall i, j :: 0 <= i < j < |names| ==> names[i] != names[j]
  }

  lemma DropStep(c: Cluster, p: Publisher, previous: seq<string>, i: nat)
    requires Distinct(previous) && i < |previous| && p.phase == Deleting(Elements(previous[i..]))
    ensures Step(c, p, Drop(previous[i]))
         == Issue(c, p, c.DeleteIndex(previous[i]), Deleting(Elements(previous[i + 1..])))
  {
    assert previous[i] == previous[i..][0];
    assert previous[i..] == [previous[i]] + previous[i + 1..];
    assert previous[i] in Elements(previous[i..]);
    assert previous[i] !in previous[i + 1..] by {
      forall j | i + 1 <= j < |previous| ensures previous[j] != previous[i] {}
    }
    assert Elements(previous[i..]) - {previous[i]} == Elements(previous[i + 1..]);
  }

  // ---------------------------------------------------------------- bulk requests

  /** The documents reach the index one by one, unless there is no such index. */
  function WriteAll(c: Cluster, name: string, docs: seq<Document>): Cluster
    decreases |docs|
  {
    if docs == [] || name !in c.indices then c
    else WriteAll(c.IndexDocument(name, docs[0]).value, name, docs[1..])
  }

  function Writes(docs: seq<Document>): seq<Choice> {
    seq(|docs|, i requires 0 <= i < |docs| => Write(docs[i]))
  }

  /** The documents that a bulk request writes are as many steps of the run. */
  lemma {:induction false} WriteSteps(c: Cluster, p: Publisher, docs: seq<Document>, pending: multiset<Document>)
    requires p.phase == Inserting(pending) && multiset(docs) <= pending && p.name in c.indices
    ensures RunSteps(c, p, Writes(docs))
         == (WriteAll(c, p.name, docs), p.(phase := Inserting(pending - multiset(docs))))
    decreases |docs|
  {
    if docs == [] {
      assert pending - multiset(docs) == pending;
    } else {
      assert docs == [docs[0]] + docs[1..];
      assert multiset(docs) == multiset{docs[0]} + multiset(docs[1..]);
      assert docs[0] in pending;
      assert Writes(docs)[1..] == Writes(docs[1..]);
      var (c', p') := Step(c, p, Write(docs[0]));
      var pending' := pending - multiset{docs[0]};
      WriteSteps(c', p', docs[1..], pending');
      assert pending' - multiset(docs[1..]) == pending - multiset(docs);
    }
  }

  lemma {:induction false} WriteAllKeepsOthers(c: Cluster, name: string, docs: seq<Document>, id: string)
    requires name in c.indices && forall d :: d in docs ==> d.id != id
    ensures var stored := WriteAll(c, name, docs).indices;
            name in stored && (id in stored[name].stored <==> id in c.indices[name].stored)
            && (id in c.indices[name].stored ==> stored[name].stored[id] == c.indices[name].stored[id])
    decreases |docs|
  {
    if docs != [] {
      assert docs[0] in docs;
      WriteAllKeepsOthers(c.IndexDocument(name, docs[0]).value, name, docs[1..], id);
    }
  }

  /** Of several documents with one id in a bulk request, the last one is stored. */
  lemma {:induction false} WriteAllStoresLast(c: Cluster, name: string, docs: seq<Document>, i: nat)
    requires name in c.indices && i < |docs| && forall j :: i < j < |docs| ==> docs[j].id != docs[i].id
    ensures var stored := WriteAll(c, name, docs).indices;
            name in stored && docs[i].id in stored[name].stored && stored[name].stored[docs[i].id] == docs[i].body
    decreases |docs|
  {
    var c' := c.IndexDocument(name, docs[0]).value;
    if i > 0 {
      WriteAllStoresLast(c', name, docs[1..], i - 1);
    } else {
      WriteAllKeepsOthers(c', name, docs[1..], docs[0].id);
    }
  }

  /** Taking one chunk out of those that are left. */
  lemma {:induction false} FlattenWithout(left: seq<seq<Document>>, k: nat)
    requires k < |left|
    ensures multiset(Bulk.Flatten(left)) == multiset(left[k]) + multiset(Bulk.Flatten(left[..k] + left[k + 1..]))
  {
    var rest := left[..k] + left[k + 1..];
    if k == 0 {
      assert rest == left[1..];
    } else {
      FlattenWithout(left[1..], k - 1);
      assert rest[0] == left[0] && rest[1..] == left[1..][..k - 1] + left[1..][k..];
    }
  }

  function Without(left: seq<seq<Document>>, k: nat): (rest: seq<seq<Document>>)
    requires k < |left|
    ensures |rest| == |left| - 1
  {
    left[..k] + left[k + 1..]
  }

  ghost predicate NoneEmpty(left: seq<seq<Document>>) {
    forall i :: 0 <= i < |left| ==> left[i] != []
  }

  function Remaining(left: seq<seq<Document>>): multiset<Document> {
    multiset(Bulk.Flatten(left))
  }

  lemma NextChunk(left: seq<seq<Document>>, k: nat)
    requires k < |left| && NoneEmpty(left)
    ensures left[k] != [] && NoneEmpty(Without(left, k))
    ensures multiset(left[k]) <= Remaining(left) && Remaining(left) - multiset(left[k]) == Remaining(Without(left, k))
  {
    FlattenWithout(left, k);
  }

  /** The documents that the cluster accepts. */
  function Taken(docs: seq<Document>, rejects: Document -> bool): seq<Document> {
    if docs == [] then [] else (if rejects(docs[0]) then [] else [docs[0]]) + Taken(docs[1..], rejects)
  }

  lemma {:induction false} TakenIsPart(docs: seq<Document>, rejects: Document -> bool)
    ensures multiset(Taken(docs, rejects)) <= multiset(docs)
    ensures (forall d :: d in docs ==> !rejects(d)) ==> Taken(docs, rejects) == docs
  {
    if docs != [] {
      TakenIsPart(docs[1..], rejects);
      assert docs == [docs[0]] + docs[1..];
    }
  }

  lemma PartOfChunk(chunk: seq<Document>, n: nat, rejects: Document -> bool)
    requires n <= |chunk|
    ensures multiset(Taken(chunk[..n], rejects)) <= multiset(chunk)
    ensures n == |chunk| && (forall d :: d in chunk ==> !rejects(d)) ==> Taken(chunk[..n], rejects) == chunk
  {
    assert chunk == chunk[..n] + chunk[n..];
    assert n == |chunk| ==> chunk[..n] == chunk;
    TakenIsPart(chunk[..n], rejects);
  }

  lemma {:induction false} WriteAllKeepsIndices(c: Cluster, name: string, docs: seq<Document>)
    ensures WriteAll(c, name, docs).indices.Keys == c.indices.Keys
    decreases |docs|
  {
    if docs != [] && name in c.indices {
      WriteAllKeepsIndices(c.IndexDocument(name, docs[0]).value, name, docs[1..]);
    }
  }

  /** A document rejected among these. */
  predicate SomeRejected(docs: seq<Document>, rejects: Document -> bool) {
    exists d :: d in docs && rejects(d)
  }

  lemma AllRemain(docs: seq<Document>, size: nat)
    requires size > 0
    ensures Remaining(Bulk.Chunks(docs, size)) == multiset(docs)
    ensures NoneEmpty(Bulk.Chunks(docs, size))
  {
    var chunks := Bulk.Chunks(docs, size);
    forall i | 0 <= i < |chunks| ensures chunks[i] != [] {
      assert chunks[i] in chunks;
    }
  }

  /** Where nothing failed so far, the run has exactly the remaining chunks to write, and the rest was accepted. */
  ghost predicate AllWritten(docs: seq<Document>, left: seq<seq<Document>>, pending: multiset<Document>,
                             rejects: Document -> bool) {
    pending == Remaining(left) && forall d :: d in docs ==> d in pending || !rejects(d)
  }

  lemma ChunkWritten(docs: seq<Document>, left: seq<seq<Document>>, k: nat, pending: multiset<Document>,
                     rejects: Document -> bool)
    requires k < |left| && NoneEmpty(left) && AllWritten(docs, left, pending, rejects) && !SomeRejected(left[k], rejects)
    ensures AllWritten(docs, Without(left, k), pending - multiset(left[k]), rejects)
  {
    NextChunk(left, k);
    forall d | d in docs ensures d in pending - multiset(left[k]) || !rejects(d) {
      if rejects(d) {
        assert d !in left[k];
      }
    }
  }

  // ---------------------------------------------------------------- a run keeps its own index

  /** From its refresh on, the index of a run exists and is not among those to delete. */
  ghost predicate HoldsIndex(c: Cluster, p: Publisher) {
    match p.phase
    case Creating => true
    case Inserting(_) => true
    case Refreshing => true
    case Listing => p.name in c.indices
    case SwitchingDataset(previous) => p.name in c.indices && p.name !in previous
    case SwitchingDoctype(previous) => p.name in c.indices && p.name !in previous
    case SwitchingRoot(previous) => p.name in c.indices && p.name !in previous
    case Deleting(previous) => p.name in c.indices && p.name !in previous
    case Done => p.name in c.indices
    case Failed => true
  }

  lemma {:induction false} RunHoldsIndex(c: Cluster, p: Publisher, choices: seq<Choice>)
    requires HoldsIndex(c, p)
    ensures var (c', p') := RunSteps(c, p, choices); HoldsIndex(c', p')
    decreases |choices|
  {
    if choices != [] {
      var (c', p') := Step(c, p, choices[0]);
      RunHoldsIndex(c', p', choices[1..]);
    }
  }

  lemma RejectedInChunk(docs: seq<Document>, left: seq<seq<Document>>, k: nat, rejects: Document -> bool)
    requires k < |left| && NoneEmpty(left) && Remaining(left) <= multiset(docs)
    ensures SomeRejected(left[k], rejects) ==> SomeRejected(docs, rejects)
  {
    NextChunk(left, k);
    forall d | d in left[k] ensures d in docs {
      assert d in multiset(left[k]);
      assert d in multiset(docs);
    }
  }

  /** The cluster can create an index of this name. */
  predicate NameIsFree(c: Cluster, name: string) {
    name !in c.indices && name !in c.aliases && '*' !in name
  }

  function Switches(visibility: Visibility): nat {
    if visibility.Public? then 3 else 1
  }

  /** Why writing fails: too few answers, no index, or a rejected document. */
  ghost predicate Excused(c: Cluster, name: string, docs: seq<Document>, broken: bool, rejects: Document -> bool) {
    broken || name !in c.indices || SomeRejected(docs, rejects)
  }

  lemma NoneRejected(docs: seq<Document>, rejects: Document -> bool, pending: multiset<Document>)
    requires pending == multiset{} && AllWritten(docs, [], pending, rejects)
    ensures !SomeRejected(docs, rejects)
  {
  }

  lemma {:induction false} DistinctCount(names: seq<string>)
    requires Distinct(names)
    ensures |Elements(names)| == |names|
  {
    if names != [] {
      DistinctCount(names[1..]);
      assert Elements(names) == {names[0]} + Elements(names[1..]);
      assert names[0] !in names[1..] by {
        forall j | 1 <= j < |names| ensures names[j] != names[0] {}
      }
    }
  }

  lemma ElementsGrow(names: seq<string>, i: nat)
    requires i < |names| && Distinct(names)
    ensures Elements(names[..i + 1]) == Elements(names[..i]) + {names[i]} && names[i] !in Elements(names[..i])
    ensures names[i] in Elements(names)
  {
    assert names[..i + 1] == names[..i] + [names[i]];
  }

  class ElasticsearchStorage {
    var cluster: Cluster
    /** The number of requests that still come back before the connection breaks. */
    var budget: nat
    /**
     * How far the request that breaks the connection gets: it takes effect, its answer being lost, if
     * this is positive, and a bulk request writes this many of its documents.
     */
    var reach: nat
    const chunkSize: nat
    /** How many chunks that are already under way still go out once another one has failed. */
    const stragglers: nat
    /** The documents that the cluster rejects for their contents. */
    const rejects: Document -> bool
    const forceMerge: bool

    constructor (cluster: Cluster, budget: nat, reach: nat, chunkSize: nat, stragglers: nat,
                 rejects: Document -> bool, forceMerge: bool)
      ensures this.cluster == cluster && this.budget == budget && this.reach == reach
      ensures this.chunkSize == chunkSize && this.stragglers == stragglers
      ensures this.rejects == rejects && this.forceMerge == forceMerge
    {
      this.cluster, this.budget, this.reach := cluster, budget, reach;
      this.chunkSize, this.stragglers := chunkSize, stragglers;
      this.rejects, this.forceMerge := rejects, forceMerge;
    }

    /** The requests that writing makes: the pipeline, and one for each chunk. */
    ghost function InsertRequests(documents: nat): nat
      requires chunkSize > 0
    {
      1 + CeilDiv(documents, chunkSize)
    }

    /** The requests that publishing makes: refresh, listing, one or three aliases, one for each previous index, the merge. */
    ghost function PublishRequests(visibility: Visibility, previous: nat): nat {
      2 + Switches(visibility) + previous + if forceMerge then 1 else 0
    }

    /** The requests of a whole import: two to create, those of writing and publishing, and the final description. */
    ghost function Requests(visibility: Visibility, documents: nat, previous: nat): nat
      requires chunkSize > 0
    {
      2 + InsertRequests(documents) + PublishRequests(visibility, previous) + 1
    }

    /**
     * Sends one request; `None` answers are refusals. It `took` when it reached the cluster, and is
     * `ok` when it was not refused and the answer came back.
     */
    method Send(answer: Option<Cluster>) returns (ok: bool, took: bool)
      modifies this
      ensures ok <==> old(budget) > 0 && answer.Some?
      ensures old(budget) > 0 ==> took
      ensures old(budget) == 0 ==> (took <==> old(reach) > 0)
      ensures budget == if old(budget) == 0 then 0 else old(budget) - 1
      ensures cluster == if took && answer.Some? then answer.value else old(cluster)
    {
      ok := budget > 0 && answer.Some?;
      took := budget > 0 || reach > 0;
      if budget > 0 {
        budget := budget - 1;
      } else {
        reach := 0;
      }
      if took && answer.Some? {
        cluster := answer.value;
      }
    }

    /**
     * Sends one bulk request. Its first `n` documents reach the cluster, which writes those it
     * accepts; the chunk is `ok` when the answer comes back and rejects nothing.
     */
    method SendBulk(name: string, chunk: seq<Document>) returns (ok: bool, ghost n: nat)
      modifies this
      ensures n <= |chunk| && cluster == WriteAll(old(cluster), name, Taken(chunk[..n], rejects))
      ensures ok <==> old(budget) > 0 && name in old(cluster).indices && !SomeRejected(chunk, rejects)
      ensures old(budget) > 0 ==> n == |chunk|
      ensures budget == if old(budget) == 0 then 0 else old(budget) - 1
    {
      assert chunk[..|chunk|] == chunk;
      ok := budget > 0 && name in cluster.indices && !SomeRejected(chunk, rejects);
      var reached := if budget > 0 || reach > |chunk| then |chunk| else reach;
      n := reached;
      if budget > 0 {
        budget := budget - 1;
      } else {
        reach := 0;
      }
      cluster := WriteAll(cluster, name, Taken(chunk[..reached], rejects));
    }

    /** Adds to and removes from an alias in one request; with nothing to do, no request is sent. */
    method UpdateAlias(aliasName: string, toAdd: set<string>, toRemove: set<string>) returns (ok: bool, took: bool)
      modifies this
      ensures toAdd == {} && toRemove == {} ==> ok && cluster == old(cluster) && budget == old(budget)
      ensures toAdd != {} || toRemove != {} ==>
                var answer := AliasAnswer(old(cluster), aliasName, toAdd, toRemove);
                && (ok <==> old(budget) > 0 && answer.Some?)
                && (old(budget) > 0 ==> took)
                && (old(budget) == 0 ==> (took <==> old(reach) > 0))
                && budget == (if old(budget) == 0 then 0 else old(budget) - 1)
                && cluster == if took && answer.Some? then answer.value else old(cluster)
    {
      var actions := [];
      if toAdd != {} {
        actions := actions + [Add(aliasName, toAdd)];
      }
      if toRemove != {} {
        actions := actions + [Remove(aliasName, toRemove)];
      }
      if actions == [] {
        return true, false;
      }
      ActionsAnswer(cluster, aliasName, toAdd, toRemove);
      assert actions == (if toAdd == {} then [] else [Add(aliasName, toAdd)])
                      + (if toRemove == {} then [] else [Remove(aliasName, toRemove)]);
      ok, took := Send(AnswerActions(cluster, actions));
    }

    /** The indices that the pattern of the pair finds, without the index itself, each once. */
    method GetPreviousIndices(index: Index) returns (ok: bool, previous: seq<string>)
      modifies this
      ensures cluster == old(cluster)
      ensures ok <==> old(budget) > 0
      ensures budget == if old(budget) == 0 then 0 else old(budget) - 1
      ensures ok ==> Distinct(previous)
      ensures ok ==> forall n :: n in previous <==> n in cluster.FindByPattern(index.pair) && n != index.name
    {
      previous := [];
      var took;
      ok, took := Send(Some(cluster));
      if !ok {
        return false, [];
      }
      var found := cluster.FindByPattern(index.pair);
      while found != {}
        invariant found <= cluster.FindByPattern(index.pair)
        invariant Distinct(previous)
        invariant forall n :: n in previous <==> n in cluster.FindByPattern(index.pair) - found && n != index.name
      {
        var n :| n in found;
        assert n !in previous;
        found := found - {n};
        if n != index.name {
          previous := previous + [n];
        }
      }
    }

    method CreateContainer(pair: Pair, visibility: Visibility, ts: string, ghost docs: multiset<Document>)
        returns (index: Option<Index>, ghost choices: seq<Choice>)
      modifies this
      ensures var p := NewRun(pair, visibility, ts, docs);
              var (c', p') := RunSteps(old(cluster), p, choices);
              && c' == cluster
              && (index.Some? ==> index.value == Index(p.name, p'.target) && p'.phase == Inserting(docs)
                                  && p' == p.(target := p'.target, phase := p'.phase) && p.name in cluster.indices)
              && (index.None? ==> !p'.phase.Done? && (budget == 0 || p'.phase.Failed?))
      ensures index.Some? <==> old(budget) >= 2 && NameIsFree(old(cluster), RootDoctypeDatasetTs(pair, ts))
                               && SplitIndexName(RootDoctypeDatasetTs(pair, ts)).Ok?
      ensures index.Some? ==> budget == old(budget) - 2 && index.value.pair == SplitIndexName(RootDoctypeDatasetTs(pair, ts)).value
      ensures index.Some? ==> cluster.indices.Keys == old(cluster).indices.Keys + {RootDoctypeDatasetTs(pair, ts)}
    {
      ghost var p := NewRun(pair, visibility, ts, docs);
      var name := RootDoctypeDatasetTs(pair, ts);
      assert RunSteps(cluster, p, []) == (cluster, p);
      choices := [];
      var ok, took := Send(cluster.CreateIndex(name));
      if took {
        RunStepsSnoc(old(cluster), p, [], Proceed);
        assert [] + [Proceed] == [Proceed];
        choices := [Proceed];
      }
      if !ok {
        return None, choices;
      }
      // the index is described by reading its pair back from its name
      ok, took := Send(Some(cluster));
      if !ok {
        return None, choices;
      }
      match SplitIndexName(name) {
        case Ok(target) => index := Some(Index(name, target));
        case Err(_) => index := None;
      }
    }

    /**
     * Puts the ingest pipeline, then writes the documents in chunks. Several chunks may be under way
     * at once: any of those that are left may be the next to reach the index, and some still do after
     * one has failed. A failure leaves the run where its documents are not all written.
     */
    method InsertDocuments(name: string, docs: seq<Document>, ghost p: Publisher)
        returns (ok: bool, ghost choices: seq<Choice>)
      requires chunkSize > 0
      requires p.name == name && p.phase == Inserting(multiset(docs))
      modifies this
      ensures var (c', p') := RunSteps(old(cluster), p, choices);
              && c' == cluster
              && (ok ==> p' == p.(phase := Refreshing) && !SomeRejected(docs, rejects))
              && (!ok ==> p'.phase.Inserting?)
      ensures !ok ==> budget == 0 || name !in old(cluster).indices || SomeRejected(docs, rejects)
      ensures ok <==> old(budget) >= InsertRequests(|docs|)
                      && (docs == [] || name in old(cluster).indices) && !SomeRejected(docs, rejects)
      ensures ok ==> budget == old(budget) - InsertRequests(|docs|)
      ensures cluster.indices.Keys == old(cluster).indices.Keys
    {
      choices := [];
      ghost var c0 := cluster;
      assert RunSteps(c0, p, []) == (c0, p);
      var took;
      ok, took := Send(Some(cluster));
      if !ok {
        return false, choices;
      }
      AllRemain(docs, chunkSize);
      ghost var pending;
      ok, pending, choices := InsertChunks(name, docs, Bulk.Chunks(docs, chunkSize), c0, p, choices);
      if ok {
        RunStepsSnoc(c0, p, choices, Proceed);
        choices := choices + [Proceed];
      }
    }

    /** The loop over the chunks. */
    method InsertChunks(name: string, docs: seq<Document>, chunks: seq<seq<Document>>,
                        ghost c0: Cluster, ghost p: Publisher, ghost choices: seq<Choice>)
        returns (ok: bool, ghost pending: multiset<Document>, ghost choices': seq<Choice>)
      requires p.name == name && NoneEmpty(chunks) && Remaining(chunks) == multiset(docs)
      requires RunSteps(c0, p, choices) == (cluster, p.(phase := Inserting(multiset(docs))))
      modifies this
      ensures RunSteps(c0, p, choices') == (cluster, p.(phase := Inserting(pending)))
      ensures cluster.indices.Keys == old(cluster).indices.Keys
      ensures ok <==> old(budget) >= |chunks| && (chunks == [] || name in old(cluster).indices) && !SomeRejected(docs, rejects)
      ensures ok ==> pending == multiset{} && budget == old(budget) - |chunks|
      ensures !ok ==> budget == 0 || name !in old(cluster).indices || SomeRejected(docs, rejects)
    {
      ghost var c1 := cluster;
      ghost var carried := budget;
      var left := chunks;
      var failed, more := false, stragglers;
      pending, choices' := multiset(docs), choices;
      while left != [] && (!failed || more > 0)
        invariant RunSteps(c0, p, choices') == (cluster, p.(phase := Inserting(pending)))
        invariant cluster.indices.Keys == c1.indices.Keys
        invariant NoneEmpty(left) && Remaining(left) <= pending && Remaining(left) <= multiset(docs)
        invariant failed ==> Excused(c1, name, docs, budget == 0, rejects) && chunks != []
        invariant failed ==> Excused(c1, name, docs, carried < |chunks|, rejects)
        invariant !failed ==> AllWritten(docs, left, pending, rejects)
        invariant !failed ==> |left| <= |chunks| <= carried + |left| && budget == carried + |left| - |chunks|
        invariant !failed && |left| < |chunks| ==> name in c1.indices
        decreases |left|
      {
        var k: nat :| k < |left|;
        NextChunk(left, k);
        if failed {
          more := more - 1;
        }
        ghost var was := pending;
        var done;
        done, pending, choices' := InsertChunk(name, left[k], pending, c0, p, choices');
        if !done {
          RejectedInChunk(docs, left, k, rejects);
          failed := true;
        } else if !failed {
          ChunkWritten(docs, left, k, was, rejects);
        }
        left := Without(left, k);
      }
      if !failed {
        NoneRejected(docs, rejects, pending);
      }
      ok := !failed;
    }

    /** One bulk request, when the run still has its documents to write; `pending'` is what it has after it. */
    method InsertChunk(name: string, chunk: seq<Document>, ghost pending: multiset<Document>,
                       ghost c0: Cluster, ghost p: Publisher, ghost choices: seq<Choice>)
        returns (ok: bool, ghost pending': multiset<Document>, ghost choices': seq<Choice>)
      requires p.name == name && multiset(chunk) <= pending
      requires RunSteps(c0, p, choices) == (cluster, p.(phase := Inserting(pending)))
      modifies this
      ensures RunSteps(c0, p, choices') == (cluster, p.(phase := Inserting(pending')))
      ensures cluster.indices.Keys == old(cluster).indices.Keys
      ensures pending - multiset(chunk) <= pending' <= pending
      ensures ok ==> pending' == pending - multiset(chunk) && !SomeRejected(chunk, rejects)
      ensures ok <==> old(budget) > 0 && name in old(cluster).indices && !SomeRejected(chunk, rejects)
      ensures budget == if old(budget) == 0 then 0 else old(budget) - 1
    {
      ghost var c, now := cluster, p.(phase := Inserting(pending));
      ghost var n;
      ok, n := SendBulk(name, chunk);
      ghost var written := Taken(chunk[..n], rejects);
      WriteAllKeepsIndices(c, name, written);
      pending', choices' := pending, choices;
      if name in c.indices {
        PartOfChunk(chunk, n, rejects);
        WriteSteps(c, now, written, pending);
        RunStepsAppend(c0, p, choices, Writes(written));
        pending', choices' := pending - multiset(written), choices + Writes(written);
      }
    }

    /**
     * Publishes a filled index: refresh, find the previous indices, switch one or three aliases,
     * delete the previous indices, and merge segments where that is configured. Success is the end of
     * the machine; a failure at its end is that of the merge, and otherwise the connection broke or
     * the cluster refused a request.
     */
    method PublishIndex(index: Index, visibility: Visibility, ghost p: Publisher)
        returns (ok: bool, ghost choices: seq<Choice>)
      requires p.name == index.name && p.target == index.pair && p.visibility == visibility && p.phase.Refreshing?
      modifies this
      ensures var (c', p') := RunSteps(old(cluster), p, choices);
              && c' == cluster
              && (ok ==> p'.phase.Done?)
              && (!ok ==> budget == 0 || p'.phase.Failed?)
              && (!ok && p'.phase.Done? ==> forceMerge)
      ensures var previous := old(cluster).FindByPattern(index.pair) - {index.name};
              && (ok <==> index.name in old(cluster).indices && old(budget) >= PublishRequests(visibility, |previous|))
              && (ok ==> budget == old(budget) - PublishRequests(visibility, |previous|))
    {
      ghost var c0 := cluster;
      assert RunSteps(c0, p, []) == (c0, p);
      choices := [];
      var done, took := Send(cluster.Refresh(index.name));
      if took {
        RunStepsSnoc(c0, p, choices, Proceed);
        choices := choices + [Proceed];
      }
      if !done {
        return false, choices;
      }
      var found, previous := GetPreviousIndices(index);
      if !found {
        return false, choices;
      }
      RunStepsSnoc(c0, p, choices, Proceed);
      choices := choices + [Proceed];
      var remove := Elements(previous);
      assert remove == cluster.FindByPattern(p.target) - {p.name};
      assert cluster.FindByPattern(index.pair) == c0.FindByPattern(index.pair);
      DistinctCount(previous);
      ok, choices := SwitchAliases(index, visibility, remove, c0, p, choices);
      if !ok {
        return false, choices;
      }
      ok, choices := DeletePrevious(previous, c0, p, choices);
      if !ok {
        return false, choices;
      }
      RunHoldsIndex(c0, p, choices);
      RunKeepsItsName(c0, p, choices);
      if forceMerge {
        ok, took := Send(if index.name in cluster.indices then Some(cluster) else None);
      }
    }

    /** The one or three alias switches, when the machine is about to make the first. */
    method SwitchAliases(index: Index, visibility: Visibility, remove: set<string>,
                         ghost c0: Cluster, ghost p: Publisher, ghost choices: seq<Choice>)
        returns (ok: bool, ghost choices': seq<Choice>)
      requires var (c, now) := RunSteps(c0, p, choices);
               && c == cluster && now.name == index.name && now.target == index.pair && now.visibility == visibility
               && now.phase == SwitchingDataset(remove)
      modifies this
      ensures var (c', now') := RunSteps(c0, p, choices');
              && c' == cluster
              && (ok ==> now'.phase == Deleting(remove))
              && (!ok ==> !now'.phase.Done? && (budget == 0 || now'.phase.Failed?))
      ensures cluster.indices == old(cluster).indices
      ensures ok <==> old(budget) >= Switches(visibility)
                      && index.name in old(cluster).indices && remove <= old(cluster).indices.Keys
      ensures ok ==> budget == old(budget) - Switches(visibility)
    {
      ok, choices' := SwitchAlias(RootDoctypeDataset(index.pair), index, remove, c0, p, choices);
      if ok && visibility.Public? {
        ok, choices' := SwitchAlias(RootDoctype(index.pair.docType), index, remove, c0, p, choices');
        if ok {
          ok, choices' := SwitchAlias(Root(), index, remove, c0, p, choices');
        }
      }
    }

    /** One alias switch, when the machine is about to make it. */
    method SwitchAlias(aliasName: string, index: Index, remove: set<string>,
                       ghost c0: Cluster, ghost p: Publisher, ghost choices: seq<Choice>)
        returns (ok: bool, ghost choices': seq<Choice>)
      requires var (c, now) := RunSteps(c0, p, choices);
               && c == cluster && now.name == index.name && now.target == index.pair
               && ((now.phase == SwitchingDataset(remove) && aliasName == RootDoctypeDataset(index.pair)) ||
                   (now.phase == SwitchingDoctype(remove) && aliasName == RootDoctype(index.pair.docType)) ||
                   (now.phase == SwitchingRoot(remove) && aliasName == Root()))
      modifies this
      ensures var (c, now) := RunSteps(c0, p, choices);
              var (c', now') := RunSteps(c0, p, choices');
              && c' == cluster
              && (ok ==> now' == now.(phase :=
                    if now.phase.SwitchingDataset? && now.visibility.Public? then SwitchingDoctype(remove)
                    else if now.phase.SwitchingDoctype? then SwitchingRoot(remove) else Deleting(remove)))
              && (!ok ==> !now'.phase.Done? && (budget == 0 || now'.phase.Failed?))
      ensures cluster.indices == old(cluster).indices
      ensures ok <==> old(budget) > 0 && index.name in old(cluster).indices && remove <= old(cluster).indices.Keys
      ensures budget == if old(budget) == 0 then 0 else old(budget) - 1
    {
      ghost var c := cluster;
      var took;
      ok, took := UpdateAlias(aliasName, {index.name}, remove);
      assert AliasAnswer(c, aliasName, {index.name}, remove) == c.UpdateAlias(aliasName, index.name, remove);
      choices' := choices;
      if took {
        RunStepsSnoc(c0, p, choices, Proceed);
        choices' := choices + [Proceed];
      }
    }

    method DeletePrevious(previous: seq<string>, ghost c0: Cluster, ghost p: Publisher, ghost choices: seq<Choice>)
        returns (ok: bool, ghost choices': seq<Choice>)
      requires Distinct(previous)
      requires var (c, now) := RunSteps(c0, p, choices);
               c == cluster && now.phase == Deleting(Elements(previous))
      modifies this
      ensures var (c', now') := RunSteps(c0, p, choices');
              && c' == cluster
              && (ok <==> now'.phase.Done?)
              && (!ok ==> budget == 0 || now'.phase.Failed?)
      ensures ok <==> old(budget) >= |previous| && Elements(previous) <= old(cluster).indices.Keys
      ensures ok ==> budget == old(budget) - |previous|
    {
      ghost var start := cluster.indices.Keys;
      ghost var carried := budget;
      choices' := choices;
      ghost var now := RunSteps(c0, p, choices).1;
      assert previous[0..] == previous;
      for i := 0 to |previous|
        invariant RunSteps(c0, p, choices') == (cluster, now)
        invariant now.phase == Deleting(Elements(previous[i..]))
        invariant cluster.indices.Keys == start - Elements(previous[..i])
        invariant Elements(previous[..i]) <= start && carried >= i && budget == carried - i
      {
        DropStep(cluster, now, previous, i);
        ElementsGrow(previous, i);
        var answer := cluster.DeleteIndex(previous[i]);
        var done, took := Send(answer);
        if took {
          RunStepsSnoc(c0, p, choices', Drop(previous[i]));
          choices' := choices' + [Drop(previous[i])];
          now := now.(phase := if answer.Some? then Deleting(Elements(previous[i + 1..])) else Failed);
        }
        if !done {
          return false, choices';
        }
      }
      assert previous[..|previous|] == previous;
      RunStepsSnoc(c0, p, choices', Proceed);
      choices' := choices' + [Proceed];
      ok := true;
    }

    /**
     * Creates an index, fills it, publishes it, and asks for its description. The cluster is left in
     * a state of the machine of this run, whatever request was the last to get through. Success is
     * its end; a failure at its end is that of a request made after it, and leaves a finished run.
     */
    method GenerateIndex(pair: Pair, visibility: Visibility, ts: string, docs: seq<Document>)
        returns (ok: bool, ghost choices: seq<Choice>)
      requires chunkSize > 0
      modifies this
      ensures var (c', p') := RunSteps(old(cluster), NewRun(pair, visibility, ts, multiset(docs)), choices);
              && c' == cluster
              && (ok ==> p'.phase.Done? && !SomeRejected(docs, rejects))
              && (!ok ==> budget == 0 || p'.phase.Failed? || (p'.phase.Inserting? && SomeRejected(docs, rejects)))
      ensures var name := RootDoctypeDatasetTs(pair, ts);
              ok <==> && name !in old(cluster).indices && name !in old(cluster).aliases && '*' !in name
                      && SplitIndexName(name).Ok?
                      && (forall d :: d in docs ==> !rejects(d))
                      && old(budget) >= Requests(visibility, |docs|, |old(cluster).FindByPattern(SplitIndexName(name).value)|)
    {
      ghost var c0 := cluster;
      ghost var p := NewRun(pair, visibility, ts, multiset(docs));
      var index;
      index, choices := CreateContainer(pair, visibility, ts, multiset(docs));
      if index.None? {
        return false, choices;
      }
      ghost var p1 := RunSteps(c0, p, choices).1;
      ghost var more;
      ok, more := InsertDocuments(index.value.name, docs, p1);
      RunStepsAppend(c0, p, choices, more);
      choices := choices + more;
      if !ok {
        return false, choices;
      }
      ghost var p2 := RunSteps(c0, p, choices).1;
      assert cluster.FindByPattern(index.value.pair) - {index.value.name} == c0.FindByPattern(index.value.pair);
      ok, more := PublishIndex(index.value, visibility, p2);
      RunStepsAppend(c0, p, choices, more);
      choices := choices + more;
      if !ok {
        return false, choices;
      }
      RunHoldsIndex(c0, p, choices);
      RunKeepsItsName(c0, p, choices);
      var took;
      ok, took := Send(if index.value.name in cluster.indices then Some(cluster) else None);
    }
  }
}
