/**
 * Writing documents in chunks: the stream is cut into chunks, several chunks are in flight at once
 * and their documents reach the index in any order, and the counts of the chunks are summed in the
 * order in which they complete.
 */
module Bulk {
  import opened Wrappers
  import opened Elasticsearch
  import opened Paging
  import Publication
  import PublicationSafety

  /** What the cluster answers for one document of a bulk request. */
  datatype ItemResult = Created | Updated | Rejected

  datatype InsertStats = InsertStats(created: nat, updated: nat) {
    function Add(other: InsertStats): InsertStats {
      InsertStats(created + other.created, updated + other.updated)
    }
  }

  datatype Error = NotCreated

  // ---------------------------------------------------------------- cutting the stream

  function Chunks<T>(docs: seq<T>, size: nat): (chunks: seq<seq<T>>)
    requires size > 0
    ensures forall c :: c in chunks ==> 0 < |c| <= size
    ensures forall i :: 0 <= i < |chunks| - 1 ==> |chunks[i]| == size
    ensures Flatten(chunks) == docs
    ensures |chunks| == CeilDiv(|docs|, size)
    decreases |docs|
  {
    if docs == [] then []
    else if |docs| <= size then
      assert Flatten([docs]) == docs + Flatten([]);
      [docs]
    else
      assert docs[..size] + docs[size..] == docs;
      [docs[..size]] + Chunks(docs[size..], size)
  }

  function Flatten<T>(chunks: seq<seq<T>>): seq<T> {
    if chunks == [] then [] else chunks[0] + Flatten(chunks[1..])
  }

  // ---------------------------------------------------------------- counting the answers of one chunk

  function CountOf(results: seq<ItemResult>, r: ItemResult): nat {
    multiset(results)[r]
  }

  /** The counts of one bulk response; a rejected document fails the chunk. */
  method BulkBlock(results: seq<ItemResult>) returns (r: Result<InsertStats, Error>)
    ensures r.Err? <==> Rejected in results
    ensures r.Ok? ==> r.value == InsertStats(CountOf(results, Created), CountOf(results, Updated))
    ensures r.Ok? ==> r.value.created + r.value.updated == |results|
  {
    var stats := InsertStats(0, 0);
    assert results[..|results|] == results;
    for i := 0 to |results|
      invariant Rejected !in results[..i]
      invariant stats == InsertStats(CountOf(results[..i], Created), CountOf(results[..i], Updated))
      invariant stats.created + stats.updated == i
    {
      assert results[..i + 1] == results[..i] + [results[i]];
      match results[i] {
        case Created => stats := stats.(created := stats.created + 1);
        case Updated => stats := stats.(updated := stats.updated + 1);
        case Rejected =>
          return Err(NotCreated);
      }
    }
    return Ok(stats);
  }

  // ---------------------------------------------------------------- concurrent chunks

  /** A document on its way to the index, with the number of the chunk that carries it. */
  datatype Op = Op(chunk: nat, doc: Document)

  function Tagged(chunk: nat, docs: seq<Document>): seq<Op> {
    seq(|docs|, i requires 0 <= i < |docs| => Op(chunk, docs[i]))
  }

  /** The documents of all chunks, the first chunk bearing the number `first`. */
  function Ops(chunks: seq<seq<Document>>, first: nat): seq<Op> {
    if chunks == [] then [] else Tagged(first, chunks[0]) + Ops(chunks[1..], first + 1)
  }

  /** Indexing one document creates it when its id is new and replaces it otherwise. */
  function ResultOf(content: map<string, string>, doc: Document): ItemResult {
    if doc.id in content then Updated else Created
  }

  /** The contents of the index after the documents reached it in the order of `ops`. */
  function Process(content: map<string, string>, ops: seq<Op>): map<string, string>
    decreases |ops|
  {
    if ops == [] then content
    else Process(content[ops[0].doc.id := ops[0].doc.body], ops[1..])
  }

  /** The answers for the documents of one chunk. */
  function ResultsFor(content: map<string, string>, ops: seq<Op>, chunk: nat): seq<ItemResult>
    decreases |ops|
  {
    if ops == [] then [] else
      var rest := ResultsFor(content[ops[0].doc.id := ops[0].doc.body], ops[1..], chunk);
      if ops[0].chunk == chunk then [ResultOf(content, ops[0].doc)] + rest else rest
  }

  /** The counts of one chunk. */
  function StatsOf(results: seq<ItemResult>): InsertStats {
    InsertStats(CountOf(results, Created), CountOf(results, Updated))
  }

  /** The counts of every chunk. */
  function ChunkStats(content: map<string, string>, ops: seq<Op>): nat -> InsertStats {
    (chunk: nat) => StatsOf(ResultsFor(content, ops, chunk))
  }

  /** The counts of the chunks, summed in the order of their completion. */
  function Sum(stats: nat -> InsertStats, completion: seq<nat>): InsertStats {
    if completion == [] then InsertStats(0, 0)
    else stats(completion[0]).Add(Sum(stats, completion[1..]))
  }

  function FoldStats(content: map<string, string>, ops: seq<Op>, completion: seq<nat>): InsertStats {
    Sum(ChunkStats(content, ops), completion)
  }

  ghost predicate Distinct(chunks: seq<nat>) {
    forall i, j :: 0 <= i < j < |chunks| ==> chunks[i] != chunks[j]
  }

  function One(r: ItemResult): InsertStats {
    InsertStats(if r.Created? then 1 else 0, if r.Updated? then 1 else 0)
  }

  lemma StatsPrepend(answer: ItemResult, rest: seq<ItemResult>)
    ensures StatsOf([answer] + rest) == One(answer).Add(StatsOf(rest))
  {
    assert multiset([answer] + rest) == multiset{answer} + multiset(rest);
  }

  lemma {:induction false} SumOfEqual(f: nat -> InsertStats, g: nat -> InsertStats, completion: seq<nat>)
    requires forall i :: 0 <= i < |completion| ==> f(completion[i]) == g(completion[i])
    ensures Sum(f, completion) == Sum(g, completion)
  {
    if completion != [] {
      SumOfEqual(f, g, completion[1..]);
    }
  }

  /** Changing the counts of one chunk changes the sum once, wherever the chunk completes. */
  lemma {:induction false} SumChangesOnce(f: nat -> InsertStats, g: nat -> InsertStats, completion: seq<nat>, at: nat,
                                          more: InsertStats)
    requires Distinct(completion) && at < |completion|
    requires forall i :: 0 <= i < |completion| && i != at ==> f(completion[i]) == g(completion[i])
    requires f(completion[at]) == more.Add(g(completion[at]))
    ensures Sum(f, completion) == more.Add(Sum(g, completion))
    decreases |completion|
  {
    if at == 0 {
      SumOfEqual(f, g, completion[1..]);
    } else {
      SumChangesOnce(f, g, completion[1..], at - 1, more);
    }
  }

  /** Indexing one more document first adds its answer to the counts of its chunk alone. */
  lemma FirstAnswer(content: map<string, string>, ops: seq<Op>, chunk: nat)
    requires ops != []
    ensures var content' := content[ops[0].doc.id := ops[0].doc.body];
            ChunkStats(content, ops)(chunk)
            == (if ops[0].chunk == chunk then One(ResultOf(content, ops[0].doc)) else InsertStats(0, 0))
               .Add(ChunkStats(content', ops[1..])(chunk))
  {
    var content' := content[ops[0].doc.id := ops[0].doc.body];
    StatsPrepend(ResultOf(content, ops[0].doc), ResultsFor(content', ops[1..], chunk));
  }

  lemma FoldCountsFirstOnce(content: map<string, string>, ops: seq<Op>, completion: seq<nat>, at: nat)
    requires ops != [] && Distinct(completion) && at < |completion| && completion[at] == ops[0].chunk
    ensures FoldStats(content, ops, completion)
         == One(ResultOf(content, ops[0].doc)).Add(
              FoldStats(content[ops[0].doc.id := ops[0].doc.body], ops[1..], completion))
  {
    var f := ChunkStats(content, ops);
    var g := ChunkStats(content[ops[0].doc.id := ops[0].doc.body], ops[1..]);
    forall i | 0 <= i < |completion|
      ensures f(completion[i]) == if i == at then One(ResultOf(content, ops[0].doc)).Add(g(completion[i])) else g(completion[i])
    {
      FirstAnswer(content, ops, completion[i]);
    }
    SumChangesOnce(f, g, completion, at, One(ResultOf(content, ops[0].doc)));
  }

  lemma {:induction false} SumOfNothing(f: nat -> InsertStats, completion: seq<nat>)
    requires forall chunk :: chunk in completion ==> f(chunk) == InsertStats(0, 0)
    ensures Sum(f, completion) == InsertStats(0, 0)
  {
    if completion != [] {
      SumUnfolds(f, completion);
      SumOfNothing(f, completion[1..]);
    }
  }

  lemma SumUnfolds(f: nat -> InsertStats, completion: seq<nat>)
    requires completion != []
    ensures Sum(f, completion) == f(completion[0]).Add(Sum(f, completion[1..]))
  {
  }

  lemma IndexingGrows(content: map<string, string>, doc: Document)
    ensures |content[doc.id := doc.body]| == |content| + One(ResultOf(content, doc)).created
    ensures One(ResultOf(content, doc)).created + One(ResultOf(content, doc)).updated == 1
  {
    var content' := content[doc.id := doc.body];
    assert content'.Keys == content.Keys + {doc.id};
    assert |content'| == |content'.Keys| && |content| == |content.Keys|;
  }

  /** The sum counts the ids that were new, and every document once. */
  lemma {:induction false} FoldCountsIds(content: map<string, string>, ops: seq<Op>, completion: seq<nat>)
    requires Distinct(completion)
    requires forall i :: 0 <= i < |ops| ==> ops[i].chunk in completion
    ensures var stats := FoldStats(content, ops, completion);
            && stats.created + |content| == |Process(content, ops)|
            && stats.created + stats.updated == |ops|
    decreases |ops|
  {
    if ops == [] {
      NoOpsCountNothing(content, completion);
    } else {
      var content' := content[ops[0].doc.id := ops[0].doc.body];
      FirstCounted(content, ops, completion);
      IndexingGrows(content, ops[0].doc);
      FoldCountsIds(content', ops[1..], completion);
    }
  }

  lemma NoOpsCountNothing(content: map<string, string>, completion: seq<nat>)
    ensures FoldStats(content, [], completion) == InsertStats(0, 0)
  {
    forall chunk: nat ensures ChunkStats(content, [])(chunk) == InsertStats(0, 0) {
      assert ResultsFor(content, [], chunk) == [];
    }
    SumOfNothing(ChunkStats(content, []), completion);
  }

  lemma FirstCounted(content: map<string, string>, ops: seq<Op>, completion: seq<nat>)
    requires ops != [] && Distinct(completion) && ops[0].chunk in completion
    ensures FoldStats(content, ops, completion)
         == One(ResultOf(content, ops[0].doc)).Add(
              FoldStats(content[ops[0].doc.id := ops[0].doc.body], ops[1..], completion))
  {
    var at :| 0 <= at < |completion| && completion[at] == ops[0].chunk;
    FoldCountsFirstOnce(content, ops, completion, at);
  }

  function Ids(docs: multiset<Document>): set<string> {
    set d | d in docs :: d.id
  }

  /** What is in the index comes from the documents, and every document's id is there. */
  lemma {:induction false} ProcessFills(content: map<string, string>, ops: seq<Op>, goal: multiset<Document>)
    requires forall id :: id in content ==> Document(id, content[id]) in goal
    requires forall op :: op in ops ==> op.doc in goal
    ensures var content' := Process(content, ops);
            && (forall id :: id in content' ==> Document(id, content'[id]) in goal)
            && (forall id :: id in content ==> id in content')
            && (forall op :: op in ops ==> op.doc.id in content')
    decreases |ops|
  {
    if ops != [] {
      var doc := ops[0].doc;
      assert ops[0] in ops && Document(doc.id, doc.body) == doc;
      ProcessFills(content[doc.id := doc.body], ops[1..], goal);
      forall op | op in ops ensures op.doc.id in Process(content, ops) {
        assert op == ops[0] || op in ops[1..];
      }
    }
  }

  lemma {:induction false} ProcessKeepsOthers(content: map<string, string>, ops: seq<Op>, id: string)
    requires forall op :: op in ops ==> op.doc.id != id
    ensures id in Process(content, ops) <==> id in content
    ensures id in content ==> Process(content, ops)[id] == content[id]
    decreases |ops|
  {
    if ops != [] {
      assert ops[0] in ops;
      ProcessKeepsOthers(content[ops[0].doc.id := ops[0].doc.body], ops[1..], id);
    }
  }

  /** The document of an id that reaches the index last is the one that stays. */
  lemma {:induction false} ProcessKeepsLast(content: map<string, string>, ops: seq<Op>, i: nat)
    requires i < |ops| && forall j :: i < j < |ops| ==> ops[j].doc.id != ops[i].doc.id
    ensures ops[i].doc.id in Process(content, ops) && Process(content, ops)[ops[i].doc.id] == ops[i].doc.body
    decreases |ops|
  {
    var content' := content[ops[0].doc.id := ops[0].doc.body];
    if i > 0 {
      ProcessKeepsLast(content', ops[1..], i - 1);
    } else {
      ProcessKeepsOthers(content', ops[1..], ops[0].doc.id);
    }
  }

  lemma {:induction false} OpsCoverDocs(chunks: seq<seq<Document>>, first: nat)
    ensures forall op :: op in Ops(chunks, first) ==> first <= op.chunk < first + |chunks| && op.doc in Flatten(chunks)
    ensures forall d :: d in Flatten(chunks) ==> exists op :: op in Ops(chunks, first) && op.doc == d
    ensures |Ops(chunks, first)| == |Flatten(chunks)|
    decreases |chunks|
  {
    if chunks != [] {
      OpsCoverDocs(chunks[1..], first + 1);
      var head := Tagged(first, chunks[0]);
      forall d | d in Flatten(chunks) ensures exists op :: op in Ops(chunks, first) && op.doc == d {
        if d in chunks[0] {
          var i :| 0 <= i < |chunks[0]| && chunks[0][i] == d;
          assert head[i].doc == d && head[i] in Ops(chunks, first);
        } else {
          var op :| op in Ops(chunks[1..], first + 1) && op.doc == d;
          assert op in Ops(chunks, first);
        }
      }
    }
  }

  /**
   * Writing a stream into a fresh index: however it is cut, in whatever order its documents reach
   * the index and its chunks complete, as many documents are created as there are ids, every
   * document is counted once, and the index holds a document of the stream under each id.
   */
  lemma BulkRefinesStream(docs: seq<Document>, size: nat, order: seq<Op>, completion: seq<nat>)
    requires size > 0
    requires multiset(order) == multiset(Ops(Chunks(docs, size), 0))
    requires Distinct(completion) && forall j :: 0 <= j < |Chunks(docs, size)| ==> j in completion
    ensures var stats := FoldStats(map[], order, completion);
            var content := Process(map[], order);
            && stats.created == |Ids(multiset(docs))|
            && stats.created + stats.updated == |docs|
            && Publication.Filled(multiset(docs), content)
  {
    var chunks := Chunks(docs, size);
    var ops := Ops(chunks, 0);
    OpsCoverDocs(chunks, 0);
    SameMembers(order, ops);
    forall i | 0 <= i < |order| ensures order[i].chunk in completion {
      assert order[i] in ops;
    }
    FoldCountsIds(map[], order, completion);
    ProcessFills(map[], order, multiset(docs));
    var content := Process(map[], order);
    forall d | d in multiset(docs) ensures d.id in content {
      assert d in Flatten(chunks);
      var op :| op in ops && op.doc == d;
      assert op in order;
    }
    assert content.Keys == Ids(multiset(docs)) by {
      forall id | id in content ensures id in Ids(multiset(docs)) {
        assert Document(id, content[id]) in multiset(docs);
      }
    }
  }

  lemma SameMembers(xs: seq<Op>, ys: seq<Op>)
    requires multiset(xs) == multiset(ys)
    ensures |xs| == |ys| && forall x :: x in xs <==> x in ys
  {
    assert |multiset(xs)| == |xs| && |multiset(ys)| == |ys|;
    forall x ensures x in xs <==> x in ys {
      assert x in xs <==> x in multiset(xs);
      assert x in ys <==> x in multiset(ys);
    }
  }

  /** With distinct ids the index holds exactly the stream, and nothing is counted as an update. */
  lemma BulkOfDistinctIds(docs: seq<Document>, size: nat, order: seq<Op>, completion: seq<nat>)
    requires size > 0
    requires multiset(order) == multiset(Ops(Chunks(docs, size), 0))
    requires Distinct(completion) && forall j :: 0 <= j < |Chunks(docs, size)| ==> j in completion
    requires forall i, j :: 0 <= i < j < |docs| ==> docs[i].id != docs[j].id
    ensures FoldStats(map[], order, completion) == InsertStats(|docs|, 0)
    ensures var content := Process(map[], order);
            forall id, body :: Document(id, body) in docs <==> id in content && content[id] == body
  {
    BulkRefinesStream(docs, size, order, completion);
    DistinctIdsCount(docs);
    FilledIsExact(docs, Process(map[], order));
  }

  lemma FilledIsExact(docs: seq<Document>, content: map<string, string>)
    requires Publication.Filled(multiset(docs), content)
    requires forall i, j :: 0 <= i < j < |docs| ==> docs[i].id != docs[j].id
    ensures forall id, body :: Document(id, body) in docs <==> id in content && content[id] == body
  {
    forall id, body ensures Document(id, body) in docs <==> id in content && content[id] == body {
      PublicationSafety.FilledWithDistinctIds(multiset(docs), content, Document(id, body));
    }
  }

  lemma {:induction false} DistinctIdsCount(docs: seq<Document>)
    requires forall i, j :: 0 <= i < j < |docs| ==> docs[i].id != docs[j].id
    ensures |Ids(multiset(docs))| == |docs|
  {
    if docs != [] {
      DistinctIdsCount(docs[1..]);
      IdsCons(docs);
      assert docs[0].id !in Ids(multiset(docs[1..]));
    }
  }

  lemma IdsCons(docs: seq<Document>)
    requires docs != []
    ensures Ids(multiset(docs)) == {docs[0].id} + Ids(multiset(docs[1..]))
  {
    assert docs == [docs[0]] + docs[1..];
    assert multiset(docs) == multiset{docs[0]} + multiset(docs[1..]);
  }
}
