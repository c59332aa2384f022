/**
 * Listing every document of an index: a chain of searches over one point in time, each continuing
 * after the last key of the one before.
 */
module Listing {
  import opened Wrappers
  import opened Paging

  /** A document of the snapshot with its position key; keys are distinct and sorted downwards. */
  datatype Hit = Hit(key: nat, doc: string)

  /** What a search brings back besides its hits: the id under which the snapshot goes on, or a broken request. */
  datatype Answer = Answers(pit: Option<string>) | Breaks

  datatype State = Start | Next(pit: string, tiebreaker: nat) | End(pit: string)

  /** The snapshot, the page size, the first snapshot id, and the answer to the n-th search. */
  datatype Server = Server(hits: seq<Hit>, size: nat, initPit: string, answers: nat -> Answer)

  /** The documents yielded, the snapshot ids sent with the searches, the id closed, and whether an error ended it. */
  datatype Outcome = Outcome(docs: seq<string>, sent: seq<string>, closed: Option<string>, failed: bool)

  ghost predicate Descending(hits: seq<Hit>) {
    forall i, j :: 0 <= i < j < |hits| ==> hits[i].key > hits[j].key
  }

  /** The hits after a key in the sort order. */
  function After(hits: seq<Hit>, tiebreaker: nat): seq<Hit> {
    if hits == [] then []
    else if hits[0].key < tiebreaker then [hits[0]] + After(hits[1..], tiebreaker)
    else After(hits[1..], tiebreaker)
  }

  function Remaining(hits: seq<Hit>, state: State): seq<Hit> {
    match state
    case Start => hits
    case Next(_, tiebreaker) => After(hits, tiebreaker)
    case End(_) => []
  }

  function Take(hits: seq<Hit>, size: nat): seq<Hit> {
    if size <= |hits| then hits[..size] else hits
  }

  function Docs(hits: seq<Hit>): (docs: seq<string>)
    ensures |docs| == |hits|
  {
    seq(|hits|, i requires 0 <= i < |hits| => hits[i].doc)
  }

  function PitOf(s: Server, state: State): string {
    if state.Start? then s.initPit else state.pit
  }

  lemma {:induction false} AfterMember(hits: seq<Hit>, t: nat, k: nat)
    requires k < |After(hits, t)|
    ensures After(hits, t)[k].key < t
  {
    if hits[0].key >= t {
      AfterMember(hits[1..], t, k);
    } else if k > 0 {
      AfterMember(hits[1..], t, k - 1);
    }
  }

  lemma {:induction false} AfterShrinks(hits: seq<Hit>, t: nat, u: nat)
    requires u <= t
    ensures |After(hits, u)| <= |After(hits, t)| <= |hits|
  {
    if hits != [] {
      AfterShrinks(hits[1..], t, u);
    }
  }

  lemma {:induction false} AfterDrops(hits: seq<Hit>, t: nat, k: nat)
    requires k < |After(hits, t)|
    ensures |After(hits, After(hits, t)[k].key)| < |After(hits, t)|
  {
    AfterMember(hits, t, k);
    var u := After(hits, t)[k].key;
    if hits[0].key >= t {
      AfterDrops(hits[1..], t, k);
    } else if k > 0 {
      AfterDrops(hits[1..], t, k - 1);
    } else {
      AfterShrinks(hits[1..], t, u);
    }
  }

  lemma {:induction false} AfterDropsAll(hits: seq<Hit>, k: nat)
    requires k < |hits|
    ensures |After(hits, hits[k].key)| < |hits|
  {
    if k == 0 {
      AfterShrinks(hits[1..], hits[0].key, hits[0].key);
    } else {
      AfterDropsAll(hits[1..], k - 1);
    }
  }

  /** A search from a state with remaining hits leaves fewer of them. */
  lemma SearchShrinks(hits: seq<Hit>, state: State, size: nat, pit: string)
    requires Take(Remaining(hits, state), size) != []
    ensures var found := Take(Remaining(hits, state), size);
            |Remaining(hits, Next(pit, found[|found| - 1].key))| < |Remaining(hits, state)|
  {
    var found := Take(Remaining(hits, state), size);
    if state.Next? {
      AfterDrops(hits, state.tiebreaker, |found| - 1);
    } else {
      AfterDropsAll(hits, |found| - 1);
    }
  }

  /** The unfold, from a state and the number of searches made before. */
  function Drain(s: Server, state: State, n: nat): Outcome
    decreases if state.End? then 0 else |Remaining(s.hits, state)| + 1
  {
    match state
    case End(pit) => Outcome([], [], Some(pit), false)
    case _ =>
      var sent := PitOf(s, state);
      if s.answers(n).Breaks? || s.answers(n).pit.None? then Outcome([], [sent], None, true) else
      var pit := s.answers(n).pit.value;
      var found := Take(Remaining(s.hits, state), s.size);
      if found == [] then
        var rest := Drain(s, End(pit), n + 1);
        rest.(sent := [sent] + rest.sent)
      else
        SearchShrinks(s.hits, state, s.size, pit);
        var rest := Drain(s, Next(pit, found[|found| - 1].key), n + 1);
        rest.(docs := Docs(found) + rest.docs, sent := [sent] + rest.sent)
  }

  function ListDocuments(s: Server): Outcome {
    Drain(s, Start, 0)
  }

  // ---------------------------------------------------------------- what the listing yields

  /** The search number `n` comes back with a snapshot id. */
  predicate Good(s: Server, n: nat) {
    s.answers(n).Answers? && s.answers(n).pit.Some?
  }

  /** The snapshot id that search `n` brings back. */
  function PitAt(s: Server, n: nat): string {
    if Good(s, n) then s.answers(n).pit.value else ""
  }

  /** The state reached when the first `i` hits are yielded. */
  predicate AtPosition(s: Server, state: State, i: nat) {
    i <= |s.hits| && !state.End? && (if i == 0 then state.Start? else state.Next? && state.tiebreaker == s.hits[i - 1].key)
  }

  lemma {:induction false} AfterIsSuffix(hits: seq<Hit>, i: nat)
    requires Descending(hits) && 0 < i <= |hits|
    ensures After(hits, hits[i - 1].key) == hits[i..]
  {
    if i == 1 {
      AfterAll(hits[1..], hits[0].key);
    } else {
      assert hits[1..][i - 2] == hits[i - 1];
      AfterIsSuffix(hits[1..], i - 1);
      assert hits[1..][i - 1..] == hits[i..];
    }
  }

  lemma AfterAll(hits: seq<Hit>, t: nat)
    requires forall h :: h in hits ==> h.key < t
    ensures After(hits, t) == hits
  {
  }

  lemma DocsAppend(xs: seq<Hit>, ys: seq<Hit>)
    ensures Docs(xs + ys) == Docs(xs) + Docs(ys)
  {
  }

  /**
   * The ids sent from search `n` on: the current one, then each time the id that the search before
   * brought back.
   */
  function Chained(s: Server, first: string, n: nat, count: nat): (sent: seq<string>)
    ensures |sent| == count
    decreases count
  {
    if count == 0 then [] else [first] + Chained(s, PitAt(s, n), n + 1, count - 1)
  }

  /** The position after the page that starts at `i`. */
  function PageEnd(s: Server, i: nat): (j: nat)
    requires i < |s.hits| && s.size > 0
    ensures i < j <= |s.hits|
  {
    if i + s.size <= |s.hits| then i + s.size else |s.hits|
  }

  function NextState(s: Server, i: nat, n: nat): State
    requires i < |s.hits| && s.size > 0
  {
    Next(PitAt(s, n), s.hits[PageEnd(s, i) - 1].key)
  }

  lemma RemainingIsSuffix(s: Server, state: State, i: nat)
    requires Descending(s.hits) && AtPosition(s, state, i)
    ensures Remaining(s.hits, state) == s.hits[i..]
  {
    if i > 0 {
      AfterIsSuffix(s.hits, i);
    }
  }

  lemma PageStep(s: Server, state: State, i: nat, n: nat)
    requires Descending(s.hits) && s.size > 0 && AtPosition(s, state, i) && Good(s, n) && i < |s.hits|
    ensures AtPosition(s, NextState(s, i, n), PageEnd(s, i))
    ensures var rest := Drain(s, NextState(s, i, n), n + 1);
            var all := Drain(s, state, n);
            && all.docs == Docs(s.hits[i..PageEnd(s, i)]) + rest.docs
            && all.sent == [PitOf(s, state)] + rest.sent
            && all.closed == rest.closed && all.failed == rest.failed
  {
    RemainingIsSuffix(s, state, i);
    TakeIsPage(s, i);
    DrainUnfolds(s, state, n);
  }

  /** A search that finds documents yields them, and the listing goes on after the last of them. */
  lemma DrainUnfolds(s: Server, state: State, n: nat)
    requires !state.End? && Good(s, n) && Take(Remaining(s.hits, state), s.size) != []
    ensures var found := Take(Remaining(s.hits, state), s.size);
            var rest := Drain(s, Next(PitAt(s, n), found[|found| - 1].key), n + 1);
            var all := Drain(s, state, n);
            && all.docs == Docs(found) + rest.docs && all.sent == [PitOf(s, state)] + rest.sent
            && all.closed == rest.closed && all.failed == rest.failed
  {
  }

  lemma TakeIsPage(s: Server, i: nat)
    requires i < |s.hits| && s.size > 0
    ensures Take(s.hits[i..], s.size) == s.hits[i..PageEnd(s, i)]
    ensures var page := s.hits[i..PageEnd(s, i)]; page != [] && page[|page| - 1] == s.hits[PageEnd(s, i) - 1]
  {
  }

  lemma LastStep(s: Server, state: State, n: nat)
    requires Descending(s.hits) && AtPosition(s, state, |s.hits|) && Good(s, n)
    ensures Drain(s, state, n) == Outcome([], [PitOf(s, state)], Some(PitAt(s, n)), false)
  {
    RemainingIsSuffix(s, state, |s.hits|);
    var pit := PitAt(s, n);
    assert Drain(s, End(pit), n + 1) == Outcome([], [], Some(pit), false);
  }

  lemma DocsOfPage(s: Server, i: nat, j: nat, k: nat)
    requires i <= j <= k <= |s.hits|
    ensures Docs(s.hits[i..j]) + Docs(s.hits[j..k]) == Docs(s.hits[i..k])
  {
    DocsAppend(s.hits[i..j], s.hits[j..k]);
    assert s.hits[i..j] + s.hits[j..k] == s.hits[i..k];
  }

  lemma PagesFrom(s: Server, i: nat)
    requires i < |s.hits| && s.size > 0
    ensures CeilDiv(|s.hits| - i, s.size) == 1 + CeilDiv(|s.hits| - PageEnd(s, i), s.size)
  {
  }

  /** What is listed from the page at `i` on, when `count` searches list everything after it. */
  lemma PrependPage(s: Server, i: nat, n: nat, sent: string, count: nat)
    requires i < |s.hits| && s.size > 0 && count > 0
    ensures Docs(s.hits[i..PageEnd(s, i)]) + Docs(s.hits[PageEnd(s, i)..]) == Docs(s.hits[i..])
    ensures [sent] + Chained(s, PitAt(s, n), n + 1, count) == Chained(s, sent, n, count + 1)
  {
    DocsOfPage(s, i, PageEnd(s, i), |s.hits|);
    assert s.hits[PageEnd(s, i)..|s.hits|] == s.hits[PageEnd(s, i)..] && s.hits[i..|s.hits|] == s.hits[i..];
  }

  /** The outcome of listing everything from position `i` on, by `left` pages and a last search. */
  ghost predicate Lists(s: Server, o: Outcome, i: nat, n: nat, sent: string, left: nat) {
    && i <= |s.hits| && o.docs == Docs(s.hits[i..]) && o.sent == Chained(s, sent, n, left + 1)
    && o.closed == Some(PitAt(s, n + left)) && !o.failed
  }

  lemma PageListed(s: Server, o: Outcome, rest: Outcome, i: nat, n: nat, sent: string, left: nat)
    requires i < |s.hits| && s.size > 0 && left > 0
    requires Lists(s, rest, PageEnd(s, i), n + 1, PitAt(s, n), left - 1)
    requires o.docs == Docs(s.hits[i..PageEnd(s, i)]) + rest.docs && o.sent == [sent] + rest.sent
    requires o.closed == rest.closed && o.failed == rest.failed
    ensures Lists(s, o, i, n, sent, left)
  {
    PrependPage(s, i, n, sent, left);
  }

  lemma NothingListed(s: Server, n: nat, sent: string)
    ensures Lists(s, Outcome([], [sent], Some(PitAt(s, n)), false), |s.hits|, n, sent, 0)
  {
    assert Chained(s, PitAt(s, n), n + 1, 0) == [];
    assert Docs(s.hits[|s.hits|..]) == [];
  }

  lemma {:induction false} DrainComplete(s: Server, state: State, i: nat, n: nat, left: nat)
    requires Descending(s.hits) && s.size > 0 && AtPosition(s, state, i)
    requires left == CeilDiv(|s.hits| - i, s.size)
    requires forall m :: n <= m <= n + left ==> Good(s, m)
    ensures Lists(s, Drain(s, state, n), i, n, PitOf(s, state), left)
    decreases |s.hits| - i
  {
    assert Good(s, n);
    if i == |s.hits| {
      LastStep(s, state, n);
      NothingListed(s, n, PitOf(s, state));
    } else {
      PageStep(s, state, i, n);
      PagesFrom(s, i);
      var next := NextState(s, i, n);
      DrainComplete(s, next, PageEnd(s, i), n + 1, left - 1);
      PageListed(s, Drain(s, state, n), Drain(s, next, n + 1), i, n, PitOf(s, state), left);
    }
  }

  lemma ListingOutcome(s: Server)
    requires Descending(s.hits) && s.size > 0
    requires forall m :: 0 <= m <= CeilDiv(|s.hits|, s.size) ==> Good(s, m)
    ensures var searches := CeilDiv(|s.hits|, s.size) + 1;
            ListDocuments(s) == Outcome(Docs(s.hits), Chained(s, s.initPit, 0, searches),
                                        Some(PitAt(s, searches - 1)), false)
  {
    DrainComplete(s, Start, 0, 0, CeilDiv(|s.hits|, s.size));
    assert s.hits[0..] == s.hits;
  }

  lemma {:induction false} ChainedAt(s: Server, first: string, n: nat, count: nat, i: nat)
    requires i < count
    ensures Chained(s, first, n, count)[i] == if i == 0 then first else PitAt(s, n + i - 1)
    decreases count
  {
    if i > 0 {
      ChainedAt(s, PitAt(s, n), n + 1, count - 1, i - 1);
    }
  }

  /** The documents are those of the first `n` hits, in their order. */
  ghost predicate YieldsFirst(s: Server, docs: seq<string>, n: nat) {
    |docs| == n <= |s.hits| && forall i :: 0 <= i < n ==> docs[i] == s.hits[i].doc
  }

  /**
   * Listing completeness: with a positive page size and searches that come back, every document of
   * the snapshot is yielded once, in the sort order, with ceil(n / k) + 1 searches; the first sends
   * the initial id and each other the id the one before brought back, and the last id is the one closed.
   */
  lemma ListingIsComplete(s: Server)
    requires Descending(s.hits) && s.size > 0
    requires forall m :: 0 <= m <= CeilDiv(|s.hits|, s.size) ==> Good(s, m)
    ensures var o := ListDocuments(s);
            var searches := CeilDiv(|s.hits|, s.size) + 1;
            && YieldsFirst(s, o.docs, |s.hits|) && !o.failed
            && |o.sent| == searches && o.sent[0] == s.initPit
            && (forall i: nat :: 0 < i < searches ==> s.answers(i - 1) == Answers(Some(o.sent[i])))
            && o.closed.Some? && s.answers(searches - 1) == Answers(o.closed)
  {
    ListingOutcome(s);
    var searches := CeilDiv(|s.hits|, s.size) + 1;
    ChainedAt(s, s.initPit, 0, searches, 0);
    forall i: nat | 0 < i < searches ensures s.answers(i - 1) == Answers(Some(ListDocuments(s).sent[i])) {
      ChainedAt(s, s.initPit, 0, searches, i);
      assert Good(s, i - 1);
    }
    assert Good(s, searches - 1);
  }

  /** The page size decides completeness: with page size 0 the listing stops at once, with nothing. */
  lemma CompleteIffPaged(s: Server)
    requires Descending(s.hits)
    requires forall m :: Good(s, m)
    ensures YieldsFirst(s, ListDocuments(s).docs, |s.hits|) <==> s.size > 0 || s.hits == []
    ensures !ListDocuments(s).failed && ListDocuments(s).closed.Some?
  {
    if s.size > 0 {
      ListingIsComplete(s);
    } else {
      assert Good(s, 0);
      var pit := PitAt(s, 0);
      assert Drain(s, End(pit), 1) == Outcome([], [], Some(pit), false);
    }
  }

  /** The position that `pages` more pages reach. */
  function Position(s: Server, i: nat, pages: nat): (j: nat)
    requires i <= |s.hits| && s.size > 0
    ensures i <= j <= |s.hits|
    decreases pages
  {
    if pages == 0 || i == |s.hits| then i else Position(s, PageEnd(s, i), pages - 1)
  }

  lemma {:induction false} PositionIsProduct(s: Server, i: nat, pages: nat)
    requires i <= |s.hits| && s.size > 0
    ensures Position(s, i, pages) == if i + pages * s.size <= |s.hits| then i + pages * s.size else |s.hits|
    decreases pages
  {
    if pages > 0 && i < |s.hits| {
      PositionIsProduct(s, PageEnd(s, i), pages - 1);
      assert pages * s.size == s.size + (pages - 1) * s.size;
    }
  }

  lemma BrokenStep(s: Server, state: State, n: nat)
    requires !state.End? && !Good(s, n)
    ensures Drain(s, state, n) == Outcome([], [PitOf(s, state)], None, true)
  {
  }

  /**
   * When a search fails, what was yielded is the documents of the pages before it, no document is
   * out of order or repeated, the error ends the listing and the snapshot is not closed.
   */
  lemma {:induction false} DrainBroken(s: Server, state: State, i: nat, n: nat, good: nat)
    requires Descending(s.hits) && s.size > 0 && AtPosition(s, state, i)
    requires good <= CeilDiv(|s.hits| - i, s.size)
    requires !Good(s, n + good) && forall m :: n <= m < n + good ==> Good(s, m)
    ensures var o := Drain(s, state, n);
            && o.failed && o.closed.None? && |o.sent| == good + 1
            && o.docs == Docs(s.hits[i..Position(s, i, good)])
    decreases good
  {
    if good == 0 {
      BrokenStep(s, state, n);
      assert Docs(s.hits[i..i]) == [];
    } else {
      assert Good(s, n);
      var j := PageEnd(s, i);
      PageStep(s, state, i, n);
      PagesFrom(s, i);
      DrainBroken(s, NextState(s, i, n), j, n + 1, good - 1);
      DocsOfPage(s, i, j, Position(s, j, good - 1));
    }
  }

  /** A listing broken at search `bad` yields the first `bad` pages. */
  lemma BrokenListingYieldsPrefix(s: Server, bad: nat)
    requires Descending(s.hits) && s.size > 0
    requires bad <= CeilDiv(|s.hits|, s.size)
    requires !Good(s, bad) && forall m :: 0 <= m < bad ==> Good(s, m)
    ensures var o := ListDocuments(s);
            var yielded := if bad * s.size <= |s.hits| then bad * s.size else |s.hits|;
            && o.failed && o.closed.None? && |o.sent| == bad + 1
            && YieldsFirst(s, o.docs, yielded)
  {
    DrainBroken(s, Start, 0, 0, bad);
    PositionIsProduct(s, 0, bad);
    assert s.hits[0..Position(s, 0, bad)] == s.hits[..Position(s, 0, bad)];
  }
}
