/**
 * When the buffered table behaves as the map although ids may be inserted again: what lookups see,
 * and what visits yield.
 */
module StoreAgreement {
  import opened Wrappers
  import opened OsmStore

  // ---------------------------------------------------------------- what lookups see

  /**
   * No flush is due, or it loses nothing: wherever the table has a row for a buffered id, other than
   * the one inserted, the row is the buffered object.
   */
  ghost predicate LosesNothing(s: DbState, id: OsmId) {
    |s.buffer| < s.size || forall k :: k in s.buffer && k in s.table && k != id ==> s.buffer[k] == s.table[k]
  }

  /** An insertion acts on what is seen as it does on a map exactly when the flush before it loses nothing. */
  lemma InsertAgreesExactly(s: DbState, id: OsmId, obj: OsmObj)
    ensures s.Insert(id, obj).Contents() == s.Contents()[id := obj] <==> LosesNothing(s, id)
  {
    InsertContents(s, id, obj);
    if |s.buffer| >= s.size {
      MergeOrder(s.buffer, s.table, id, obj);
    }
  }

  lemma InsertContents(s: DbState, id: OsmId, obj: OsmObj)
    ensures s.Insert(id, obj).Contents()
         == if |s.buffer| >= s.size then (s.buffer + s.table)[id := obj] else s.Contents()[id := obj]
  {
    if |s.buffer| >= s.size {
      var flushed := s.buffer + s.table;
      assert s.Insert(id, obj) == DbState(map[][id := obj], flushed, s.size);
      MergeUpdate(flushed, map[], id, obj);
      assert flushed + map[] == flushed;
    } else {
      MergeUpdate(s.table, s.buffer, id, obj);
    }
  }

  lemma MergeOrder(a: map<OsmId, OsmObj>, b: map<OsmId, OsmObj>, id: OsmId, obj: OsmObj)
    ensures (a + b)[id := obj] == (b + a)[id := obj] <==> forall k :: k in a && k in b && k != id ==> a[k] == b[k]
  {
    var ab, ba := (a + b)[id := obj], (b + a)[id := obj];
    forall k | k in a && k in b && k != id ensures ab[k] == b[k] && ba[k] == a[k] {
    }
    if forall k :: k in a && k in b && k != id ==> a[k] == b[k] {
      forall k | k in ab ensures ab[k] == ba[k] {
      }
    }
  }

  /** What lookups see is the map after each of the insertions. */
  ghost predicate AgreesThroughout(s: DbState, m: map<OsmId, OsmObj>, objs: seq<OsmObj>)
    decreases |objs|
  {
    s.Contents() == m
    && (objs == [] || AgreesThroughout(s.Insert(objs[0].Id(), objs[0]), m[objs[0].Id() := objs[0]], objs[1..]))
  }

  ghost predicate NeverLoses(s: DbState, objs: seq<OsmObj>)
    decreases |objs|
  {
    objs == [] || (LosesNothing(s, objs[0].Id()) && NeverLoses(s.Insert(objs[0].Id(), objs[0]), objs[1..]))
  }

  /** Over any insertions, repeated ids included, lookups agree all along exactly when no flush loses an object. */
  lemma {:induction false} LookupsAgreeExactly(s: DbState, objs: seq<OsmObj>)
    ensures AgreesThroughout(s, s.Contents(), objs) <==> NeverLoses(s, objs)
    decreases |objs|
  {
    if objs != [] {
      InsertAgreesExactly(s, objs[0].Id(), objs[0]);
      var s' := s.Insert(objs[0].Id(), objs[0]);
      LookupsAgreeExactly(s', objs[1..]);
      var m := s.Contents()[objs[0].Id() := objs[0]];
      if AgreesThroughout(s', m, objs[1..]) {
        assert s'.Contents() == m;
      }
    }
  }

  /** With room for one object only, the second object under an id is seen, and lost when a third is inserted. */
  lemma ReinsertionDisagrees(first: OsmObj, second: OsmObj, other: OsmObj)
    requires first.Id() == second.Id() && first != second && other.Id() != first.Id()
    ensures !AgreesThroughout(EmptyDb(1), map[], [first, second, other])
    ensures RunDb(EmptyDb(1), [first, second, other]).Get(first.Id()) == Some(first)
  {
    var id := first.Id();
    var objs := [first, second, other];
    assert objs[1..] == [second, other] && [second, other][1..] == [other];
    var s1 := EmptyDb(1).Insert(id, first);
    assert s1 == DbState(map[id := first], map[], 1);
    var s2 := s1.Insert(id, second);
    assert s2.table == map[id := first] && s2.buffer == map[id := second];
    assert |s2.buffer| == 1;
    assert !LosesNothing(s2, other.Id());
    assert !NeverLoses(s2, [other]);
    assert !NeverLoses(s1, [second, other]);
    LookupsAgreeExactly(EmptyDb(1), objs);
    assert EmptyDb(1).Contents() == map[];
    var s3 := s2.Insert(other.Id(), other);
    assert s3.buffer == map[other.Id() := other] && s3.table[id] == first;
    assert RunDb(s3, []) == s3;
    assert RunDb(s2, [other]) == s3;
    assert RunDb(s1, [second, other]) == s3;
  }

  // ---------------------------------------------------------------- what visits yield

  /** However the objects are visited, each that is seen is visited once. */
  ghost predicate VisitsOnce(s: DbState) {
    forall visited, kind :: DbVisits(visited, s, kind) ==> Enumerates(visited, s.Contents(), kind)
  }

  lemma {:induction false} EnumerationExists(objs: map<OsmId, OsmObj>, kind: Kind) returns (visited: seq<OsmObj>)
    requires WellKeyed(objs)
    ensures Enumerates(visited, objs, kind)
    decreases |objs|
  {
    if objs == map[] {
      visited := [];
    } else {
      var id :| id in objs;
      var rest := objs - {id};
      assert rest.Keys == objs.Keys - {id} && |rest.Keys| == |rest| && |objs.Keys| == |objs|;
      visited := EnumerationExists(rest, kind);
      if id.KindOf() == kind {
        visited := visited + [objs[id]];
      }
    }
  }

  lemma SharedIsVisitedTwice(s: DbState, id: OsmId, visited: seq<OsmObj>)
    requires s.Keyed() && id in s.buffer && id in s.table && DbVisits(visited, s, id.KindOf())
    ensures exists i, j :: 0 <= i < j < |visited| && visited[i] == s.buffer[id] && visited[j] == s.table[id]
  {
    var kind := id.KindOf();
    var buffered, stored :|
      Enumerates(buffered, s.buffer, kind) && Enumerates(stored, s.table, kind) && visited == buffered + stored;
    assert s.buffer[id] in buffered && s.table[id] in stored;
    var i :| 0 <= i < |buffered| && buffered[i] == s.buffer[id];
    var j :| 0 <= j < |stored| && stored[j] == s.table[id];
    assert visited[i] == s.buffer[id] && visited[|buffered| + j] == s.table[id];
  }

  /** Every object is visited once exactly when no id is both buffered and in the table. */
  lemma VisitsOnceExactly(s: DbState)
    requires s.Keyed()
    ensures VisitsOnce(s) <==> s.buffer.Keys !! s.table.Keys
  {
    if s.buffer.Keys !! s.table.Keys {
      forall visited, kind | DbVisits(visited, s, kind) ensures Enumerates(visited, s.Contents(), kind) {
        DisjointIsVisitedOnce(s, kind, visited);
      }
    } else {
      var id :| id in s.buffer && id in s.table;
      var buffered := EnumerationExists(s.buffer, id.KindOf());
      var stored := EnumerationExists(s.table, id.KindOf());
      var visited := buffered + stored;
      assert DbVisits(visited, s, id.KindOf());
      SharedIsVisitedTwice(s, id, visited);
    }
  }

  /** The object of this id has not left the buffer, nor does it by this insertion. */
  ghost predicate HasNotLeft(s: DbState, id: OsmId) {
    id !in s.table && (|s.buffer| >= s.size ==> id !in s.buffer)
  }

  /** No id is inserted again once its object has left the buffer. */
  ghost predicate NeverReturns(s: DbState, objs: seq<OsmObj>)
    decreases |objs|
  {
    objs == [] || (HasNotLeft(s, objs[0].Id()) && NeverReturns(s.Insert(objs[0].Id(), objs[0]), objs[1..]))
  }

  /** After each of the insertions lookups see the map, and visits yield each of its objects once. */
  ghost predicate AgreesFully(s: DbState, m: map<OsmId, OsmObj>, objs: seq<OsmObj>)
    decreases |objs|
  {
    s.Contents() == m && VisitsOnce(s)
    && (objs == [] || AgreesFully(s.Insert(objs[0].Id(), objs[0]), m[objs[0].Id() := objs[0]], objs[1..]))
  }

  lemma InsertStaysDisjoint(s: DbState, obj: OsmObj)
    requires s.Keyed() && s.buffer.Keys !! s.table.Keys
    ensures s.Insert(obj.Id(), obj).Keyed()
    ensures var s' := s.Insert(obj.Id(), obj); s'.buffer.Keys !! s'.table.Keys <==> HasNotLeft(s, obj.Id())
  {
    var s' := s.Insert(obj.Id(), obj);
    assert obj.Id() in s'.buffer;
    if |s.buffer| >= s.size {
      MergeCommutes(s.buffer, s.table);
      assert s'.table == s.buffer + s.table && s'.buffer == map[obj.Id() := obj];
    } else {
      assert s'.table == s.table && s'.buffer == s.buffer[obj.Id() := obj];
    }
  }

  /**
   * The stores agree all along, on lookups and on visits, exactly when no id is inserted again once
   * its object has left the buffer.
   */
  lemma {:induction false} StoresAgreeExactly(s: DbState, objs: seq<OsmObj>)
    requires s.Keyed() && s.buffer.Keys !! s.table.Keys
    ensures AgreesFully(s, s.Contents(), objs) <==> NeverReturns(s, objs)
    decreases |objs|
  {
    VisitsOnceExactly(s);
    if objs != [] {
      var s' := s.Insert(objs[0].Id(), objs[0]);
      InsertStaysDisjoint(s, objs[0]);
      VisitsOnceExactly(s');
      if HasNotLeft(s, objs[0].Id()) {
        InsertAgreesExactly(s, objs[0].Id(), objs[0]);
        StoresAgreeExactly(s', objs[1..]);
      }
    }
  }

  /** Ids inserted at most once never return. */
  lemma {:induction false} DistinctIdsNeverReturn(s: DbState, objs: seq<OsmObj>)
    requires s.Valid()
    requires forall i, j :: 0 <= i < j < |objs| ==> objs[i].Id() != objs[j].Id()
    requires forall i :: 0 <= i < |objs| ==> objs[i].Id() !in s.Contents()
    ensures NeverReturns(s, objs)
    decreases |objs|
  {
    if objs != [] {
      InsertOnce(s, objs[0]);
      DistinctIdsNeverReturn(s.Insert(objs[0].Id(), objs[0]), objs[1..]);
    }
  }

  /** While the buffer has room for all insertions, ids that are not in the table may be inserted again. */
  lemma {:induction false} RoomyBufferNeverReturns(s: DbState, objs: seq<OsmObj>)
    requires |s.buffer| + |objs| <= s.size
    requires forall i :: 0 <= i < |objs| ==> objs[i].Id() !in s.table
    ensures NeverReturns(s, objs)
    decreases |objs|
  {
    if objs != [] {
      BufferGrows(s.buffer, objs[0].Id(), objs[0]);
      RoomyBufferNeverReturns(s.Insert(objs[0].Id(), objs[0]), objs[1..]);
    }
  }

  /**
   * The same object inserted again after it left the buffer: lookups agree all along, and yet visits
   * yield the object twice.
   */
  lemma SameObjectIsVisitedTwice(a: OsmObj, b: OsmObj)
    requires a.Id() != b.Id()
    ensures AgreesThroughout(EmptyDb(1), map[], [a, b, a]) && !AgreesFully(EmptyDb(1), map[], [a, b, a])
    ensures forall visited :: DbVisits(visited, RunDb(EmptyDb(1), [a, b, a]), a.Id().KindOf()) ==>
              exists i, j :: 0 <= i < j < |visited| && visited[i] == a && visited[j] == a
  {
    var x, y := a.Id(), b.Id();
    var objs := [a, b, a];
    assert objs[1..] == [b, a] && [b, a][1..] == [a] && [a][1..] == [];
    var s1 := EmptyDb(1).Insert(x, a);
    assert s1 == DbState(map[x := a], map[], 1);
    var s2 := s1.Insert(y, b);
    assert s2 == DbState(map[y := b], map[x := a], 1);
    var s3 := s2.Insert(x, a);
    assert s3 == DbState(map[x := a], map[y := b] + map[x := a], 1);
    assert EmptyDb(1).Contents() == map[];
    LookupsAgreeExactly(EmptyDb(1), objs);
    assert NeverLoses(s3, []) && NeverLoses(s2, [a]) && NeverLoses(s1, [b, a]);
    StoresAgreeExactly(EmptyDb(1), objs);
    assert !NeverReturns(s2, [a]);
    assert !NeverReturns(s1, [b, a]);
    assert RunDb(s3, []) == s3;
    assert RunDb(s2, [a]) == s3;
    assert RunDb(s1, [b, a]) == s3;
    forall visited | DbVisits(visited, s3, x.KindOf())
      ensures exists i, j :: 0 <= i < j < |visited| && visited[i] == a && visited[j] == a
    {
      SharedIsVisitedTwice(s3, x, visited);
    }
  }
}
