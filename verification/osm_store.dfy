/**
 * The object store of the OpenStreetMap reader: a map in memory, or a bounded write buffer in front
 * of a table that ignores rows it already has.
 */
module OsmStore {
  import opened Wrappers
  import opened SpatialIndex

  datatype Kind = NodeKind | WayKind | RelationKind

  datatype OsmId = NodeId(id: int) | WayId(id: int) | RelationId(id: int) {
    function KindOf(): Kind {
      if NodeId? then NodeKind else if WayId? then WayKind else RelationKind
    }
  }

  datatype Ref = Ref(member: OsmId, role: string)

  datatype OsmObj =
    | Node(id: int, at: Point)
    | Way(id: int, tags: map<string, string>, nodes: seq<int>)
    | Relation(id: int, tags: map<string, string>, refs: seq<Ref>)
  {
    function Id(): OsmId {
      if Node? then NodeId(id) else if Way? then WayId(id) else RelationId(id)
    }
  }

  /** What a sequence of visits must be: each stored object of the kind once, under some order. */
  ghost predicate Enumerates(visited: seq<OsmObj>, objs: map<OsmId, OsmObj>, kind: Kind) {
    && (forall i, j :: 0 <= i < j < |visited| ==> visited[i].Id() != visited[j].Id())
    && (forall o :: o in visited <==> o.Id() in objs && objs[o.Id()] == o && o.Id().KindOf() == kind)
  }

  /** Every object is stored under its own id. */
  ghost predicate WellKeyed(objs: map<OsmId, OsmObj>) {
    forall id :: id in objs ==> objs[id].Id() == id
  }

  // ---------------------------------------------------------------- the buffered table, as a value

  /** The rows have a unique (id, kind), which is an object id. */
  datatype DbState = DbState(buffer: map<OsmId, OsmObj>, table: map<OsmId, OsmObj>, size: nat) {
    /** Moves the buffer into the table; rows that are there already win. */
    function Flush(): DbState {
      DbState(map[], buffer + table, size)
    }

    function Insert(id: OsmId, obj: OsmObj): DbState {
      var s := if |buffer| >= size then Flush() else this;
      s.(buffer := s.buffer[id := obj])
    }

    function Get(id: OsmId): Option<OsmObj> {
      if id in buffer then Some(buffer[id]) else if id in table then Some(table[id]) else None
    }

    /** What `Get` sees. */
    function Contents(): map<OsmId, OsmObj> {
      table + buffer
    }

    ghost predicate Keyed() {
      WellKeyed(buffer) && WellKeyed(table)
    }

    ghost predicate Valid() {
      Keyed() && buffer.Keys !! table.Keys && |buffer| <= if size == 0 then 1 else size
    }
  }

  function EmptyDb(size: nat): DbState {
    DbState(map[], map[], size)
  }

  function RunDb(s: DbState, objs: seq<OsmObj>): DbState
    decreases |objs|
  {
    if objs == [] then s else RunDb(s.Insert(objs[0].Id(), objs[0]), objs[1..])
  }

  function RunMap(m: map<OsmId, OsmObj>, objs: seq<OsmObj>): map<OsmId, OsmObj>
    decreases |objs|
  {
    if objs == [] then m else RunMap(m[objs[0].Id() := objs[0]], objs[1..])
  }

  lemma MergeCommutes(a: map<OsmId, OsmObj>, b: map<OsmId, OsmObj>)
    requires a.Keys !! b.Keys
    ensures a + b == b + a
    ensures WellKeyed(a) && WellKeyed(b) ==> WellKeyed(a + b)
  {
  }

  lemma FlushKeeps(s: DbState)
    requires s.Valid()
    ensures s.Flush().Valid() && s.Flush().Contents() == s.Contents() && s.Flush().buffer == map[]
  {
    MergeCommutes(s.buffer, s.table);
    assert s.Flush().Contents() == s.Flush().table;
  }

  lemma BufferGrows(buffer: map<OsmId, OsmObj>, id: OsmId, obj: OsmObj)
    ensures |buffer[id := obj]| <= |buffer| + 1
  {
    var buffer' := buffer[id := obj];
    assert buffer'.Keys == buffer.Keys + {id};
    assert |buffer'.Keys| == |buffer'| && |buffer.Keys| == |buffer|;
  }

  lemma BufferOne(s: DbState, obj: OsmObj)
    requires s.Valid() && obj.Id() !in s.Contents() && (s.buffer == map[] || |s.buffer| < s.size)
    ensures DbState(s.buffer[obj.Id() := obj], s.table, s.size).Valid()
  {
    BufferGrows(s.buffer, obj.Id(), obj);
  }

  lemma MergeUpdate(a: map<OsmId, OsmObj>, b: map<OsmId, OsmObj>, id: OsmId, obj: OsmObj)
    ensures a + b[id := obj] == (a + b)[id := obj]
  {
  }

  /** Inserting a new id keeps the buffer bounded and adds exactly that object to what is seen. */
  lemma InsertOnce(s: DbState, obj: OsmObj)
    requires s.Valid() && obj.Id() !in s.Contents()
    ensures s.Insert(obj.Id(), obj).Valid()
    ensures s.Insert(obj.Id(), obj).Contents() == s.Contents()[obj.Id() := obj]
  {
    if |s.buffer| >= s.size {
      FlushKeeps(s);
      BufferOne(s.Flush(), obj);
      MergeUpdate(s.Flush().table, map[], obj.Id(), obj);
    } else {
      BufferOne(s, obj);
      MergeUpdate(s.table, s.buffer, obj.Id(), obj);
    }
  }

  /** When every id is inserted at most once, the buffered table agrees with the map, whatever the buffer size. */
  lemma {:induction false} DbAgreesWithMap(s: DbState, objs: seq<OsmObj>)
    requires s.Valid()
    requires forall i, j :: 0 <= i < j < |objs| ==> objs[i].Id() != objs[j].Id()
    requires forall i :: 0 <= i < |objs| ==> objs[i].Id() !in s.Contents()
    ensures RunDb(s, objs).Valid()
    ensures RunDb(s, objs).Contents() == RunMap(s.Contents(), objs)
    ensures RunDb(s, objs).size == s.size
    decreases |objs|
  {
    if objs != [] {
      InsertOnce(s, objs[0]);
      DbAgreesWithMap(s.Insert(objs[0].Id(), objs[0]), objs[1..]);
    }
  }

  /** `get` and `contains_key` of the two stores after the same insertions. */
  lemma LookupsAgree(size: nat, objs: seq<OsmObj>, id: OsmId)
    requires forall i, j :: 0 <= i < j < |objs| ==> objs[i].Id() != objs[j].Id()
    ensures var db := RunDb(EmptyDb(size), objs);
            var m := RunMap(map[], objs);
            && db.Get(id) == (if id in m then Some(m[id]) else None)
            && |db.buffer| <= if size == 0 then 1 else size
  {
    DbAgreesWithMap(EmptyDb(size), objs);
    assert EmptyDb(size).Contents() == map[];
  }

  // ---------------------------------------------------------------- visiting

  /** What the buffered table visits: the buffered objects of the kind, then the rows of the kind. */
  ghost predicate DbVisits(visited: seq<OsmObj>, s: DbState, kind: Kind) {
    exists buffered, stored ::
      Enumerates(buffered, s.buffer, kind) && Enumerates(stored, s.table, kind) && visited == buffered + stored
  }

  lemma DisjointIsVisitedOnce(s: DbState, kind: Kind, visited: seq<OsmObj>)
    requires s.Keyed() && s.buffer.Keys !! s.table.Keys && DbVisits(visited, s, kind)
    ensures Enumerates(visited, s.Contents(), kind)
  {
    var buffered, stored :|
      Enumerates(buffered, s.buffer, kind) && Enumerates(stored, s.table, kind) && visited == buffered + stored;
    forall i, j | 0 <= i < j < |visited| ensures visited[i].Id() != visited[j].Id() {
      if i < |buffered| <= j {
        assert buffered[i] in buffered && stored[j - |buffered|] in stored;
      }
    }
  }

  // ---------------------------------------------------------------- the stores

  function Find(objs: map<OsmId, OsmObj>, id: OsmId): Option<OsmObj> {
    if id in objs then Some(objs[id]) else None
  }

  class MapStore {
    var objs: map<OsmId, OsmObj>

    constructor ()
      ensures objs == map[]
    {
      objs := map[];
    }

    method Insert(id: OsmId, obj: OsmObj)
      modifies this
      ensures objs == old(objs)[id := obj]
    {
      objs := objs[id := obj];
    }

    method Get(id: OsmId) returns (obj: Option<OsmObj>)
      ensures obj == Find(objs, id)
    {
      if id in objs {
        return Some(objs[id]);
      }
      return None;
    }

    method ForEachFilter(kind: Kind) returns (visited: seq<OsmObj>)
      requires WellKeyed(objs)
      ensures Enumerates(visited, objs, kind)
    {
      visited := VisitAll(objs, kind);
    }
  }

  /** Visits the stored objects of a kind in some order. */
  method VisitAll(objs: map<OsmId, OsmObj>, kind: Kind) returns (visited: seq<OsmObj>)
    requires WellKeyed(objs)
    ensures Enumerates(visited, objs, kind)
  {
    visited := [];
    var left := objs.Keys;
    while left != {}
      invariant left <= objs.Keys
      invariant forall i, j :: 0 <= i < j < |visited| ==> visited[i].Id() != visited[j].Id()
      invariant forall o :: o in visited <==> o.Id() in objs.Keys - left && objs[o.Id()] == o && o.Id().KindOf() == kind
    {
      var id :| id in left;
      assert objs[id] !in visited;
      left := left - {id};
      if id.KindOf() == kind {
        visited := visited + [objs[id]];
      }
    }
  }

  class Db {
    var buffer: map<OsmId, OsmObj>
    var table: map<OsmId, OsmObj>
    const size: nat

    constructor (size: nat)
      ensures State() == EmptyDb(size)
    {
      this.size := size;
      this.buffer, this.table := map[], map[];
    }

    function State(): DbState
      reads this
    {
      DbState(buffer, table, size)
    }

    /** Writes the buffered objects to the table one by one; a row whose key is taken is ignored. */
    method FlushBuffer()
      modifies this
      ensures State() == old(State()).Flush()
    {
      if buffer == map[] {
        assert buffer + table == table;
        return;
      }
      var drained := buffer;
      var left := buffer.Keys;
      buffer := map[];
      while left != {}
        invariant left <= drained.Keys
        invariant buffer == map[]
        invariant table == (map id | id in drained && id !in left :: drained[id]) + old(table)
      {
        var id :| id in left;
        left := left - {id};
        if id !in table {
          table := table[id := drained[id]];
        }
      }
      assert (map id | id in drained && id !in left :: drained[id]) == drained;
    }

    method Insert(id: OsmId, obj: OsmObj)
      modifies this
      ensures State() == old(State()).Insert(id, obj)
    {
      if |buffer| >= size {
        FlushBuffer();
      }
      buffer := buffer[id := obj];
    }

    method GetFromId(id: OsmId) returns (obj: Option<OsmObj>)
      ensures obj == State().Get(id)
    {
      if id in buffer {
        return Some(buffer[id]);
      }
      if id in table {
        return Some(table[id]);
      }
      return None;
    }

    method ContainsKey(id: OsmId) returns (found: bool)
      ensures found <==> State().Get(id).Some?
    {
      if id in buffer {
        return true;
      }
      return id in table;
    }

    /** Visits the buffer, then the table. */
    method ForEachFilter(kind: Kind) returns (visited: seq<OsmObj>)
      requires State().Keyed()
      ensures DbVisits(visited, State(), kind)
    {
      var buffered := VisitAll(buffer, kind);
      var stored := VisitAll(table, kind);
      visited := buffered + stored;
    }
  }

  /** The store the reader is given. */
  datatype ObjWrapper = MapWrapper(m: MapStore) | DbWrapper(db: Db) {
    ghost function Contents(): map<OsmId, OsmObj>
      reads if MapWrapper? then {m as object} else {db}
    {
      if MapWrapper? then m.objs else db.State().Contents()
    }

    ghost predicate Keyed()
      reads if MapWrapper? then {m as object} else {db}
    {
      if MapWrapper? then WellKeyed(m.objs) else db.State().Keyed()
    }

    ghost predicate Valid()
      reads if MapWrapper? then {m as object} else {db}
    {
      if MapWrapper? then WellKeyed(m.objs) else db.State().Valid()
    }

    /** Either store finds what its contents hold. */
    method Get(id: OsmId) returns (obj: Option<OsmObj>)
      ensures obj == Find(Contents(), id)
    {
      if MapWrapper? {
        obj := m.Get(id);
      } else {
        obj := db.GetFromId(id);
      }
    }

    /** The objects of the kind, each once where the store is valid. */
    method ForEachFilter(kind: Kind) returns (visited: seq<OsmObj>)
      requires Keyed()
      ensures if MapWrapper? then Enumerates(visited, m.objs, kind) else DbVisits(visited, db.State(), kind)
      ensures Valid() ==> Enumerates(visited, Contents(), kind)
    {
      if MapWrapper? {
        visited := m.ForEachFilter(kind);
      } else {
        visited := db.ForEachFilter(kind);
        if db.State().buffer.Keys !! db.State().table.Keys {
          DisjointIsVisitedOnce(db.State(), kind, visited);
        }
      }
    }
  }
}
