/** Walking all files below a path with an explicit stack. */
module WalkFiles {
  type Path = seq<string>

  /** What a path leads to; `Unreadable` is neither a file nor a directory that can be listed. */
  datatype Entry = File(name: string) | Directory(name: string, children: seq<Entry>) | Unreadable(name: string)

  /** An entry in the directory `parent`. */
  datatype Item = Item(parent: Path, entry: Entry) {
    function At(): Path {
      parent + [entry.name]
    }
  }

  function Items(parent: Path, entries: seq<Entry>): seq<Item> {
    seq(|entries|, i requires 0 <= i < |entries| => Item(parent, entries[i]))
  }

  /** What takes the place of an item on the stack. */
  function Pushed(item: Item): seq<Item> {
    if item.entry.Directory? then Items(item.At(), item.entry.children) else []
  }

  // ---------------------------------------------------------------- the size of what is left

  function Size(e: Entry): nat {
    if e.Directory? then 1 + SizeOf(e.children) else 1
  }

  function SizeOf(entries: seq<Entry>): nat {
    if entries == [] then 0 else Size(entries[0]) + SizeOf(entries[1..])
  }

  function StackSize(items: seq<Item>): nat {
    if items == [] then 0 else Size(items[0].entry) + StackSize(items[1..])
  }

  lemma {:induction false} StackSizeAppend(xs: seq<Item>, ys: seq<Item>)
    ensures StackSize(xs + ys) == StackSize(xs) + StackSize(ys)
  {
    if xs == [] {
      assert xs + ys == ys;
    } else {
      assert (xs + ys)[1..] == xs[1..] + ys;
      StackSizeAppend(xs[1..], ys);
    }
  }

  lemma {:induction false} ItemsSize(parent: Path, entries: seq<Entry>)
    ensures StackSize(Items(parent, entries)) == SizeOf(entries)
  {
    if entries != [] {
      assert Items(parent, entries)[1..] == Items(parent, entries[1..]);
      ItemsSize(parent, entries[1..]);
    }
  }

  /** Popping an item, and pushing the entries of a directory, makes the stack smaller. */
  lemma PopShrinks(rest: seq<Item>, top: Item)
    ensures StackSize(rest + Pushed(top)) < StackSize(rest + [top])
  {
    StackSizeAppend(rest, [top]);
    assert StackSize([top]) == Size(top.entry) + StackSize([]);
    StackSizeAppend(rest, Pushed(top));
    if top.entry.Directory? {
      ItemsSize(top.At(), top.entry.children);
    }
  }

  // ---------------------------------------------------------------- what the walk yields

  /** All files below an entry, in directory order. */
  function FilesBelow(parent: Path, e: Entry): seq<Path>
    decreases e
  {
    match e
    case File(name) => [parent + [name]]
    case Directory(name, children) => FilesBelowAll(parent + [name], children)
    case Unreadable(_) => []
  }

  function FilesBelowAll(parent: Path, entries: seq<Entry>): seq<Path>
    decreases entries
  {
    if entries == [] then [] else FilesBelow(parent, entries[0]) + FilesBelowAll(parent, entries[1..])
  }

  function FilesBelowStack(items: seq<Item>): seq<Path> {
    if items == [] then [] else FilesBelow(items[0].parent, items[0].entry) + FilesBelowStack(items[1..])
  }

  predicate Readable(e: Entry) {
    !e.Unreadable? && (e.Directory? ==> forall c :: c in e.children ==> Readable(c))
  }

  ghost predicate AllReadable(items: seq<Item>) {
    forall item :: item in items ==> Readable(item.entry)
  }

  lemma {:induction false} FilesBelowAppend(xs: seq<Item>, ys: seq<Item>)
    ensures FilesBelowStack(xs + ys) == FilesBelowStack(xs) + FilesBelowStack(ys)
  {
    if xs == [] {
      assert xs + ys == ys;
    } else {
      assert (xs + ys)[1..] == xs[1..] + ys;
      FilesBelowAppend(xs[1..], ys);
    }
  }

  lemma {:induction false} FilesBelowItems(parent: Path, entries: seq<Entry>)
    ensures FilesBelowStack(Items(parent, entries)) == FilesBelowAll(parent, entries)
  {
    if entries != [] {
      assert Items(parent, entries)[1..] == Items(parent, entries[1..]);
      FilesBelowItems(parent, entries[1..]);
    }
  }

  /** Popping an item conserves the files: those of the stack are what is yielded and what stays below. */
  lemma PopConserves(rest: seq<Item>, top: Item)
    ensures multiset(FilesBelowStack(rest + [top]))
         == multiset(FilesBelowStack(rest + Pushed(top))) + if top.entry.File? then multiset{top.At()} else multiset{}
  {
    FilesBelowAppend(rest, [top]);
    assert FilesBelowStack([top]) == FilesBelow(top.parent, top.entry) + FilesBelowStack([]);
    FilesBelowAppend(rest, Pushed(top));
    if top.entry.Directory? {
      FilesBelowItems(top.At(), top.entry.children);
    }
  }

  lemma PopReadable(rest: seq<Item>, top: Item)
    ensures AllReadable(rest + [top]) <==> !top.entry.Unreadable? && AllReadable(rest + Pushed(top))
  {
    assert forall item :: item in rest + [top] <==> item in rest || item == top;
    assert forall item :: item in rest + Pushed(top) <==> item in rest || item in Pushed(top);
    if top.entry.Directory? {
      PushedReadable(top);
    }
  }

  lemma PushedReadable(top: Item)
    requires top.entry.Directory?
    ensures AllReadable(Pushed(top)) <==> Readable(top.entry)
  {
    var children := top.entry.children;
    forall c | c in children ensures Item(top.At(), c) in Pushed(top) {
      var i :| 0 <= i < |children| && children[i] == c;
      assert Pushed(top)[i] == Item(top.At(), c);
    }
    forall item | item in Pushed(top) ensures item.entry in children {
    }
    if AllReadable(Pushed(top)) {
      forall c | c in children ensures Readable(c) {
        assert Item(top.At(), c) in Pushed(top);
      }
    }
  }

  /** The files yielded and those below the stack. */
  function Pending(files: seq<Path>, heap: seq<Item>): multiset<Path> {
    multiset(files) + multiset(FilesBelowStack(heap))
  }

  lemma StepConserves(files: seq<Path>, rest: seq<Item>, top: Item)
    ensures Pending(files + if top.entry.File? then [top.At()] else [], rest + Pushed(top)) == Pending(files, rest + [top])
  {
    PopConserves(rest, top);
    if !top.entry.File? {
      assert files + [] == files;
    }
  }

  /**
   * Yields the files below an entry, popping the stack and pushing the entries of each directory.
   * Everything readable is yielded once; an entry that cannot be listed ends the walk with an error.
   */
  method WalkFilesRecursive(parent: Path, e: Entry) returns (files: seq<Path>, ok: bool)
    ensures multiset(files) <= multiset(FilesBelow(parent, e))
    ensures ok ==> multiset(files) == multiset(FilesBelow(parent, e))
    ensures ok <==> Readable(e)
  {
    files := [];
    var heap := [Item(parent, e)];
    StartOfWalk(parent, e);
    while heap != []
      invariant Pending(files, heap) == multiset(FilesBelow(parent, e))
      invariant AllReadable(heap) <==> Readable(e)
      decreases StackSize(heap)
    {
      var top := heap[|heap| - 1];
      assert heap == heap[..|heap| - 1] + [top];
      heap := heap[..|heap| - 1];
      StepConserves(files, heap, top);
      PopShrinks(heap, top);
      PopReadable(heap, top);
      if top.entry.File? {
        assert heap + Pushed(top) == heap;
        files := files + [top.At()];
      } else if top.entry.Directory? {
        assert files + [] == files;
        heap := heap + Pushed(top);
      } else {
        return files, false;
      }
    }
    EndOfWalk(files);
    ok := true;
  }

  lemma StartOfWalk(parent: Path, e: Entry)
    ensures Pending([], [Item(parent, e)]) == multiset(FilesBelow(parent, e))
    ensures AllReadable([Item(parent, e)]) <==> Readable(e)
  {
    assert FilesBelowStack([Item(parent, e)]) == FilesBelow(parent, e) + FilesBelowStack([]);
    assert AllReadable([Item(parent, e)]) ==> Readable([Item(parent, e)][0].entry);
  }

  lemma EndOfWalk(files: seq<Path>)
    ensures Pending(files, []) == multiset(files)
    ensures AllReadable([])
  {
  }

  // ---------------------------------------------------------------- distinct paths

  /** No directory lists a name twice. */
  predicate DistinctNames(e: Entry) {
    e.Directory? ==>
      && (forall i, j :: 0 <= i < j < |e.children| ==> e.children[i].name != e.children[j].name)
      && (forall c :: c in e.children ==> DistinctNames(c))
  }

  lemma {:induction false} BelowExtends(parent: Path, e: Entry, p: Path)
    requires p in FilesBelow(parent, e)
    ensures |parent| < |p| && p[|parent|] == e.name
    decreases e
  {
    if e.Directory? {
      BelowAllExtends(parent + [e.name], e.children, p);
    }
  }

  lemma {:induction false} BelowAllExtends(parent: Path, entries: seq<Entry>, p: Path)
    requires p in FilesBelowAll(parent, entries)
    ensures parent <= p
    ensures |parent| < |p| && exists i :: 0 <= i < |entries| && p[|parent|] == entries[i].name
    decreases entries
  {
    if p in FilesBelow(parent, entries[0]) {
      BelowExtends(parent, entries[0], p);
      BelowStartsWith(parent, entries[0], p);
    } else {
      BelowAllExtends(parent, entries[1..], p);
      var i :| 0 <= i < |entries[1..]| && p[|parent|] == entries[1..][i].name;
      assert entries[i + 1].name == p[|parent|];
    }
  }

  lemma {:induction false} BelowStartsWith(parent: Path, e: Entry, p: Path)
    requires p in FilesBelow(parent, e)
    ensures parent <= p
    decreases e
  {
    if e.Directory? {
      BelowAllExtends(parent + [e.name], e.children, p);
      assert parent <= parent + [e.name];
    }
  }

  /** Where directories list distinct names, no path is yielded twice. */
  lemma {:induction false} FilesAreDistinct(parent: Path, e: Entry, p: Path)
    requires DistinctNames(e)
    ensures multiset(FilesBelow(parent, e))[p] <= 1
    decreases e
  {
    if e.Directory? {
      ChildrenAreDistinct(parent + [e.name], e.children, p);
    }
  }

  lemma {:induction false} ChildrenAreDistinct(parent: Path, entries: seq<Entry>, p: Path)
    requires forall i, j :: 0 <= i < j < |entries| ==> entries[i].name != entries[j].name
    requires forall c :: c in entries ==> DistinctNames(c)
    ensures multiset(FilesBelowAll(parent, entries))[p] <= 1
    decreases entries
  {
    if entries != [] {
      FilesAreDistinct(parent, entries[0], p);
      ChildrenAreDistinct(parent, entries[1..], p);
      if p in FilesBelow(parent, entries[0]) {
        BelowExtends(parent, entries[0], p);
      }
      if p in FilesBelowAll(parent, entries[1..]) {
        BelowAllExtends(parent, entries[1..], p);
      }
    }
  }

  // ---------------------------------------------------------------- which paths

  /** The names lead from the entry down to a file. */
  ghost predicate LeadsToFile(e: Entry, names: Path)
    decreases |names|
  {
    && names != [] && names[0] == e.name
    && if |names| == 1 then e.File? else e.Directory? && exists c :: c in e.children && LeadsToFile(c, names[1..])
  }

  lemma {:induction false} YieldedPathLeads(parent: Path, e: Entry, p: Path)
    requires p in FilesBelow(parent, e)
    ensures parent < p && LeadsToFile(e, p[|parent|..])
    decreases e
  {
    BelowStartsWith(parent, e, p);
    BelowExtends(parent, e, p);
    var names := p[|parent|..];
    if e.Directory? {
      var here := parent + [e.name];
      var c := YieldedByChild(here, e.children, p);
      YieldedPathLeads(here, c, p);
      assert p[|here|..] == names[1..];
    } else {
      assert names == [e.name];
    }
  }

  lemma {:induction false} YieldedByChild(parent: Path, entries: seq<Entry>, p: Path) returns (c: Entry)
    requires p in FilesBelowAll(parent, entries)
    ensures c in entries && p in FilesBelow(parent, c)
    decreases entries
  {
    if p in FilesBelow(parent, entries[0]) {
      c := entries[0];
    } else {
      c := YieldedByChild(parent, entries[1..], p);
    }
  }

  lemma {:induction false} ChildYields(parent: Path, entries: seq<Entry>, c: Entry, p: Path)
    requires c in entries && p in FilesBelow(parent, c)
    ensures p in FilesBelowAll(parent, entries)
    decreases entries
  {
    if c != entries[0] {
      ChildYields(parent, entries[1..], c, p);
    }
  }

  lemma {:induction false} LeadingPathIsYielded(parent: Path, e: Entry, names: Path)
    requires LeadsToFile(e, names)
    ensures parent + names in FilesBelow(parent, e)
    decreases |names|
  {
    if |names| == 1 {
      assert names == [e.name];
    } else {
      var c :| c in e.children && LeadsToFile(c, names[1..]);
      var here := parent + [e.name];
      LeadingPathIsYielded(here, c, names[1..]);
      assert here + names[1..] == parent + names;
      ChildYields(here, e.children, c, parent + names);
    }
  }

  /** The paths below an entry are exactly those whose names lead down to a file. */
  lemma FilesBelowExactly(parent: Path, e: Entry, p: Path)
    ensures p in FilesBelow(parent, e) <==> parent < p && LeadsToFile(e, p[|parent|..])
  {
    if p in FilesBelow(parent, e) {
      YieldedPathLeads(parent, e, p);
    }
    if parent < p && LeadsToFile(e, p[|parent|..]) {
      LeadingPathIsYielded(parent, e, p[|parent|..]);
      assert parent + p[|parent|..] == p;
    }
  }
}
