/** The library cache of the dependency resolver (src/autoformatelf.rs): a frontier
    search over an abstract file system, independent of the worker count. */
module Populate {
  import opened Ir
  import Pool

  type Path = string

  datatype Arch = Arch(machine: nat, elf64: bool)

  datatype Key = Key(name: string, arch: Arch)

  /** A parsed shared object; `rpaths` are the directories to follow next. */
  datatype Lib = Lib(key: Key, osabi: nat, dir: Path, rpaths: seq<Path>)

  /** A directory and the OS ABI of the library found there. */
  datatype Provider = Provider(dir: Path, osabi: nat)

  datatype Node = File | Dir(entries: seq<Path>) | Missing

  /** The file system: what each path is, which names are shared objects', what
      parsing a file gives, and the real path of a directory. */
  datatype World = World(fs: map<Path, Node>, shared: Path -> bool, parse: Path -> Option<Lib>, canon: Path -> Path)

  /** A path to expand and whether to descend into its sub-directories. */
  datatype Item = Item(path: Path, recursive: bool)

  datatype Found = Found(lib: Lib, recursive: bool)

  function NodeAt(w: World, p: Path): Node
  {
    if p in w.fs then w.fs[p] else Missing
  }

  // ---- One round ----

  /** Files to parse and sub-directories to descend into, for an item's first visit. */
  datatype Work = Work(files: seq<Item>, dirs: seq<Item>)

  function EntriesWork(w: World, entries: seq<Path>, recursive: bool): Work
  {
    if entries == [] then Work([], [])
    else
      var n := |entries| - 1;
      var before, child := EntriesWork(w, entries[..n], recursive), entries[n];
      if NodeAt(w, child).Dir? then
        if recursive then before.(dirs := before.dirs + [Item(child, recursive)]) else before
      else if w.shared(child) then before.(files := before.files + [Item(child, recursive)])
      else before
  }

  function ItemWork(w: World, item: Item): Work
  {
    match NodeAt(w, item.path)
    case File => Work([item], [])
    case Dir(entries) => EntriesWork(w, entries, item.recursive)
    case Missing => Work([], [])
  }

  /** A round's progress through the frontier. */
  datatype Batch = Batch(visited: set<Path>, work: Work, expanded: seq<Item>)

  function Visit(w: World, b: Batch, item: Item): Batch
  {
    if item.path in b.visited then b
    else
      var more := ItemWork(w, item);
      Batch(b.visited + {item.path}, Work(b.work.files + more.files, b.work.dirs + more.dirs), b.expanded + [item])
  }

  function Expand(w: World, visited: set<Path>, frontier: seq<Item>): Batch
  {
    if frontier == [] then Batch(visited, Work([], []), [])
    else Visit(w, Expand(w, visited, frontier[..|frontier| - 1]), frontier[|frontier| - 1])
  }

  function Parse(w: World): Item -> Option<Found>
  {
    (item: Item) => match w.parse(item.path) case None => None case Some(lib) => Some(Found(lib, item.recursive))
  }

  function Items(paths: seq<Path>, recursive: bool): (r: seq<Item>)
    ensures |r| == |paths| && forall k :: 0 <= k < |r| ==> r[k] == Item(paths[k], recursive)
  {
    seq(|paths|, k requires 0 <= k < |paths| => Item(paths[k], recursive))
  }

  function Libs(found: seq<Found>): (r: seq<Lib>)
    ensures |r| == |found|
  {
    seq(|found|, k requires 0 <= k < |found| => found[k].lib)
  }

  /** The search-path directories the found libraries name. */
  function RpathItems(found: seq<Found>): seq<Item>
  {
    if found == [] then []
    else
      var n := |found| - 1;
      RpathItems(found[..n]) + Items(found[n].lib.rpaths, found[n].recursive)
  }

  // ---- What a directory gives ----

  /** How many of the paths `f` holds of. */
  ghost function Count(f: Path -> bool, paths: seq<Path>): (r: nat)
  {
    if paths == [] then 0
    else Count(f, paths[..|paths| - 1]) + if f(paths[|paths| - 1]) then 1 else 0
  }

  /** `items` are the paths `f` holds of, each as often as it occurs, in order. */
  ghost predicate Picks(f: Path -> bool, paths: seq<Path>, recursive: bool, items: seq<Item>)
  {
    && |items| == Count(f, paths)
    && forall i :: 0 <= i < |paths| && f(paths[i]) ==> PickedAt(items, Count(f, paths[..i]), Item(paths[i], recursive))
  }

  ghost predicate PickedAt(items: seq<Item>, k: nat, item: Item)
  {
    k < |items| && items[k] == item
  }

  /** The entries parsed: shared objects that are no directory. */
  function IsShared(w: World): Path -> bool
  {
    p => !NodeAt(w, p).Dir? && w.shared(p)
  }

  /** The entries descended into. */
  function IsFollowed(w: World, recursive: bool): Path -> bool
  {
    p => NodeAt(w, p).Dir? && recursive
  }

  lemma PicksOne(f: Path -> bool, paths: seq<Path>, p: Path, recursive: bool, items: seq<Item>)
    requires Picks(f, paths, recursive, items)
    ensures Picks(f, paths + [p], recursive, if f(p) then items + [Item(p, recursive)] else items)
  {
    var all, items' := paths + [p], if f(p) then items + [Item(p, recursive)] else items;
    assert all[..|paths|] == paths;
    forall i | 0 <= i < |all| && f(all[i])
      ensures PickedAt(items', Count(f, all[..i]), Item(all[i], recursive))
    {
      if i < |paths| {
        assert all[..i] == paths[..i];
        assert PickedAt(items, Count(f, paths[..i]), Item(paths[i], recursive));
      }
    }
  }

  /** A directory's files are its shared objects that are no directory, in the order
      of its entries; its directories are followed in that order if it is recursive. */
  lemma {:induction false} EntriesPicked(w: World, entries: seq<Path>, recursive: bool)
    ensures var work := EntriesWork(w, entries, recursive);
            && Picks(IsShared(w), entries, recursive, work.files)
            && Picks(IsFollowed(w, recursive), entries, recursive, work.dirs)
  {
    if entries != [] {
      var n := |entries| - 1;
      var work := EntriesWork(w, entries[..n], recursive);
      EntriesPicked(w, entries[..n], recursive);
      assert entries == entries[..n] + [entries[n]];
      PicksOne(IsShared(w), entries[..n], entries[n], recursive, work.files);
      PicksOne(IsFollowed(w, recursive), entries[..n], entries[n], recursive, work.dirs);
    }
  }

  /** The picked items are those of the paths `f` holds of. */
  lemma PicksExactly(f: Path -> bool, paths: seq<Path>, recursive: bool, items: seq<Item>, item: Item)
    requires Picks(f, paths, recursive, items)
    ensures item in items <==> item.recursive == recursive && item.path in paths && f(item.path)
  {
    if item.recursive == recursive && item.path in paths && f(item.path) {
      var i :| 0 <= i < |paths| && paths[i] == item.path;
      assert PickedAt(items, Count(f, paths[..i]), Item(paths[i], recursive));
    }
    if item in items {
      var k :| 0 <= k < |items| && items[k] == item;
      var i := Picked(f, paths, k);
      assert PickedAt(items, Count(f, paths[..i]), Item(paths[i], recursive));
    }
  }

  lemma {:induction false} Picked(f: Path -> bool, paths: seq<Path>, k: nat) returns (i: nat)
    requires k < Count(f, paths)
    ensures i < |paths| && f(paths[i]) && Count(f, paths[..i]) == k
  {
    var n := |paths| - 1;
    if k < Count(f, paths[..n]) {
      i := Picked(f, paths[..n], k);
      assert paths[..n][..i] == paths[..i];
    } else {
      i := n;
    }
  }

  // ---- The whole search ----

  /** A finite set of paths that no step leaves. */
  ghost predicate Universe(w: World, u: set<Path>)
  {
    && (forall p :: p in u && NodeAt(w, p).Dir? ==> forall c :: c in NodeAt(w, p).entries ==> c in u)
    && forall p :: p in u && w.parse(p).Some? ==> forall d :: d in w.parse(p).value.rpaths ==> d in u
  }

  ghost predicate AllIn(items: seq<Item>, u: set<Path>)
  {
    forall k :: 0 <= k < |items| ==> items[k].path in u
  }

  /** The paths visited, the libraries in discovery order, the items expanded. */
  datatype Search = Search(visited: set<Path>, libs: seq<Lib>, expanded: seq<Item>)

  function After(w: World, s: Search, frontier: seq<Item>): Search
  {
    var b := Expand(w, s.visited, frontier);
    Search(b.visited, s.libs + Libs(Pool.FilterMap(b.work.files, Parse(w))), s.expanded + b.expanded)
  }

  function NextFrontier(w: World, s: Search, frontier: seq<Item>): seq<Item>
  {
    var b := Expand(w, s.visited, frontier);
    b.work.dirs + RpathItems(Pool.FilterMap(b.work.files, Parse(w)))
  }

  ghost function Discover(w: World, u: set<Path>, frontier: seq<Item>, s: Search): Search
    requires Universe(w, u) && AllIn(frontier, u) && s.visited <= u
    decreases |u - s.visited|, |frontier|
  {
    if frontier == [] then s
    else
      RoundStays(w, u, frontier, s);
      RoundProgress(w, u, frontier, s);
      Discover(w, u, NextFrontier(w, s, frontier), After(w, s, frontier))
  }

  lemma {:induction false} EntriesStay(w: World, u: set<Path>, entries: seq<Path>, recursive: bool)
    requires forall c :: c in entries ==> c in u
    ensures AllIn(EntriesWork(w, entries, recursive).files, u) && AllIn(EntriesWork(w, entries, recursive).dirs, u)
  {
    if entries != [] {
      var n := |entries| - 1;
      assert entries[n] in entries;
      EntriesStay(w, u, entries[..n], recursive);
    }
  }

  lemma {:induction false} ExpandStays(w: World, u: set<Path>, visited: set<Path>, frontier: seq<Item>)
    requires Universe(w, u) && AllIn(frontier, u) && visited <= u
    ensures var b := Expand(w, visited, frontier);
            && visited <= b.visited <= u && AllIn(b.work.files, u) && AllIn(b.work.dirs, u)
            && forall k :: 0 <= k < |frontier| ==> frontier[k].path in b.visited
  {
    if frontier != [] {
      var n := |frontier| - 1;
      ExpandStays(w, u, visited, frontier[..n]);
      if NodeAt(w, frontier[n].path).Dir? {
        EntriesStay(w, u, NodeAt(w, frontier[n].path).entries, frontier[n].recursive);
      }
    }
  }

  lemma {:induction false} FoundIn(w: World, files: seq<Item>, k: nat) returns (i: nat)
    requires k < |Pool.FilterMap(files, Parse(w))|
    ensures i < |files| && Parse(w)(files[i]) == Some(Pool.FilterMap(files, Parse(w))[k])
  {
    var n := |files| - 1;
    var before := Pool.FilterMap(files[..n], Parse(w));
    if k < |before| {
      i := FoundIn(w, files[..n], k);
    } else {
      i := n;
    }
  }

  lemma {:induction false} RpathsStay(u: set<Path>, found: seq<Found>)
    requires forall k, d :: 0 <= k < |found| && d in found[k].lib.rpaths ==> d in u
    ensures AllIn(RpathItems(found), u)
  {
    if found != [] {
      RpathsStay(u, found[..|found| - 1]);
    }
  }

  lemma RoundStays(w: World, u: set<Path>, frontier: seq<Item>, s: Search)
    requires Universe(w, u) && AllIn(frontier, u) && s.visited <= u
    ensures s.visited <= After(w, s, frontier).visited <= u && AllIn(NextFrontier(w, s, frontier), u)
  {
    ExpandStays(w, u, s.visited, frontier);
    var b := Expand(w, s.visited, frontier);
    var found := Pool.FilterMap(b.work.files, Parse(w));
    forall k, d | 0 <= k < |found| && d in found[k].lib.rpaths ensures d in u {
      var i := FoundIn(w, b.work.files, k);
    }
    RpathsStay(u, found);
  }

  /** With nothing new to visit, a round leaves nothing to do. */
  lemma {:induction false} NothingNew(w: World, visited: set<Path>, frontier: seq<Item>)
    requires Expand(w, visited, frontier).visited == visited
    ensures Expand(w, visited, frontier) == Batch(visited, Work([], []), [])
  {
    if frontier != [] {
      var n := |frontier| - 1;
      var before := Expand(w, visited, frontier[..n]);
      VisitedGrows(w, visited, frontier[..n]);
      NothingNew(w, visited, frontier[..n]);
    }
  }

  lemma {:induction false} VisitedGrows(w: World, visited: set<Path>, frontier: seq<Item>)
    ensures visited <= Expand(w, visited, frontier).visited
  {
    if frontier != [] {
      VisitedGrows(w, visited, frontier[..|frontier| - 1]);
    }
  }

  /** Every round visits a new path or is the last. */
  lemma RoundProgress(w: World, u: set<Path>, frontier: seq<Item>, s: Search)
    requires Universe(w, u) && AllIn(frontier, u) && s.visited <= u && frontier != []
    ensures var t := After(w, s, frontier);
            || |u - t.visited| < |u - s.visited|
            || (|u - t.visited| == |u - s.visited| && |NextFrontier(w, s, frontier)| < |frontier|)
  {
    ExpandStays(w, u, s.visited, frontier);
    var t := After(w, s, frontier);
    if t.visited == s.visited {
      NothingNew(w, s.visited, frontier);
    } else {
      var p :| p in t.visited && p !in s.visited;
      SmallerRest(u, s.visited, t.visited, p);
    }
  }

  lemma SmallerRest(u: set<Path>, a: set<Path>, b: set<Path>, p: Path)
    requires a <= b <= u && p in b && p !in a
    ensures |u - b| < |u - a|
  {
    assert u - b <= (u - a) - {p};
    SubsetSize(u - b, (u - a) - {p});
  }

  lemma {:induction false} SubsetSize(a: set<Path>, b: set<Path>)
    requires a <= b
    ensures |a| <= |b|
    decreases |b|
  {
    if a != {} {
      var x :| x in a;
      SubsetSize(a - {x}, b - {x});
    }
  }

  // ---- Each path is expanded at most once ----

  ghost function Paths(items: seq<Item>): set<Path>
  {
    set k | 0 <= k < |items| :: items[k].path
  }

  /** The visited paths are exactly the expanded ones, each expanded once. */
  ghost predicate Once(visited: set<Path>, expanded: seq<Item>)
  {
    && visited == Paths(expanded)
    && forall j, k :: 0 <= j < k < |expanded| ==> expanded[j].path != expanded[k].path
  }

  lemma OneMore(visited: set<Path>, expanded: seq<Item>, item: Item)
    requires Once(visited, expanded) && item.path !in visited
    ensures Once(visited + {item.path}, expanded + [item])
  {
    var all := expanded + [item];
    forall p | p in visited ensures p in Paths(all) {
      var k :| 0 <= k < |expanded| && expanded[k].path == p;
      assert all[k].path == p;
    }
    assert all[|expanded|].path == item.path;
    forall k | 0 <= k < |expanded| ensures expanded[k].path in visited {
    }
  }

  lemma {:induction false} ExpandOnce(w: World, visited: set<Path>, frontier: seq<Item>, before: seq<Item>)
    requires Once(visited, before)
    ensures var b := Expand(w, visited, frontier); Once(b.visited, before + b.expanded)
  {
    if frontier != [] {
      var n := |frontier| - 1;
      ExpandOnce(w, visited, frontier[..n], before);
      var b, item := Expand(w, visited, frontier[..n]), frontier[n];
      if item.path !in b.visited {
        OneMore(b.visited, before + b.expanded, item);
        SeqAssoc(before, b.expanded, [item]);
      }
    } else {
      assert before + [] == before;
    }
  }

  /** The search expands no path twice. */
  lemma {:induction false} DiscoverOnce(w: World, u: set<Path>, frontier: seq<Item>, s: Search)
    requires Universe(w, u) && AllIn(frontier, u) && s.visited <= u && Once(s.visited, s.expanded)
    ensures var r := Discover(w, u, frontier, s); Once(r.visited, r.expanded) && s.visited <= r.visited <= u
    decreases |u - s.visited|, |frontier|
  {
    if frontier != [] {
      RoundStays(w, u, frontier, s);
      RoundProgress(w, u, frontier, s);
      ExpandOnce(w, s.visited, frontier, s.expanded);
      DiscoverOnce(w, u, NextFrontier(w, s, frontier), After(w, s, frontier));
    }
  }

  // ---- Everything reachable is found ----

  /** The paths an expanded item makes the search visit. */
  ghost function Follows(w: World, item: Item): set<Path>
  {
    var work := ItemWork(w, item);
    (set k | 0 <= k < |work.dirs| :: work.dirs[k].path)
    + set k, d | 0 <= k < |work.files| && w.parse(work.files[k].path).Some?
    && d in w.parse(work.files[k].path).value.rpaths :: d
  }

  /** The libraries an expanded item contributes. */
  ghost predicate Contributes(w: World, item: Item, lib: Lib)
  {
    var work := ItemWork(w, item);
    exists k :: 0 <= k < |work.files| && w.parse(work.files[k].path) == Some(lib)
  }

  /** Every expanded item's libraries are recorded, and what it makes the search
      visit is visited or waiting. */
  ghost predicate Settled(w: World, s: Search, waiting: set<Path>)
  {
    forall k :: 0 <= k < |s.expanded| ==> ItemSettled(w, s, waiting, s.expanded[k])
  }

  ghost predicate ItemSettled(w: World, s: Search, waiting: set<Path>, item: Item)
  {
    Follows(w, item) <= s.visited + waiting && forall lib :: Contributes(w, item, lib) ==> lib in s.libs
  }

  /** The work an expanded item asked for is in the round's work. */
  ghost predicate Included(w: World, work: Work, item: Item)
  {
    && (forall k :: 0 <= k < |ItemWork(w, item).files| ==> ItemWork(w, item).files[k] in work.files)
    && forall k :: 0 <= k < |ItemWork(w, item).dirs| ==> ItemWork(w, item).dirs[k] in work.dirs
  }

  lemma {:induction false} ExpandIncludes(w: World, visited: set<Path>, frontier: seq<Item>, k: nat)
    requires k < |Expand(w, visited, frontier).expanded|
    ensures Included(w, Expand(w, visited, frontier).work, Expand(w, visited, frontier).expanded[k])
  {
    var n := |frontier| - 1;
    var b := Expand(w, visited, frontier[..n]);
    if k < |b.expanded| {
      ExpandIncludes(w, visited, frontier[..n], k);
    }
  }

  lemma {:induction false} InFiltered(w: World, files: seq<Item>, i: nat)
    requires i < |files| && Parse(w)(files[i]).Some?
    ensures Parse(w)(files[i]).value in Pool.FilterMap(files, Parse(w))
  {
    var n := |files| - 1;
    if i < n {
      InFiltered(w, files[..n], i);
    }
  }

  lemma {:induction false} RpathInItems(found: seq<Found>, k: nat, d: Path)
    requires k < |found| && d in found[k].lib.rpaths
    ensures d in Paths(RpathItems(found))
  {
    var n := |found| - 1;
    var before, last := RpathItems(found[..n]), Items(found[n].lib.rpaths, found[n].recursive);
    if k < n {
      RpathInItems(found[..n], k, d);
      var i :| 0 <= i < |before| && before[i].path == d;
      assert (before + last)[i].path == d;
    } else {
      var i :| 0 <= i < |found[n].lib.rpaths| && found[n].lib.rpaths[i] == d;
      assert last[i].path == d && (before + last)[|before| + i].path == d;
    }
  }

  /** A newly expanded item is settled by the round that expands it. */
  lemma RoundSettles(w: World, s: Search, frontier: seq<Item>, item: Item)
    requires Included(w, Expand(w, s.visited, frontier).work, item)
    ensures ItemSettled(w, After(w, s, frontier), Paths(NextFrontier(w, s, frontier)), item)
  {
    var b, t, next := Expand(w, s.visited, frontier), After(w, s, frontier), NextFrontier(w, s, frontier);
    var found, work := Pool.FilterMap(b.work.files, Parse(w)), ItemWork(w, item);
    forall lib | Contributes(w, item, lib) ensures lib in t.libs {
      var k :| 0 <= k < |work.files| && w.parse(work.files[k].path) == Some(lib);
      FileFound(w, b.work.files, work.files[k]);
    }
    forall p | p in Follows(w, item) ensures p in Paths(next) {
      if k :| 0 <= k < |work.dirs| && work.dirs[k].path == p {
        var i :| 0 <= i < |b.work.dirs| && b.work.dirs[i] == work.dirs[k];
        assert next[i].path == p;
      } else {
        var k :| 0 <= k < |work.files| && w.parse(work.files[k].path).Some?
                 && p in w.parse(work.files[k].path).value.rpaths;
        FollowFound(w, b.work, work.files[k], p);
      }
    }
  }

  lemma FileFound(w: World, files: seq<Item>, file: Item)
    requires file in files && w.parse(file.path).Some?
    ensures w.parse(file.path).value in Libs(Pool.FilterMap(files, Parse(w)))
    ensures Found(w.parse(file.path).value, file.recursive) in Pool.FilterMap(files, Parse(w))
  {
    var i :| 0 <= i < |files| && files[i] == file;
    InFiltered(w, files, i);
    var found := Pool.FilterMap(files, Parse(w));
    var k :| 0 <= k < |found| && found[k] == Found(w.parse(file.path).value, file.recursive);
    assert Libs(found)[k] == w.parse(file.path).value;
  }

  lemma FollowFound(w: World, work: Work, file: Item, p: Path)
    requires file in work.files && w.parse(file.path).Some? && p in w.parse(file.path).value.rpaths
    ensures p in Paths(work.dirs + RpathItems(Pool.FilterMap(work.files, Parse(w))))
  {
    FileFound(w, work.files, file);
    var found := Pool.FilterMap(work.files, Parse(w));
    var k :| 0 <= k < |found| && found[k] == Found(w.parse(file.path).value, file.recursive);
    RpathInItems(found, k, p);
    var items := RpathItems(found);
    var i :| 0 <= i < |items| && items[i].path == p;
    assert (work.dirs + items)[|work.dirs| + i].path == p;
  }

  /** A round settles its new items and keeps the old ones settled: what waited was
      visited in it. */
  lemma RoundSettled(w: World, u: set<Path>, frontier: seq<Item>, s: Search)
    requires Universe(w, u) && AllIn(frontier, u) && s.visited <= u && Settled(w, s, Paths(frontier))
    ensures Settled(w, After(w, s, frontier), Paths(NextFrontier(w, s, frontier)))
  {
    ExpandStays(w, u, s.visited, frontier);
    var b, t, next := Expand(w, s.visited, frontier), After(w, s, frontier), NextFrontier(w, s, frontier);
    forall k | 0 <= k < |t.expanded|
      ensures ItemSettled(w, t, Paths(next), t.expanded[k])
    {
      if k < |s.expanded| {
        assert ItemSettled(w, s, Paths(frontier), s.expanded[k]);
      } else {
        assert t.expanded[k] == b.expanded[k - |s.expanded|];
        ExpandIncludes(w, s.visited, frontier, k - |s.expanded|);
        RoundSettles(w, s, frontier, t.expanded[k]);
      }
    }
  }

  /** The search ends with every root visited, every expanded item's libraries
      recorded, and everything those lead to visited. */
  lemma {:induction false} DiscoverComplete(w: World, u: set<Path>, frontier: seq<Item>, s: Search)
    requires Universe(w, u) && AllIn(frontier, u) && s.visited <= u && Settled(w, s, Paths(frontier))
    ensures var r := Discover(w, u, frontier, s);
            s.visited + Paths(frontier) <= r.visited && Settled(w, r, {})
    decreases |u - s.visited|, |frontier|
  {
    if frontier != [] {
      RoundStays(w, u, frontier, s);
      RoundProgress(w, u, frontier, s);
      RoundSettled(w, u, frontier, s);
      ExpandStays(w, u, s.visited, frontier);
      DiscoverComplete(w, u, NextFrontier(w, s, frontier), After(w, s, frontier));
    } else {
      assert Paths(frontier) == {};
    }
  }

  // ---- The cache ----

  const SYSV: nat := 0

  predicate Compatible(wanted: nat, got: nat)
  {
    wanted == got || wanted == SYSV || got == SYSV
  }

  function Listed(m: map<Key, seq<Provider>>, key: Key): seq<Provider>
  {
    if key in m then m[key] else []
  }

  /** The providers of a soname, in the order their libraries were discovered. */
  function Providers(w: World, libs: seq<Lib>, key: Key): seq<Provider>
  {
    if libs == [] then []
    else
      var n := |libs| - 1;
      Providers(w, libs[..n], key)
      + if libs[n].key == key then [Provider(w.canon(libs[n].dir), libs[n].osabi)] else []
  }

  lemma {:induction false} ProvidersConcat(w: World, a: seq<Lib>, b: seq<Lib>, key: Key)
    ensures Providers(w, a + b, key) == Providers(w, a, key) + Providers(w, b, key)
    decreases |b|
  {
    if b == [] {
      assert a + b == a;
    } else {
      var n := |b| - 1;
      ProvidersConcat(w, a, b[..n], key);
      assert (a + b)[..|a + b| - 1] == a + b[..n];
      SeqAssoc(Providers(w, a, key), Providers(w, b[..n], key),
               if b[n].key == key then [Provider(w.canon(b[n].dir), b[n].osabi)] else []);
    }
  }

  /** The first provider compatible with the wanted OS ABI. */
  function FirstCompatible(ps: seq<Provider>, osabi: nat): Option<Path>
  {
    if ps == [] then None
    else if Compatible(osabi, ps[0].osabi) then Some(ps[0].dir)
    else FirstCompatible(ps[1..], osabi)
  }

  /** The library is that one, for the same OS ABI; 0, System V's, goes with any. */
  predicate Matches(lib: Lib, key: Key, osabi: nat)
  {
    lib.key == key && (lib.osabi == osabi || lib.osabi == 0 || osabi == 0)
  }

  lemma {:induction false} FirstOfSnoc(ps: seq<Provider>, p: Provider, osabi: nat)
    ensures FirstCompatible(ps + [p], osabi)
            == if FirstCompatible(ps, osabi).Some? then FirstCompatible(ps, osabi)
               else if Compatible(osabi, p.osabi) then Some(p.dir) else None
  {
    if ps != [] {
      assert (ps + [p])[1..] == ps[1..] + [p];
      FirstOfSnoc(ps[1..], p, osabi);
    }
  }

  /** What `find` must return: the directory of the earliest discovered library of
      that name, architecture and a compatible OS ABI. */
  ghost predicate Earliest(w: World, libs: seq<Lib>, key: Key, osabi: nat, r: Option<Path>)
  {
    match r
    case None => forall k :: 0 <= k < |libs| ==> !Matches(libs[k], key, osabi)
    case Some(dir) =>
      exists k :: 0 <= k < |libs| && Matches(libs[k], key, osabi) && dir == w.canon(libs[k].dir)
                  && forall j :: 0 <= j < k ==> !Matches(libs[j], key, osabi)
  }

  /** The first compatible provider is that of the earliest discovered library. */
  lemma {:induction false} FindEarliest(w: World, libs: seq<Lib>, key: Key, osabi: nat)
    ensures Earliest(w, libs, key, osabi, FirstCompatible(Providers(w, libs, key), osabi))
  {
    if libs != [] {
      var n := |libs| - 1;
      var before, p := Providers(w, libs[..n], key), Provider(w.canon(libs[n].dir), libs[n].osabi);
      FindEarliest(w, libs[..n], key, osabi);
      FirstOfSnoc(before, p, osabi);
      if libs[n].key != key {
        assert Providers(w, libs, key) == before;
      }
      if FirstCompatible(before, osabi).Some? {
        var k :| 0 <= k < n && Matches(libs[..n][k], key, osabi)
                 && FirstCompatible(before, osabi).value == w.canon(libs[..n][k].dir)
                 && forall j :: 0 <= j < k ==> !Matches(libs[..n][j], key, osabi);
        assert Matches(libs[k], key, osabi);
        assert forall j :: 0 <= j < k ==> libs[j] == libs[..n][j];
      } else {
        assert forall j :: 0 <= j < n ==> libs[j] == libs[..n][j];
      }
    }
  }

  class Cache {
    var bySoname: map<Key, seq<Provider>>
    var visited: set<Path>

    constructor ()
      ensures bySoname == map[] && visited == {}
    {
      bySoname, visited := map[], {};
    }

    /** The first provider listed for a soname whose OS ABI is compatible. */
    method Find(key: Key, osabi: nat) returns (r: Option<Path>)
      ensures r == FirstCompatible(Listed(bySoname, key), osabi)
    {
      if key !in bySoname {
        return None;
      }
      var ps := bySoname[key];
      for k := 0 to |ps|
        invariant FirstCompatible(ps, osabi) == FirstCompatible(ps[k..], osabi)
      {
        assert ps[k..][1..] == ps[k + 1..];
        if Compatible(osabi, ps[k].osabi) {
          return Some(ps[k].dir);
        }
      }
      r := None;
    }

    /** A path's first visit: a file is parsed, a directory's entries are read in order. */
    method ReadItem(w: World, item: Item) returns (work: Work)
      ensures work == ItemWork(w, item)
      ensures NodeAt(w, item.path).Dir? ==>
                && Picks(IsShared(w), NodeAt(w, item.path).entries, item.recursive, work.files)
                && Picks(IsFollowed(w, item.recursive), NodeAt(w, item.path).entries, item.recursive, work.dirs)
    {
      work := Work([], []);
      var node := NodeAt(w, item.path);
      if node.File? {
        return Work([item], []);
      }
      if !node.Dir? {
        return;
      }
      for i := 0 to |node.entries|
        invariant work == EntriesWork(w, node.entries[..i], item.recursive)
      {
        var child := node.entries[i];
        assert node.entries[..i + 1][..i] == node.entries[..i];
        if NodeAt(w, child).Dir? {
          if item.recursive {
            work := work.(dirs := work.dirs + [Item(child, item.recursive)]);
          }
        } else if w.shared(child) {
          work := work.(files := work.files + [Item(child, item.recursive)]);
        }
      }
      assert node.entries[..|node.entries|] == node.entries;
      EntriesPicked(w, node.entries, item.recursive);
    }

    /** The directory walk of one round. */
    method Walk(w: World, frontier: seq<Item>) returns (work: Work)
      modifies this`visited
      ensures var b := Expand(w, old(visited), frontier); visited == b.visited && work == b.work
    {
      work := Work([], []);
      for k := 0 to |frontier|
        invariant var b := Expand(w, old(visited), frontier[..k]); visited == b.visited && work == b.work
      {
        assert frontier[..k + 1][..k] == frontier[..k];
        var item := frontier[k];
        if item.path !in visited {
          visited := visited + {item.path};
          var more := ReadItem(w, item);
          work := Work(work.files + more.files, work.dirs + more.dirs);
        }
      }
      assert frontier[..|frontier|] == frontier;
    }

    /** Fold the parsed libraries into the cache; returns the directories they name. */
    method Fold(w: World, found: seq<Found>) returns (next: seq<Item>)
      modifies this`bySoname
      ensures next == RpathItems(found) && Extends(w, old(bySoname), Libs(found), bySoname)
    {
      next := [];
      for k := 0 to |found|
        invariant next == RpathItems(found[..k]) && Extends(w, old(bySoname), Libs(found[..k]), bySoname)
      {
        assert found[..k + 1][..k] == found[..k];
        assert Libs(found[..k + 1]) == Libs(found[..k]) + [found[k].lib];
        var lib := found[k].lib;
        FoldOne(w, old(bySoname), Libs(found[..k]), bySoname, lib);
        bySoname := bySoname[lib.key := Listed(bySoname, lib.key) + [Provider(w.canon(lib.dir), lib.osabi)]];
        next := next + Items(lib.rpaths, found[k].recursive);
      }
      assert found[..|found|] == found;
    }

    /** One round of the search, its libraries parsed by the worker pool. */
    method Round(w: World, ghost u: set<Path>, frontier: seq<Item>,
                 workers: nat, ghost s: Search) returns (next: seq<Item>)
      requires s.visited == visited
      modifies this
      ensures next == NextFrontier(w, s, frontier) && visited == After(w, s, frontier).visited
      ensures Extends(w, old(bySoname), Libs(Pool.FilterMap(Expand(w, s.visited, frontier).work.files, Parse(w))),
                      bySoname)
    {
      var work := Walk(w, frontier);
      var found := Pool.ParMap(work.files, workers, Parse(w));
      next := Fold(w, found);
      next := work.dirs + next;
    }

    /** `populate`: whatever the worker count, the cache gains exactly the libraries
        of the sequential search, in its order. */
    method Populate(w: World, ghost u: set<Path>, roots: seq<Item>, workers: nat)
      requires Universe(w, u) && AllIn(roots, u) && visited <= u
      modifies this
      ensures var r := Discover(w, u, roots, Search(old(visited), [], []));
              visited == r.visited && Extends(w, old(bySoname), r.libs, bySoname)
    {
      var frontier := roots;
      ghost var s := Search(visited, [], []);
      ghost var goal := Discover(w, u, roots, s);
      ghost var m := bySoname;
      while frontier != []
        invariant AllIn(frontier, u) && s.visited <= u && s.visited == visited
        invariant Discover(w, u, frontier, s) == goal
        invariant Extends(w, m, s.libs, bySoname)
        decreases |u - s.visited|, |frontier|
      {
        RoundStays(w, u, frontier, s);
        RoundProgress(w, u, frontier, s);
        ghost var before := bySoname;
        var next := Round(w, u, frontier, workers, s);
        ExtendsMore(w, m, s.libs, before, Libs(Pool.FilterMap(Expand(w, s.visited, frontier).work.files, Parse(w))),
                    bySoname);
        s, frontier := After(w, s, frontier), next;
      }
    }
  }

  /** `m` lists what `m0` does and then the providers among `libs`. */
  ghost predicate Extends(w: World, m0: map<Key, seq<Provider>>, libs: seq<Lib>, m: map<Key, seq<Provider>>)
  {
    forall key :: Listed(m, key) == Listed(m0, key) + Providers(w, libs, key)
  }

  lemma FoldOne(w: World, m0: map<Key, seq<Provider>>, libs: seq<Lib>, m: map<Key, seq<Provider>>, lib: Lib)
    requires Extends(w, m0, libs, m)
    ensures Extends(w, m0, libs + [lib], m[lib.key := Listed(m, lib.key) + [Provider(w.canon(lib.dir), lib.osabi)]])
  {
    var m' := m[lib.key := Listed(m, lib.key) + [Provider(w.canon(lib.dir), lib.osabi)]];
    assert (libs + [lib])[..|libs|] == libs;
    forall key ensures Listed(m', key) == Listed(m0, key) + Providers(w, libs + [lib], key) {
      assert Listed(m, key) == Listed(m0, key) + Providers(w, libs, key);
      if key == lib.key {
        SeqAssoc(Listed(m0, key), Providers(w, libs, key), [Provider(w.canon(lib.dir), lib.osabi)]);
      } else {
        assert Providers(w, libs, key) + [] == Providers(w, libs, key);
      }
    }
  }

  lemma ExtendsMore(w: World, m0: map<Key, seq<Provider>>, a: seq<Lib>, m1: map<Key, seq<Provider>>, b: seq<Lib>,
                    m2: map<Key, seq<Provider>>)
    requires Extends(w, m0, a, m1) && Extends(w, m1, b, m2)
    ensures Extends(w, m0, a + b, m2)
  {
    forall key ensures Listed(m2, key) == Listed(m0, key) + Providers(w, a + b, key) {
      ProvidersConcat(w, a, b, key);
      SeqAssoc(Listed(m0, key), Providers(w, a, key), Providers(w, b, key));
    }
  }

  // ---- Joining the directories found ----

  /** The first occurrences, in order. */
  function Dedup(paths: seq<Path>): seq<Path>
  {
    if paths == [] then []
    else
      var n := |paths| - 1;
      if paths[n] in paths[..n] then Dedup(paths[..n]) else Dedup(paths[..n]) + [paths[n]]
  }

  /** Where a directory first occurs. */
  function FirstAt(paths: seq<Path>, p: Path): (i: nat)
    requires p in paths
    ensures i < |paths| && paths[i] == p && forall j :: 0 <= j < i ==> paths[j] != p
  {
    if paths[0] == p then 0 else 1 + FirstAt(paths[1..], p)
  }

  lemma FirstAtIs(paths: seq<Path>, p: Path, i: nat)
    requires i < |paths| && paths[i] == p && forall j :: 0 <= j < i ==> paths[j] != p
    ensures FirstAt(paths, p) == i
  {
  }

  /** Deduplication keeps every directory once, in the order of first occurrence. */
  lemma {:induction false} DedupKeepsAll(paths: seq<Path>)
    ensures forall p :: p in Dedup(paths) <==> p in paths
    ensures forall i, j :: 0 <= i < j < |Dedup(paths)| ==>
              FirstAt(paths, Dedup(paths)[i]) < FirstAt(paths, Dedup(paths)[j])
  {
    if paths != [] {
      var n := |paths| - 1;
      DedupKeepsAll(paths[..n]);
      assert paths == paths[..n] + [paths[n]];
      forall p | p in paths[..n] ensures FirstAt(paths, p) == FirstAt(paths[..n], p) {
        FirstAtIs(paths, p, FirstAt(paths[..n], p));
      }
      if paths[n] !in paths[..n] {
        FirstAtIs(paths, paths[n], n);
      }
    }
  }

  /** The loop of `join_rpaths`: what was seen before is dropped. */
  method DedupPaths(paths: seq<Path>) returns (out: seq<Path>)
    ensures out == Dedup(paths)
  {
    var seen: set<Path> := {};
    out := [];
    for i := 0 to |paths|
      invariant out == Dedup(paths[..i]) && forall p :: p in seen <==> p in paths[..i]
    {
      assert paths[..i + 1][..i] == paths[..i];
      if paths[i] !in seen {
        seen := seen + {paths[i]};
        out := out + [paths[i]];
      }
    }
    assert paths[..|paths|] == paths;
  }
}
