/** What the cache search of the dependency resolver (src/autoformatelf.rs) finds, in
    terms of the file system alone. */
module Reachable {
  import opened Ir
  import opened Populate
  import Pool

  // ---- What one item leads to ----

  /** The files parsed when an item is expanded: a file itself, and a directory's
      shared objects that are no directory. */
  ghost predicate Parses(w: World, item: Item, file: Path)
  {
    match NodeAt(w, item.path)
    case File => file == item.path
    case Dir(entries) => file in entries && !NodeAt(w, file).Dir? && w.shared(file)
    case Missing => false
  }

  /** The directories followed: those in a directory expanded recursively. */
  ghost predicate Descends(w: World, item: Item, dir: Path)
  {
    && NodeAt(w, item.path).Dir? && dir in NodeAt(w, item.path).entries
    && NodeAt(w, dir).Dir? && item.recursive
  }

  ghost predicate Yields(w: World, item: Item, file: Path, lib: Lib)
  {
    Parses(w, item, file) && w.parse(file) == Some(lib)
  }

  /** What an item makes the search visit, with the item's own flag. */
  ghost predicate Leads(w: World, item: Item, next: Item)
  {
    && next.recursive == item.recursive
    && (Descends(w, item, next.path)
        || exists file, lib :: Yields(w, item, file, lib) && next.path in lib.rpaths)
  }

  lemma WorkIs(w: World, item: Item, x: Item)
    ensures x in ItemWork(w, item).files <==> x.recursive == item.recursive && Parses(w, item, x.path)
    ensures x in ItemWork(w, item).dirs <==> x.recursive == item.recursive && Descends(w, item, x.path)
  {
    if NodeAt(w, item.path).Dir? {
      var entries, work := NodeAt(w, item.path).entries, ItemWork(w, item);
      EntriesPicked(w, entries, item.recursive);
      PicksExactly(IsShared(w), entries, item.recursive, work.files, x);
      PicksExactly(IsFollowed(w, item.recursive), entries, item.recursive, work.dirs, x);
    }
  }

  // ---- Nothing is missed ----

  /** What an expanded item leads to was visited, and what it yields recorded. */
  ghost predicate Followed(w: World, s: Search, item: Item)
  {
    && (forall next :: Leads(w, item, next) ==> next.path in s.visited)
    && forall file, lib :: Yields(w, item, file, lib) ==> lib in s.libs
  }

  lemma SettledFollowed(w: World, s: Search, item: Item)
    requires ItemSettled(w, s, {}, item)
    ensures Followed(w, s, item)
  {
    var work := ItemWork(w, item);
    forall file, lib | Yields(w, item, file, lib)
      ensures lib in s.libs && forall d :: d in lib.rpaths ==> d in s.visited
    {
      WorkIs(w, item, Item(file, item.recursive));
      var k :| 0 <= k < |work.files| && work.files[k] == Item(file, item.recursive);
      assert Contributes(w, item, lib);
      assert forall d :: d in lib.rpaths ==> d in Follows(w, item);
    }
    forall next | Leads(w, item, next) ensures next.path in s.visited {
      if Descends(w, item, next.path) {
        WorkIs(w, item, next);
        var k :| 0 <= k < |work.dirs| && work.dirs[k] == next;
        assert next.path in Follows(w, item);
      }
    }
  }

  lemma AllFollowed(w: World, u: set<Path>, roots: seq<Item>, visited: set<Path>, item: Item)
    requires Universe(w, u) && AllIn(roots, u) && visited <= u
    ensures var r := Discover(w, u, roots, Search(visited, [], [])); item in r.expanded ==> Followed(w, r, item)
  {
    var r := Discover(w, u, roots, Search(visited, [], []));
    DiscoverComplete(w, u, roots, Search(visited, [], []));
    if item in r.expanded {
      SettledFollowed(w, r, item);
    }
  }

  // ---- Nothing else is found ----

  /** An item waits because it is a root or because an expanded item leads to it. */
  ghost predicate Caused(w: World, roots: seq<Item>, expanded: seq<Item>, x: Item)
  {
    x in roots || exists item :: item in expanded && Leads(w, item, x)
  }

  ghost predicate FoundBy(w: World, expanded: seq<Item>, lib: Lib)
  {
    exists item, file :: item in expanded && Yields(w, item, file, lib)
  }

  ghost predicate Traced(w: World, roots: seq<Item>, s: Search, frontier: seq<Item>)
  {
    && (forall x :: x in s.expanded ==> Caused(w, roots, s.expanded, x))
    && (forall x :: x in frontier ==> Caused(w, roots, s.expanded, x))
    && forall lib :: lib in s.libs ==> FoundBy(w, s.expanded, lib)
  }

  /** The items a round's work comes from. */
  ghost predicate FileOf(w: World, expanded: seq<Item>, x: Item)
  {
    exists item :: item in expanded && item.recursive == x.recursive && Parses(w, item, x.path)
  }

  ghost predicate DirOf(w: World, expanded: seq<Item>, x: Item)
  {
    exists item :: item in expanded && item.recursive == x.recursive && Descends(w, item, x.path)
  }

  ghost predicate WorkOf(w: World, b: Batch)
  {
    && (forall x :: x in b.work.files ==> FileOf(w, b.expanded, x))
    && forall x :: x in b.work.dirs ==> DirOf(w, b.expanded, x)
  }

  lemma VisitWork(w: World, b: Batch, item: Item)
    requires WorkOf(w, b)
    ensures WorkOf(w, Visit(w, b, item))
  {
    if item.path !in b.visited {
      var all, more := b.expanded + [item], ItemWork(w, item);
      forall x | x in b.work.files + more.files ensures FileOf(w, all, x) {
        WorkIs(w, item, x);
        assert item in all;
        if x in b.work.files {
          assert FileOf(w, b.expanded, x);
        }
      }
      forall x | x in b.work.dirs + more.dirs ensures DirOf(w, all, x) {
        WorkIs(w, item, x);
        assert item in all;
        if x in b.work.dirs {
          assert DirOf(w, b.expanded, x);
        }
      }
    }
  }

  lemma {:induction false} ExpandWork(w: World, visited: set<Path>, frontier: seq<Item>)
    ensures var b := Expand(w, visited, frontier); WorkOf(w, b) && forall x :: x in b.expanded ==> x in frontier
  {
    if frontier != [] {
      var n := |frontier| - 1;
      ExpandWork(w, visited, frontier[..n]);
      VisitWork(w, Expand(w, visited, frontier[..n]), frontier[n]);
    }
  }

  lemma {:induction false} RpathItemOf(found: seq<Found>, x: Item) returns (k: nat)
    requires x in RpathItems(found)
    ensures k < |found| && x.recursive == found[k].recursive && x.path in found[k].lib.rpaths
  {
    var n := |found| - 1;
    if x in RpathItems(found[..n]) {
      k := RpathItemOf(found[..n], x);
    } else {
      k := n;
    }
  }

  /** Every library a round parses is one of its files'. */
  lemma FoundOf(w: World, b: Batch, k: nat)
    requires WorkOf(w, b) && k < |Pool.FilterMap(b.work.files, Parse(w))|
    ensures var f := Pool.FilterMap(b.work.files, Parse(w))[k];
            exists item, file :: item in b.expanded && item.recursive == f.recursive && Yields(w, item, file, f.lib)
  {
    var i := FoundIn(w, b.work.files, k);
    var x := b.work.files[i];
    assert FileOf(w, b.expanded, x);
    var item :| item in b.expanded && item.recursive == x.recursive && Parses(w, item, x.path);
    assert Yields(w, item, x.path, w.parse(x.path).value);
  }

  lemma NextOf(w: World, roots: seq<Item>, expanded: seq<Item>, b: Batch, x: Item)
    requires WorkOf(w, b) && x in b.work.dirs + RpathItems(Pool.FilterMap(b.work.files, Parse(w)))
    ensures Caused(w, roots, expanded + b.expanded, x)
  {
    if x in b.work.dirs {
      assert DirOf(w, b.expanded, x);
      var item :| item in b.expanded && item.recursive == x.recursive && Descends(w, item, x.path);
      assert item in expanded + b.expanded && Leads(w, item, x);
    } else {
      var found := Pool.FilterMap(b.work.files, Parse(w));
      var k := RpathItemOf(found, x);
      FoundOf(w, b, k);
      var item, file :| item in b.expanded && item.recursive == found[k].recursive
        && Yields(w, item, file, found[k].lib);
      assert item in expanded + b.expanded && Leads(w, item, x);
    }
  }

  lemma CausedMore(w: World, roots: seq<Item>, a: seq<Item>, b: seq<Item>, x: Item)
    requires Caused(w, roots, a, x)
    ensures Caused(w, roots, a + b, x)
  {
    if x !in roots {
      var item :| item in a && Leads(w, item, x);
      assert item in a + b;
    }
  }

  lemma RoundTraced(w: World, roots: seq<Item>, frontier: seq<Item>, s: Search)
    requires Traced(w, roots, s, frontier)
    ensures Traced(w, roots, After(w, s, frontier), NextFrontier(w, s, frontier))
  {
    var b, t, next := Expand(w, s.visited, frontier), After(w, s, frontier), NextFrontier(w, s, frontier);
    ExpandWork(w, s.visited, frontier);
    forall x | x in t.expanded ensures Caused(w, roots, t.expanded, x) {
      CausedMore(w, roots, s.expanded, b.expanded, x);
    }
    forall x | x in next ensures Caused(w, roots, t.expanded, x) {
      NextOf(w, roots, s.expanded, b, x);
    }
    forall lib | lib in t.libs ensures FoundBy(w, t.expanded, lib) {
      LibTraced(w, s, b, lib);
    }
  }

  lemma LibTraced(w: World, s: Search, b: Batch, lib: Lib)
    requires WorkOf(w, b) && (lib in s.libs ==> FoundBy(w, s.expanded, lib))
    requires lib in s.libs + Libs(Pool.FilterMap(b.work.files, Parse(w)))
    ensures FoundBy(w, s.expanded + b.expanded, lib)
  {
    if lib in s.libs {
      var item, file :| item in s.expanded && Yields(w, item, file, lib);
      assert item in s.expanded + b.expanded;
    } else {
      var found := Pool.FilterMap(b.work.files, Parse(w));
      var k :| 0 <= k < |found| && Libs(found)[k] == lib;
      FoundOf(w, b, k);
      var item, file :| item in b.expanded && item.recursive == found[k].recursive
        && Yields(w, item, file, found[k].lib);
      assert item in s.expanded + b.expanded;
    }
  }

  lemma {:induction false} DiscoverTraced(w: World, u: set<Path>, roots: seq<Item>, frontier: seq<Item>, s: Search)
    requires Universe(w, u) && AllIn(frontier, u) && s.visited <= u && Traced(w, roots, s, frontier)
    ensures Traced(w, roots, Discover(w, u, frontier, s), [])
    decreases |u - s.visited|, |frontier|
  {
    if frontier != [] {
      RoundStays(w, u, frontier, s);
      RoundProgress(w, u, frontier, s);
      RoundTraced(w, roots, frontier, s);
      DiscoverTraced(w, u, roots, NextFrontier(w, s, frontier), After(w, s, frontier));
    }
  }

  /** The search visits and records what the file system gives and nothing else: an
      expanded item is a root or an expanded one leads to it, what expanded items lead
      to is visited, and the libraries are exactly those the expanded items yield. */
  lemma SearchExact(w: World, u: set<Path>, roots: seq<Item>, visited: set<Path>)
    requires Universe(w, u) && AllIn(roots, u) && visited <= u
    ensures var r := Discover(w, u, roots, Search(visited, [], []));
            && visited + Paths(roots) <= r.visited
            && (forall x :: x in r.expanded ==> Caused(w, roots, r.expanded, x) && Followed(w, r, x))
            && forall lib :: lib in r.libs <==> FoundBy(w, r.expanded, lib)
  {
    var s := Search(visited, [], []);
    var r := Discover(w, u, roots, s);
    DiscoverComplete(w, u, roots, s);
    DiscoverTraced(w, u, roots, roots, s);
    forall x | x in r.expanded ensures Followed(w, r, x) {
      AllFollowed(w, u, roots, visited, x);
    }
    forall lib | FoundBy(w, r.expanded, lib) ensures lib in r.libs {
      var item, file :| item in r.expanded && Yields(w, item, file, lib);
      assert Followed(w, r, item);
    }
  }

  // ---- Shared objects under a recursive root ----

  /** From a path through directories to a file the search parses: a shared object,
      or the first path itself. */
  ghost predicate Trail(w: World, trail: seq<Path>)
  {
    && trail != []
    && (forall i :: 0 < i < |trail| ==> EntryOf(w, trail[i - 1], trail[i]))
    && var last := trail[|trail| - 1];
       if |trail| == 1 then NodeAt(w, last).File? else !NodeAt(w, last).Dir? && w.shared(last)
  }

  ghost predicate EntryOf(w: World, dir: Path, p: Path)
  {
    NodeAt(w, dir).Dir? && p in NodeAt(w, dir).entries
  }

  /** A trail from a recursive root to a file that parses. */
  ghost predicate Gives(w: World, roots: seq<Item>, trail: seq<Path>, lib: Lib)
  {
    Trail(w, trail) && Item(trail[0], true) in roots && w.parse(trail[|trail| - 1]) == Some(lib)
  }

  /** The law of the cache: each shared object reached from a recursive root is found. */
  ghost predicate FindsAll(w: World, roots: seq<Item>, libs: seq<Lib>)
  {
    forall trail, lib :: Gives(w, roots, trail, lib) ==> lib in libs
  }

  ghost predicate ExpandedFlat(expanded: seq<Item>, dir: Path)
  {
    Item(dir, false) in expanded
  }

  /** A visited path was expanded, with one flag or the other. */
  lemma VisitedExpanded(w: World, u: set<Path>, roots: seq<Item>, p: Path)
    requires Universe(w, u) && AllIn(roots, u)
    ensures var r := Discover(w, u, roots, Search({}, [], []));
            p in r.visited ==> Item(p, true) in r.expanded || Item(p, false) in r.expanded
  {
    var r := Discover(w, u, roots, Search({}, [], []));
    DiscoverOnce(w, u, roots, Search({}, [], []));
    if p in r.visited {
      var k :| 0 <= k < |r.expanded| && r.expanded[k].path == p;
      assert r.expanded[k] == Item(p, true) || r.expanded[k] == Item(p, false);
    }
  }

  lemma {:induction false} TrailVisited(w: World, u: set<Path>, roots: seq<Item>, trail: seq<Path>, i: nat)
    requires Universe(w, u) && AllIn(roots, u) && Trail(w, trail) && Item(trail[0], true) in roots && i < |trail| - 1
    requires var r := Discover(w, u, roots, Search({}, [], []));
             forall j :: 0 <= j < |trail| - 1 ==> !ExpandedFlat(r.expanded, trail[j])
    ensures Item(trail[i], true) in Discover(w, u, roots, Search({}, [], [])).expanded
  {
    var r := Discover(w, u, roots, Search({}, [], []));
    SearchExact(w, u, roots, {});
    if i == 0 {
      var k :| 0 <= k < |roots| && roots[k] == Item(trail[0], true);
      assert trail[0] in Paths(roots);
    } else {
      TrailVisited(w, u, roots, trail, i - 1);
      assert EntryOf(w, trail[i - 1], trail[i]) && EntryOf(w, trail[i], trail[i + 1]);
      assert Leads(w, Item(trail[i - 1], true), Item(trail[i], true));
      assert Followed(w, r, Item(trail[i - 1], true));
    }
    VisitedExpanded(w, u, roots, trail[i]);
    assert !ExpandedFlat(r.expanded, trail[i]);
  }

  /** A shared object reached from a recursive root is found unless a directory on the
      way was first visited without recursion. */
  lemma TrailFound(w: World, u: set<Path>, roots: seq<Item>, trail: seq<Path>, lib: Lib)
    requires Universe(w, u) && AllIn(roots, u) && Gives(w, roots, trail, lib)
    ensures var r := Discover(w, u, roots, Search({}, [], []));
            lib in r.libs || exists j :: 0 <= j < |trail| - 1 && ExpandedFlat(r.expanded, trail[j])
  {
    var r, n := Discover(w, u, roots, Search({}, [], [])), |trail| - 1;
    SearchExact(w, u, roots, {});
    if forall j :: 0 <= j < n ==> !ExpandedFlat(r.expanded, trail[j]) {
      var item: Item;
      if n == 0 {
        var k :| 0 <= k < |roots| && roots[k] == Item(trail[0], true);
        assert trail[0] in Paths(roots);
        VisitedExpanded(w, u, roots, trail[0]);
        item := if Item(trail[0], true) in r.expanded then Item(trail[0], true) else Item(trail[0], false);
      } else {
        TrailVisited(w, u, roots, trail, n - 1);
        assert EntryOf(w, trail[n - 1], trail[n]);
        item := Item(trail[n - 1], true);
      }
      assert Yields(w, item, trail[n], lib);
    }
  }

  // ---- Which roots keep the law ----

  /** A root without recursion repeats an earlier one. */
  ghost predicate Repeats(roots: seq<Item>, visited: set<Path>, k: nat)
    requires k < |roots|
  {
    roots[k].path in visited || exists j :: 0 <= j < k && roots[j].path == roots[k].path
  }

  ghost predicate FirstRecursive(roots: seq<Item>, visited: set<Path>)
  {
    forall k :: 0 <= k < |roots| ==> roots[k].recursive || Repeats(roots, visited, k)
  }

  lemma {:induction false} FrontierVisited(w: World, visited: set<Path>, frontier: seq<Item>)
    ensures visited + Paths(frontier) <= Expand(w, visited, frontier).visited
  {
    if frontier != [] {
      var n := |frontier| - 1;
      FrontierVisited(w, visited, frontier[..n]);
      forall p | p in Paths(frontier) ensures p in Expand(w, visited, frontier).visited {
        var k :| 0 <= k < |frontier| && frontier[k].path == p;
        if k < n {
          assert frontier[..n][k].path == p;
        }
      }
    }
  }

  lemma RepeatVisited(w: World, visited: set<Path>, frontier: seq<Item>, n: nat)
    requires n < |frontier| && Repeats(frontier, visited, n)
    ensures frontier[n].path in Expand(w, visited, frontier[..n]).visited
  {
    FrontierVisited(w, visited, frontier[..n]);
    if frontier[n].path !in visited {
      var j :| 0 <= j < n && frontier[j].path == frontier[n].path;
      assert frontier[..n][j].path in Paths(frontier[..n]);
    }
  }

  lemma {:induction false} ExpandRecursive(w: World, visited: set<Path>, frontier: seq<Item>, x: Item)
    requires FirstRecursive(frontier, visited) && x in Expand(w, visited, frontier).expanded
    ensures x.recursive
  {
    var n := |frontier| - 1;
    var before := frontier[..n];
    if x in Expand(w, visited, before).expanded {
      forall k | 0 <= k < n ensures before[k].recursive || Repeats(before, visited, k) {
        assert frontier[k].recursive || Repeats(frontier, visited, k);
        assert before[k] == frontier[k];
        if !before[k].recursive && before[k].path !in visited {
          var j :| 0 <= j < k && frontier[j].path == frontier[k].path;
          assert before[j].path == before[k].path;
        }
      }
      ExpandRecursive(w, visited, before, x);
    } else {
      assert frontier[n].recursive || Repeats(frontier, visited, n);
      if Repeats(frontier, visited, n) {
        RepeatVisited(w, visited, frontier, n);
      }
    }
  }

  lemma {:induction false} DiscoverRecursive(w: World, u: set<Path>, frontier: seq<Item>, s: Search)
    requires Universe(w, u) && AllIn(frontier, u) && s.visited <= u
    requires FirstRecursive(frontier, s.visited) && forall x :: x in s.expanded ==> x.recursive
    ensures forall x :: x in Discover(w, u, frontier, s).expanded ==> x.recursive
    decreases |u - s.visited|, |frontier|
  {
    if frontier != [] {
      RoundStays(w, u, frontier, s);
      RoundProgress(w, u, frontier, s);
      var b, next := Expand(w, s.visited, frontier), NextFrontier(w, s, frontier);
      ExpandWork(w, s.visited, frontier);
      forall x | x in b.expanded ensures x.recursive {
        ExpandRecursive(w, s.visited, frontier, x);
      }
      forall k | 0 <= k < |next| ensures next[k].recursive {
        NextOf(w, [], [], b, next[k]);
      }
      DiscoverRecursive(w, u, next, After(w, s, frontier));
    }
  }

  /** With every root recursive on its first occurrence, or none recursive, the search
      finds all it should. */
  lemma RecursiveFindsAll(w: World, u: set<Path>, roots: seq<Item>)
    requires Universe(w, u) && AllIn(roots, u)
    requires FirstRecursive(roots, {}) || forall x :: x in roots ==> !x.recursive
    ensures FindsAll(w, roots, Discover(w, u, roots, Search({}, [], [])).libs)
  {
    var r := Discover(w, u, roots, Search({}, [], []));
    if FirstRecursive(roots, {}) {
      DiscoverRecursive(w, u, roots, Search({}, [], []));
      forall trail, lib | Gives(w, roots, trail, lib)
        ensures lib in r.libs
      {
        TrailFound(w, u, roots, trail, lib);
      }
    }
  }

  // ---- A world where the law fails ----

  function Longest(roots: seq<Item>): (n: nat)
    ensures forall k :: 0 <= k < |roots| ==> |roots[k].path| <= n
  {
    if roots == [] then 0
    else
      var n, last := Longest(roots[..|roots| - 1]), |roots[|roots| - 1].path|;
      if last > n then last else n
  }

  /** A path no root names, the longer the larger `i`. */
  function Fresh(roots: seq<Item>, i: nat): (p: Path)
    ensures |p| == Longest(roots) + 1 + i
  {
    seq(Longest(roots) + 1 + i, _ => 'x')
  }

  const Lost: Lib := Lib(Key("libx.so", Arch(62, true)), SYSV, "/x", [])

  /** `p` holds `q`, `q` a directory, and that the one library. */
  function Nested(p: Path, q: Path, dir: Path, file: Path): World
  {
    World(map[p := Dir([q]), dir := Dir([file]), file := File][q := Dir([dir])],
          x => x == file, x => if x == file then Some(Lost) else None, x => x)
  }

  ghost predicate Apart(p: Path, q: Path, dir: Path, file: Path)
  {
    && p != dir && p != file && q != dir && q != file && dir != file
  }

  /** `q` is first named without recursion, at `k`. */
  ghost predicate FirstFlat(roots: seq<Item>, q: Path, k: nat)
  {
    k < |roots| && roots[k] == Item(q, false) && forall j :: 0 <= j < k ==> roots[j].path != q
  }

  lemma NestedItem(p: Path, q: Path, dir: Path, file: Path, item: Item)
    requires Apart(p, q, dir, file) && item.path != dir && item.path != file
    ensures var w := Nested(p, q, dir, file); ItemWork(w, item).files == []
    ensures var work := ItemWork(Nested(p, q, dir, file), item);
            (item.path == q && item.recursive) || forall x :: x in work.dirs ==> x.path == q
  {
    var w, work := Nested(p, q, dir, file), ItemWork(Nested(p, q, dir, file), item);
    if work.files != [] {
      WorkIs(w, item, work.files[0]);
    }
    forall x | x in work.dirs && !(item.path == q && item.recursive) ensures x.path == q {
      WorkIs(w, item, x);
    }
  }

  /** The first round finds no file and leads to `q` alone. */
  lemma {:induction false} NestedRound(p: Path, q: Path, dir: Path, file: Path, roots: seq<Item>, k: nat, n: nat)
    requires Apart(p, q, dir, file) && FirstFlat(roots, q, k) && n <= |roots|
    requires forall x :: x in roots ==> x.path != dir && x.path != file
    ensures var b := Expand(Nested(p, q, dir, file), {}, roots[..n]);
            b.work.files == [] && forall x :: x in b.work.dirs ==> x.path == q
  {
    if n > 0 {
      var w, item := Nested(p, q, dir, file), roots[n - 1];
      var b := Expand(w, {}, roots[..n - 1]);
      assert roots[..n][..n - 1] == roots[..n - 1];
      NestedRound(p, q, dir, file, roots, k, n - 1);
      if item.path !in b.visited {
        FrontierVisited(w, {}, roots[..n - 1]);
        if k < n - 1 {
          assert roots[..n - 1][k].path == q;
        }
        NestedItem(p, q, dir, file, item);
      }
    }
  }

  lemma {:induction false} NothingLeft(w: World, visited: set<Path>, frontier: seq<Item>)
    requires Paths(frontier) <= visited
    ensures Expand(w, visited, frontier) == Batch(visited, Work([], []), [])
  {
    if frontier != [] {
      var n := |frontier| - 1;
      assert frontier[n].path in Paths(frontier);
      forall x | x in Paths(frontier[..n]) ensures x in Paths(frontier) {
        var k :| 0 <= k < n && frontier[..n][k].path == x;
        assert frontier[k].path == x;
      }
      NothingLeft(w, visited, frontier[..n]);
    }
  }

  ghost function NestedUniverse(p: Path, q: Path, dir: Path, file: Path, roots: seq<Item>): set<Path>
  {
    {p, q, dir, file} + Paths(roots)
  }

  lemma NestedStays(p: Path, q: Path, dir: Path, file: Path, roots: seq<Item>)
    requires Apart(p, q, dir, file)
    ensures var u := NestedUniverse(p, q, dir, file, roots);
            Universe(Nested(p, q, dir, file), u) && AllIn(roots, u)
  {
    forall k | 0 <= k < |roots| ensures roots[k].path in Paths(roots) {
    }
  }

  /** The search of that world records nothing. */
  lemma NestedLost(p: Path, q: Path, dir: Path, file: Path, roots: seq<Item>, k: nat)
    requires Apart(p, q, dir, file) && FirstFlat(roots, q, k)
    requires forall x :: x in roots ==> x.path != dir && x.path != file
    ensures var w, u := Nested(p, q, dir, file), NestedUniverse(p, q, dir, file, roots);
            && Universe(w, u) && AllIn(roots, u)
            && Discover(w, u, roots, Search({}, [], [])).libs == []
  {
    var w, u := Nested(p, q, dir, file), NestedUniverse(p, q, dir, file, roots);
    NestedStays(p, q, dir, file, roots);
    NestedRound(p, q, dir, file, roots, k, |roots|);
    assert roots[..|roots|] == roots;
    FrontierVisited(w, {}, roots);
    assert roots[k].path in Paths(roots);
    OneRound(w, u, roots);
  }

  /** A first round that finds no file and leads nowhere new is the last to find anything. */
  lemma OneRound(w: World, u: set<Path>, roots: seq<Item>)
    requires Universe(w, u) && AllIn(roots, u) && roots != []
    requires var b := Expand(w, {}, roots); b.work.files == [] && forall x :: x in b.work.dirs ==> x.path in b.visited
    ensures Discover(w, u, roots, Search({}, [], [])).libs == []
  {
    var s := Search({}, [], []);
    var b, t, next := Expand(w, {}, roots), After(w, s, roots), NextFrontier(w, s, roots);
    RoundStays(w, u, roots, s);
    RoundProgress(w, u, roots, s);
    assert next == b.work.dirs + [];
    LastRound(w, u, next, t);
  }

  lemma LastRound(w: World, u: set<Path>, frontier: seq<Item>, s: Search)
    requires Universe(w, u) && AllIn(frontier, u) && s.visited <= u
    requires forall x :: x in frontier ==> x.path in s.visited
    ensures Discover(w, u, frontier, s).libs == s.libs
  {
    if frontier != [] {
      NothingLeft(w, s.visited, frontier);
      RoundStays(w, u, frontier, s);
      RoundProgress(w, u, frontier, s);
      assert NextFrontier(w, s, frontier) == [];
      assert After(w, s, frontier).libs == s.libs + [];
    }
  }

  lemma NestedTrail(p: Path, q: Path, dir: Path, file: Path, roots: seq<Item>)
    requires Apart(p, q, dir, file) && Item(p, true) in roots
    ensures !FindsAll(Nested(p, q, dir, file), roots, [])
  {
    var w := Nested(p, q, dir, file);
    var trail := if p == q then [q, dir, file] else [p, q, dir, file];
    assert Gives(w, roots, trail, Lost);
  }

  /** A library directory two levels above a library, below a recursive path: nothing is found. */
  lemma LibraryLost() returns (w: World, u: set<Path>, roots: seq<Item>, trail: seq<Path>)
    ensures w == Nested("/p", "/p/q", "/p/q/c", "/p/q/c/libx.so")
    ensures roots == Items(["/p"], true) + Items(["/p/q"], false)
    ensures trail == ["/p", "/p/q", "/p/q/c", "/p/q/c/libx.so"] && Gives(w, roots, trail, Lost)
    ensures Universe(w, u) && AllIn(roots, u) && Discover(w, u, roots, Search({}, [], [])).libs == []
  {
    var p, q, dir, file := "/p", "/p/q", "/p/q/c", "/p/q/c/libx.so";
    w, trail := Nested(p, q, dir, file), [p, q, dir, file];
    roots := Items([p], true) + Items([q], false);
    assert |p| == 2 && |q| == 4 && |dir| == 6 && |file| == 14;
    u := NestedUniverse(p, q, dir, file, roots);
    assert roots == [Item(p, true), Item(q, false)];
    NestedLost(p, q, dir, file, roots, 1);
    assert Gives(w, roots, trail, Lost);
  }

  /** Whatever the file system, the search finds all it should. */
  ghost predicate AlwaysFindsAll(roots: seq<Item>)
  {
    forall w, u {:trigger Discover(w, u, roots, Search({}, [], []))} :: Universe(w, u) && AllIn(roots, u) ==>
      FindsAll(w, roots, Discover(w, u, roots, Search({}, [], [])).libs)
  }

  lemma {:induction false} FirstOf(roots: seq<Item>, k: nat) returns (j: nat)
    requires k < |roots|
    ensures j <= k && roots[j].path == roots[k].path && forall i :: 0 <= i < j ==> roots[i].path != roots[k].path
  {
    if i :| 0 <= i < k && roots[i].path == roots[k].path {
      j := FirstOf(roots, i);
    } else {
      j := k;
    }
  }

  lemma MixedLoses(roots: seq<Item>, m: nat, k: nat)
    requires m < |roots| && roots[m].recursive
    requires k < |roots| && !roots[k].recursive && !Repeats(roots, {}, k)
    ensures !AlwaysFindsAll(roots)
  {
    var p, q, dir, file := roots[m].path, roots[k].path, Fresh(roots, 0), Fresh(roots, 1);
    assert Item(p, true) == roots[m];
    NestedLost(p, q, dir, file, roots, k);
    NestedTrail(p, q, dir, file, roots);
    var w, u := Nested(p, q, dir, file), NestedUniverse(p, q, dir, file, roots);
    assert Discover(w, u, roots, Search({}, [], [])).libs == [];
  }

  /** The search finds every shared object under the recursive roots of every file
      system exactly when no root is recursive, or each is so on its first occurrence. */
  lemma FindsAllIff(roots: seq<Item>)
    ensures AlwaysFindsAll(roots) <==> FirstRecursive(roots, {}) || forall x :: x in roots ==> !x.recursive
  {
    if FirstRecursive(roots, {}) || forall x :: x in roots ==> !x.recursive {
      forall w, u | Universe(w, u) && AllIn(roots, u)
        ensures FindsAll(w, roots, Discover(w, u, roots, Search({}, [], [])).libs)
      {
        RecursiveFindsAll(w, u, roots);
      }
    } else {
      var x :| x in roots && x.recursive;
      var m :| 0 <= m < |roots| && roots[m] == x;
      var k :| 0 <= k < |roots| && !roots[k].recursive && !Repeats(roots, {}, k);
      MixedLoses(roots, m, k);
    }
  }

  /** The roots of a run: the paths, with its flag, and then the libraries' directories. */
  lemma RunFindsAllIff(paths: seq<Path>, recursive: bool, libs: seq<Path>)
    ensures AlwaysFindsAll(Items(paths, recursive) + Items(libs, false))
            <==> !recursive || paths == [] || forall d :: d in libs ==> d in paths
  {
    var a, b := Items(paths, recursive), Items(libs, false);
    var roots := a + b;
    FindsAllIff(roots);
    if recursive && paths != [] {
      assert roots[0] == a[0] && roots[0] in roots;
      if FirstRecursive(roots, {}) {
        forall d | d in libs ensures d in paths {
          LibRepeats(paths, libs, d);
        }
      }
      if forall d :: d in libs ==> d in paths {
        forall k | 0 <= k < |roots| ensures roots[k].recursive || Repeats(roots, {}, k) {
          if k >= |a| {
            assert roots[k] == b[k - |a|] && libs[k - |a|] in libs;
            var j :| 0 <= j < |paths| && paths[j] == roots[k].path;
            assert roots[j].path == roots[k].path;
          }
        }
      }
    }
  }

  lemma LibRepeats(paths: seq<Path>, libs: seq<Path>, d: Path)
    requires FirstRecursive(Items(paths, true) + Items(libs, false), {}) && d in libs
    ensures d in paths
  {
    var a, roots := Items(paths, true), Items(paths, true) + Items(libs, false);
    var i :| 0 <= i < |libs| && libs[i] == d;
    var k := FirstOf(roots, |a| + i);
    assert roots[|a| + i] == Item(d, false);
    assert roots[k].recursive || Repeats(roots, {}, k);
    assert k < |a|;
  }
}
