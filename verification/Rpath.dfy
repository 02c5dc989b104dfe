/** The rpath operations (src/rpath.rs): what setting, reading, adding and removing
    do to the dynamic array and its string table, and how they undo each other. */
module Rpath {
  import opened Bytes
  import opened Ir
  import opened DynStrings

  predicate IsPath(d: DynEntry)
  {
    d.tag == DT_RPATH || d.tag == DT_RUNPATH
  }

  /** Entries before the first `DT_NULL`. */
  function Live(ds: seq<DynEntry>): (n: nat)
    ensures n <= |ds| && (forall j :: 0 <= j < n ==> ds[j].tag != DT_NULL) && (n < |ds| ==> ds[n].tag == DT_NULL)
  {
    if ds == [] || ds[0].tag == DT_NULL then 0 else 1 + Live(ds[1..])
  }

  lemma LiveIs(ds: seq<DynEntry>, n: nat)
    requires n <= |ds| && (forall j :: 0 <= j < n ==> ds[j].tag != DT_NULL) && (n < |ds| ==> ds[n].tag == DT_NULL)
    ensures Live(ds) == n
  {
    if n < Live(ds) {
    } else if Live(ds) < n {
    }
  }

  // ---- Reading ----

  function Text(tab: seq<byte>, off: nat): seq<byte>
  {
    match CStr(tab, off) case None => [] case Some(s) => s
  }

  /** Scan for the first `DT_RUNPATH`, remembering the last `DT_RPATH` so far. */
  function Scan(ds: seq<DynEntry>, tab: seq<byte>, rpath: seq<byte>): seq<byte>
    decreases |ds|
  {
    if ds == [] || ds[0].tag == DT_NULL then rpath
    else if ds[0].tag == DT_RUNPATH then Text(tab, ds[0].val)
    else if ds[0].tag == DT_RPATH then Scan(ds[1..], tab, Text(tab, ds[0].val))
    else Scan(ds[1..], tab, rpath)
  }

  function Read(v: Image): Result<seq<byte>>
  {
    if v.dynamic == [] then Err(MissingError)
    else match v.Dynstr() case None => Ok([]) case Some(tab) => Ok(Scan(v.dynamic, tab, []))
  }

  /** The scanning loop. */
  method ReadPath(v: Image) returns (r: Result<seq<byte>>)
    ensures r == Read(v)
  {
    if v.dynamic == [] {
      return Err(MissingError);
    }
    var found := v.Dynstr();
    if found.None? {
      return Ok([]);
    }
    var tab := found.value;
    var rpath: seq<byte> := [];
    for j := 0 to |v.dynamic|
      invariant Scan(v.dynamic, tab, []) == Scan(v.dynamic[j..], tab, rpath)
    {
      var d := v.dynamic[j];
      assert v.dynamic[j..][0] == d && v.dynamic[j..][1..] == v.dynamic[j + 1..];
      if d.tag == DT_RUNPATH {
        return Ok(Text(tab, d.val));
      } else if d.tag == DT_RPATH {
        rpath := Text(tab, d.val);
      } else if d.tag == DT_NULL {
        return Ok(rpath);
      }
    }
    r := Ok(rpath);
  }

  /** The first `n` entries come before any null. */
  ghost predicate Before(ds: seq<DynEntry>, n: nat)
  {
    n <= |ds| && (forall i :: 0 <= i < n ==> ds[i].tag != 0) && (n < |ds| ==> ds[n].tag == 0)
  }

  ghost predicate FirstOf(ds: seq<DynEntry>, n: nat, tag: i64, j: nat)
    requires n <= |ds|
  {
    j < n && ds[j].tag == tag && forall i :: 0 <= i < j ==> ds[i].tag != tag
  }

  ghost predicate LastOf(ds: seq<DynEntry>, n: nat, tag: i64, j: nat)
    requires n <= |ds|
  {
    j < n && ds[j].tag == tag && forall i :: j < i < n ==> ds[i].tag != tag
  }

  ghost predicate NoneOf(ds: seq<DynEntry>, n: nat, tag: i64)
    requires n <= |ds|
  {
    forall i :: 0 <= i < n ==> ds[i].tag != tag
  }

  /** What is read: the first `DT_RUNPATH` (29) there is, or else the last `DT_RPATH` (15). */
  lemma {:induction false} PathReads(ds: seq<DynEntry>, tab: seq<byte>, acc: seq<byte>, n: nat, j: nat)
    requires Before(ds, n)
    ensures FirstOf(ds, n, 29, j) ==> Scan(ds, tab, acc) == Text(tab, ds[j].val)
    ensures NoneOf(ds, n, 29) && LastOf(ds, n, 15, j) ==> Scan(ds, tab, acc) == Text(tab, ds[j].val)
    ensures NoneOf(ds, n, 29) && NoneOf(ds, n, 15) ==> Scan(ds, tab, acc) == acc
    decreases |ds|
  {
    if n > 0 && ds[0].tag != 29 {
      var acc' := if ds[0].tag == 15 then Text(tab, ds[0].val) else acc;
      var rest := ds[1..];
      assert forall i :: 0 <= i < |rest| ==> rest[i] == ds[i + 1];
      assert Scan(ds, tab, acc) == Scan(rest, tab, acc');
      PathReads(rest, tab, acc', n - 1, if j > 0 then j - 1 else 0);
      ShiftedFirst(ds, n, j);
    }
  }

  lemma ShiftedFirst(ds: seq<DynEntry>, n: nat, j: nat)
    requires 0 < n <= |ds|
    ensures FirstOf(ds, n, 29, j) && j > 0 ==> FirstOf(ds[1..], n - 1, 29, j - 1)
    ensures NoneOf(ds, n, 29) ==> NoneOf(ds[1..], n - 1, 29)
    ensures NoneOf(ds, n, 15) ==> NoneOf(ds[1..], n - 1, 15)
    ensures LastOf(ds, n, 15, j) ==> if j > 0 then LastOf(ds[1..], n - 1, 15, j - 1) else NoneOf(ds[1..], n - 1, 15)
  {
  }

  // ---- Setting ----

  /** The live entries that hold the search path. */
  function Existing(ds: seq<DynEntry>): (r: seq<bool>)
    ensures |r| == |ds| && forall j :: 0 <= j < |ds| ==> r[j] == (j < Live(ds) && IsPath(ds[j]))
  {
    seq(|ds|, j requires 0 <= j < |ds| => j < Live(ds) && IsPath(ds[j]))
  }

  predicate HasRunpath(ds: seq<DynEntry>)
  {
    exists j :: 0 <= j < Live(ds) && ds[j].tag == DT_RUNPATH
  }

  function Wanted(force: bool): i64
  {
    if force then DT_RPATH else DT_RUNPATH
  }

  /** Whether the entries' tags must change: none is the preferred one yet. */
  predicate Converts(ds: seq<DynEntry>, force: bool)
  {
    if force then HasRunpath(ds) else !HasRunpath(ds)
  }

  function Reuse(ds: seq<DynEntry>): Option<nat>
  {
    match FirstTrue(Existing(ds)) case None => None case Some(j) => Some(ds[j].val)
  }

  function Repointed(ds: seq<DynEntry>, force: bool, off: nat): (r: seq<DynEntry>)
    ensures |r| == |ds|
  {
    seq(|ds|, j requires 0 <= j < |ds| =>
      if Existing(ds)[j] then DynEntry(if Converts(ds, force) then Wanted(force) else ds[j].tag, off) else ds[j])
  }

  function WithPath(ds: seq<DynEntry>, force: bool, off: nat): seq<DynEntry>
  {
    if FirstTrue(Existing(ds)).None? then [DynEntry(Wanted(force), off)] + ds else Repointed(ds, force, off)
  }

  function SetPath(v: Image, value: seq<byte>, force: bool): (r: Result<Image>)
    requires |v.data| == |v.shdrs|
    requires SetOk(v, value)
  {
    if v.dynamic == [] then Err(MissingError)
    else
      match v.FindSection(DYNSTR)
      case None => Err(MissingError)
      case Some(s) =>
        var r := Set(v.data[s], Reuse(v.dynamic), value);
        Ok(v.(data := v.data[s := r.tab], dynamic := WithPath(v.dynamic, force, r.off)))
  }

  /** The slot to reuse, if the value fits it, has its NUL inside the table. */
  predicate SetOk(v: Image, value: seq<byte>)
    requires |v.data| == |v.shdrs|
  {
    match v.FindSection(DYNSTR)
    case None => true
    case Some(s) => SlotOk(v.data[s], Reuse(v.dynamic), value)
  }

  /** `set`, in place. */
  method SetRpath(image: ElfImage, value: seq<byte>, force: bool) returns (r: Result<()>)
    requires |image.data| == |image.shdrs| && SetOk(image.View(), value)
    modifies image
    ensures match SetPath(old(image.View()), value, force)
            case Err(e) => r == Err(e) && image.View() == old(image.View())
            case Ok(w) => r == Ok(()) && image.View() == w
  {
    if image.dynamic == [] {
      return Err(MissingError);
    }
    var found := image.View().FindSection(DYNSTR);
    if found.None? {
      return Err(MissingError);
    }
    var ds := image.dynamic;
    var existing := Existing(ds);
    var first := FirstTrue(existing);
    var converts := Converts(ds, force);
    for j := 0 to |ds|
      invariant image.View() == old(image.View()).(dynamic := image.dynamic) && |image.dynamic| == |ds|
      invariant forall k :: 0 <= k < j ==>
        image.dynamic[k] == (if existing[k] && converts then ds[k].(tag := Wanted(force)) else ds[k])
      invariant forall k :: j <= k < |ds| ==> image.dynamic[k] == ds[k]
    {
      if converts && existing[j] {
        image.dynamic := image.dynamic[j := ds[j].(tag := Wanted(force))];
      }
    }
    ghost var tagged := image.dynamic;
    var stored := SetInPlace(image.data[found.value], Reuse(ds), value);
    image.data := image.data[found.value := stored.tab];
    if first.None? {
      assert image.dynamic == ds;
      image.dynamic := [DynEntry(Wanted(force), stored.off)] + image.dynamic;
    } else {
      for j := 0 to |ds|
        invariant image.View() == old(image.View()).(data := image.data, dynamic := image.dynamic)
                  && |image.dynamic| == |ds|
        invariant image.data == old(image.data)[found.value := stored.tab]
        invariant forall k :: 0 <= k < j ==>
          image.dynamic[k] == (if existing[k] then tagged[k].(val := stored.off) else tagged[k])
        invariant forall k :: j <= k < |ds| ==> image.dynamic[k] == tagged[k]
      {
        if existing[j] {
          image.dynamic := image.dynamic[j := image.dynamic[j].(val := stored.off)];
        }
      }
      assert image.dynamic == Repointed(ds, force, stored.off);
    }
    r := Ok(());
  }

  // ---- Setting, then reading ----

  /** Every live path entry points at `off`. */
  ghost predicate AllAt(ds: seq<DynEntry>, off: nat)
  {
    forall j :: 0 <= j < Live(ds) && IsPath(ds[j]) ==> ds[j].val == off
  }

  ghost predicate HasPath(ds: seq<DynEntry>)
  {
    exists j :: 0 <= j < Live(ds) && IsPath(ds[j])
  }

  lemma {:induction false} ScanFinds(ds: seq<DynEntry>, tab: seq<byte>, acc: seq<byte>, off: nat)
    requires AllAt(ds, off) && (HasPath(ds) || acc == Text(tab, off))
    ensures Scan(ds, tab, acc) == Text(tab, off)
    decreases |ds|
  {
    if ds != [] && ds[0].tag != DT_NULL && ds[0].tag != DT_RUNPATH {
      forall j | 0 <= j < Live(ds[1..]) && IsPath(ds[1..][j]) ensures ds[1..][j].val == off {
        assert ds[1..][j] == ds[j + 1];
      }
      if ds[0].tag != DT_RPATH && HasPath(ds) {
        var j :| 0 <= j < Live(ds) && IsPath(ds[j]);
        assert ds[1..][j - 1] == ds[j];
      }
      ScanFinds(ds[1..], tab, if ds[0].tag == DT_RPATH then Text(tab, ds[0].val) else acc, off);
    }
  }

  /** After a set every live path entry points at the new string, and there is one. */
  lemma WithPathAll(ds: seq<DynEntry>, force: bool, off: nat)
    ensures var r := WithPath(ds, force, off);
            && r != [] && AllAt(r, off) && HasPath(r)
            && HasRunpath(r) == !force
  {
    WithPathLive(ds, force, off);
    var r := WithPath(ds, force, off);
    match FirstTrue(Existing(ds)) {
      case None =>
        assert r[0] == DynEntry(Wanted(force), off);
        forall j | 0 < j < Live(r) ensures !IsPath(r[j]) {
          assert r[j] == ds[j - 1];
          assert !Existing(ds)[j - 1];
        }
        assert HasPath(r);
      case Some(k) =>
        assert r[k].val == off && IsPath(r[k]);
        if !force && !Converts(ds, force) {
          var j :| 0 <= j < Live(ds) && ds[j].tag == DT_RUNPATH;
          assert r[j].tag == DT_RUNPATH;
        } else if !force {
          assert r[k].tag == DT_RUNPATH;
        }
    }
  }

  lemma WithPathLive(ds: seq<DynEntry>, force: bool, off: nat)
    ensures Live(WithPath(ds, force, off)) == Live(ds) + if FirstTrue(Existing(ds)).None? then 1 else 0
  {
    var r := WithPath(ds, force, off);
    if FirstTrue(Existing(ds)).Some? {
      LiveIs(r, Live(ds));
    } else {
      LiveIs(r, Live(ds) + 1);
    }
  }

  /** The table `.dynamic` links to is `.dynstr`, which does not hold the section names. */
  ghost predicate Linked(v: Image, s: nat)
  {
    && |v.data| == |v.shdrs| && v.FindSection(DYNSTR) == Some(s) && s != v.ehdr.shstrndx
    && v.DynIdx().Some? && v.shdrs[v.DynIdx().value].link == s && v.shdrs[s].shtype == SHT_STRTAB
  }

  lemma LinkedKept(v: Image, s: nat, tab: seq<byte>, ds: seq<DynEntry>)
    requires Linked(v, s)
    ensures var w := v.(data := v.data[s := tab], dynamic := ds); Linked(w, s) && w.Dynstr() == Some(tab)
  {
    var w := v.(data := v.data[s := tab], dynamic := ds);
    assert w.Named(DYNSTR) == v.Named(DYNSTR);
  }

  /** Setting, then reading, returns the value set, under both tag policies. */
  lemma SetThenRead(v: Image, s: nat, value: seq<byte>, force: bool)
    requires Linked(v, s) && v.dynamic != [] && SetOk(v, value) && 0 !in value
    ensures SetPath(v, value, force).Ok? && Read(SetPath(v, value, force).value) == Ok(value)
  {
    var r := Set(v.data[s], Reuse(v.dynamic), value);
    var ds := WithPath(v.dynamic, force, r.off);
    LinkedKept(v, s, r.tab, ds);
    SetReads(v.data[s], Reuse(v.dynamic), value);
    WithPathAll(v.dynamic, force, r.off);
    ScanFinds(ds, r.tab, [], r.off);
  }

  /** After a set no `DT_RUNPATH` is left if the old tag is asked for, and one is there
      if not; a path entry there is, before any null. */
  lemma SetTags(v: Image, s: nat, value: seq<byte>, force: bool, n: nat)
    requires Linked(v, s) && v.dynamic != [] && SetOk(v, value)
    ensures SetPath(v, value, force).Ok?
    ensures var ds := SetPath(v, value, force).value.dynamic;
            Before(ds, n) ==> if force then NoneOf(ds, n, 29) && !NoneOf(ds, n, 15) else !NoneOf(ds, n, 29)
  {
    var r := Set(v.data[s], Reuse(v.dynamic), value);
    WithPathAll(v.dynamic, force, r.off);
    var ds := SetPath(v, value, force).value.dynamic;
    if Before(ds, n) {
      LiveIs(ds, n);
    }
  }

  /** Setting the same value again changes nothing. */
  lemma SetTwice(v: Image, s: nat, value: seq<byte>, force: bool)
    requires Linked(v, s) && v.dynamic != [] && SetOk(v, value) && 0 !in value
    ensures SetPath(v, value, force).Ok?
    ensures var w := SetPath(v, value, force).value;
            |w.data| == |w.shdrs| && SetOk(w, value) && SetPath(w, value, force) == Ok(w)
  {
    var r := Set(v.data[s], Reuse(v.dynamic), value);
    var ds := WithPath(v.dynamic, force, r.off);
    LinkedKept(v, s, r.tab, ds);
    SetAgain(v.data[s], Reuse(v.dynamic), value);
    WithPathAll(v.dynamic, force, r.off);
    WithPathAgain(ds, force, r.off);
    var w := SetPath(v, value, force).value;
    assert w.data[s := r.tab] == w.data;
  }

  lemma WithPathAgain(ds: seq<DynEntry>, force: bool, off: nat)
    requires AllAt(ds, off) && HasPath(ds) && HasRunpath(ds) == !force
    ensures Reuse(ds) == Some(off) && WithPath(ds, force, off) == ds
  {
    var j :| 0 <= j < Live(ds) && IsPath(ds[j]);
    assert Existing(ds)[j];
    assert !Converts(ds, force);
    assert Repointed(ds, force, off) == ds;
  }

  /** Every other tag keeps its entry, and the terminated string it names keeps its
      value if and only if it agrees with what is written into a reused slot. */
  lemma SetKeepsOthers(v: Image, s: nat, value: seq<byte>, force: bool, j: nat)
    requires Linked(v, s) && SetOk(v, value) && j < |v.dynamic| && !IsPath(v.dynamic[j])
    requires Ends(v.data[s], v.dynamic[j].val)
    ensures SetPath(v, value, force).Ok?
    ensures var w := SetPath(v, value, force).value;
            var k := if FirstTrue(Existing(v.dynamic)).None? then j + 1 else j;
            && k < |w.dynamic| && w.dynamic[k] == v.dynamic[j] && |w.data| == |v.data|
            && (CStr(w.data[s], w.dynamic[k].val) == CStr(v.data[s], v.dynamic[j].val)
                <==> (Fits(v.data[s], Reuse(v.dynamic), value) ==>
                        Agrees(v.data[s], v.dynamic[j].val, Reuse(v.dynamic).value, value)))
  {
    SetKeeps(v.data[s], Reuse(v.dynamic), value, v.dynamic[j].val);
  }

  // ---- Adding ----

  const COLON: seq<byte> := Ascii(":")

  /** The current path with another directory appended. */
  function Joined(cur: seq<byte>, path: seq<byte>): seq<byte>
  {
    if cur == [] then path else cur + COLON + path
  }

  /** `add`: read, join, set. */
  method AddRpath(image: ElfImage, path: seq<byte>, force: bool) returns (r: Result<()>)
    requires |image.data| == |image.shdrs|
    requires Read(image.View()).Ok? ==> SetOk(image.View(), Joined(Read(image.View()).value, path))
    modifies image
    ensures var v := old(image.View());
            match Read(v)
            case Err(e) => r == Err(e) && image.View() == v
            case Ok(cur) => (match SetPath(v, Joined(cur, path), force)
                             case Err(e) => r == Err(e) && image.View() == v
                             case Ok(w) => r == Ok(()) && image.View() == w)
  {
    var cur := ReadPath(image.View());
    if cur.Err? {
      return Err(cur.error);
    }
    r := SetRpath(image, Joined(cur.value, path), force);
  }

  /** What was added is read after what was there. */
  lemma AddThenRead(v: Image, s: nat, path: seq<byte>, force: bool)
    requires Linked(v, s) && v.dynamic != [] && 0 !in path
    requires SetOk(v, Joined(Read(v).value, path))
    ensures Read(v).Ok? && SetPath(v, Joined(Read(v).value, path), force).Ok?
    ensures Read(SetPath(v, Joined(Read(v).value, path), force).value) == Ok(Joined(Read(v).value, path))
  {
    var tab := v.Dynstr().value;
    ScanClean(v.dynamic, tab, []);
    assert COLON[0] == ':' as int;
    SetThenRead(v, s, Joined(Read(v).value, path), force);
  }

  lemma {:induction false} ScanClean(ds: seq<DynEntry>, tab: seq<byte>, acc: seq<byte>)
    requires 0 !in acc
    ensures 0 !in Scan(ds, tab, acc)
    decreases |ds|
  {
    if ds != [] && ds[0].tag != DT_NULL {
      TextClean(tab, ds[0].val);
      if ds[0].tag == DT_RPATH {
        ScanClean(ds[1..], tab, Text(tab, ds[0].val));
      } else if ds[0].tag != DT_RUNPATH {
        ScanClean(ds[1..], tab, acc);
      }
    }
  }

  lemma TextClean(tab: seq<byte>, off: nat)
    ensures 0 !in Text(tab, off)
  {
  }

  // ---- Removing ----

  function Kept(ds: seq<DynEntry>): (r: seq<DynEntry>)
    ensures forall j :: 0 <= j < |r| ==> !IsPath(r[j])
  {
    if ds == [] then []
    else Kept(ds[..|ds| - 1]) + if IsPath(ds[|ds| - 1]) then [] else [ds[|ds| - 1]]
  }

  /** How many entries are no search path (`DT_RPATH` 15, `DT_RUNPATH` 29). */
  function Others(ds: seq<DynEntry>): nat
  {
    if ds == [] then 0
    else
      var last := ds[|ds| - 1];
      Others(ds[..|ds| - 1]) + if last.tag == 15 || last.tag == 29 then 0 else 1
  }

  /** `e` is entry `k` of `ds`. */
  ghost predicate EntryIs(ds: seq<DynEntry>, k: nat, e: DynEntry)
  {
    k < |ds| && ds[k] == e
  }

  /** Every other entry stays, behind the others that were before it, and nothing else does. */
  lemma {:induction false} KeptExactly(ds: seq<DynEntry>)
    ensures |Kept(ds)| == Others(ds)
    ensures forall j :: 0 <= j < |ds| && ds[j].tag != 15 && ds[j].tag != 29 ==>
              EntryIs(Kept(ds), Others(ds[..j]), ds[j])
  {
    if ds != [] {
      var n := |ds| - 1;
      KeptExactly(ds[..n]);
      forall j | 0 <= j < |ds| && ds[j].tag != 15 && ds[j].tag != 29
        ensures EntryIs(Kept(ds), Others(ds[..j]), ds[j])
      {
        if j < n {
          assert ds[..n][..j] == ds[..j] && ds[..n][j] == ds[j];
          assert EntryIs(Kept(ds[..n]), Others(ds[..j]), ds[j]);
        }
      }
    }
  }

  method RemoveRpath(image: ElfImage)
    modifies image
    ensures image.View() == old(image.View()).(dynamic := Kept(old(image.dynamic)))
  {
    var out: seq<DynEntry> := [];
    for j := 0 to |image.dynamic|
      invariant out == Kept(image.dynamic[..j])
    {
      assert image.dynamic[..j + 1][..j] == image.dynamic[..j];
      if !IsPath(image.dynamic[j]) {
        out := out + [image.dynamic[j]];
      }
    }
    assert image.dynamic[..|image.dynamic|] == image.dynamic;
    image.dynamic := out;
  }

  lemma {:induction false} ScanNone(ds: seq<DynEntry>, tab: seq<byte>, acc: seq<byte>)
    requires forall j :: 0 <= j < |ds| ==> !IsPath(ds[j])
    ensures Scan(ds, tab, acc) == acc
    decreases |ds|
  {
    if ds != [] && ds[0].tag != DT_NULL {
      ScanNone(ds[1..], tab, acc);
    }
  }

  /** After a removal nothing is read. */
  lemma RemoveThenRead(v: Image)
    ensures var w := v.(dynamic := Kept(v.dynamic)); w.dynamic != [] ==> Read(w) == Ok([])
  {
    var w := v.(dynamic := Kept(v.dynamic));
    if w.Dynstr().Some? {
      ScanNone(w.dynamic, w.Dynstr().value, []);
    }
  }
}
