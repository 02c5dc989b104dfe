/** Edits of `DT_NEEDED` and `DT_SONAME` (src/ops.rs), and what is read after them. */
module Needed {
  import opened Bytes
  import opened Ir
  import opened DynStrings
  import opened Rpath

  predicate IsNeeded(d: DynEntry)
  {
    d.tag == DT_NEEDED
  }

  /** One entry's library name, if it is a readable `DT_NEEDED`. */
  function NameIn(d: DynEntry, tab: seq<byte>): seq<seq<byte>>
  {
    if !IsNeeded(d) then [] else match CStr(tab, d.val) case None => [] case Some(s) => [s]
  }

  /** The library names in order, up to `DT_NULL`. */
  function Libs(ds: seq<DynEntry>, tab: seq<byte>): seq<seq<byte>>
  {
    if ds == [] || ds[0].tag == DT_NULL then [] else NameIn(ds[0], tab) + Libs(ds[1..], tab)
  }

  /** How many of the first `j` entries are a `DT_NEEDED` (1) with a readable name. */
  function Listed(ds: seq<DynEntry>, tab: seq<byte>, j: nat): nat
    requires j <= |ds|
  {
    if j == 0 then 0
    else (if ds[0].tag == 1 && CStr(tab, ds[0].val).Some? then 1 else 0) + Listed(ds[1..], tab, j - 1)
  }

  /** The names read are those of the `DT_NEEDED` entries before any null, in order. */
  lemma {:induction false} LibsListed(ds: seq<DynEntry>, tab: seq<byte>, n: nat, j: nat)
    requires Before(ds, n)
    ensures |Libs(ds, tab)| == Listed(ds, tab, n)
    ensures j < n && ds[j].tag == 1 && CStr(tab, ds[j].val).Some? ==>
              Listed(ds, tab, j) < |Libs(ds, tab)| && Libs(ds, tab)[Listed(ds, tab, j)] == CStr(tab, ds[j].val).value
    decreases |ds|
  {
    if n > 0 {
      var rest := ds[1..];
      assert forall i :: 0 <= i < |rest| ==> rest[i] == ds[i + 1];
      LibsListed(rest, tab, n - 1, if j > 0 then j - 1 else 0);
    }
  }

  function NeededOf(v: Image): Result<seq<seq<byte>>>
  {
    if v.dynamic == [] then Err(MissingError)
    else match v.Dynstr() case None => Ok([]) case Some(tab) => Ok(Libs(v.dynamic, tab))
  }

  // ---- The edits ----

  function Added(v: Image, lib: seq<byte>): Result<Image>
    requires |v.data| == |v.shdrs|
  {
    if v.dynamic == [] || v.FindSection(DYNSTR).None? then Err(MissingError)
    else
      var s := v.FindSection(DYNSTR).value;
      var r := Append(v.data[s], lib);
      Ok(v.(data := v.data[s := r.tab], dynamic := [DynEntry(DT_NEEDED, r.off)] + v.dynamic))
  }

  /** Whether an entry names `lib`. */
  predicate Names(d: DynEntry, tab: seq<byte>, lib: seq<byte>)
  {
    IsNeeded(d) && CStr(tab, d.val) == Some(lib)
  }

  function Without(ds: seq<DynEntry>, tab: seq<byte>, lib: seq<byte>): seq<DynEntry>
  {
    if ds == [] then [] else (if Names(ds[0], tab, lib) then [] else [ds[0]]) + Without(ds[1..], tab, lib)
  }

  function Removed(v: Image, lib: seq<byte>): Result<Image>
    requires |v.data| == |v.shdrs|
  {
    if v.dynamic == [] || v.FindSection(DYNSTR).None? then Err(MissingError)
    else Ok(v.(dynamic := Without(v.dynamic, v.data[v.FindSection(DYNSTR).value], lib)))
  }

  function Renamed(ds: seq<DynEntry>, tab: seq<byte>, lib: seq<byte>, off: nat): (r: seq<DynEntry>)
    ensures |r| == |ds|
  {
    seq(|ds|, j requires 0 <= j < |ds| => if Names(ds[j], tab, lib) then ds[j].(val := off) else ds[j])
  }

  predicate AnyNames(ds: seq<DynEntry>, tab: seq<byte>, lib: seq<byte>)
  {
    exists j :: 0 <= j < |ds| && Names(ds[j], tab, lib)
  }

  function Replaced(v: Image, lib: seq<byte>, other: seq<byte>): Result<Image>
    requires |v.data| == |v.shdrs|
  {
    if v.dynamic == [] || v.FindSection(DYNSTR).None? then Err(MissingError)
    else
      var s := v.FindSection(DYNSTR).value;
      if !AnyNames(v.dynamic, v.data[s], lib) then Ok(v)
      else
        var r := Append(v.data[s], other);
        Ok(v.(data := v.data[s := r.tab], dynamic := Renamed(v.dynamic, v.data[s], lib, r.off)))
  }

  // ---- In place ----

  method AddNeeded(image: ElfImage, lib: seq<byte>) returns (r: Result<()>)
    requires |image.data| == |image.shdrs|
    modifies image
    ensures match Added(old(image.View()), lib)
            case Err(e) => r == Err(e) && image.View() == old(image.View())
            case Ok(w) => r == Ok(()) && image.View() == w
  {
    var s := image.View().FindSection(DYNSTR);
    if image.dynamic == [] || s.None? {
      return Err(MissingError);
    }
    var off := |image.data[s.value]|;
    image.data := image.data[s.value := image.data[s.value] + lib + [0]];
    image.dynamic := [DynEntry(DT_NEEDED, off)] + image.dynamic;
    r := Ok(());
  }

  /** The string offsets of the entries that name `lib`. */
  ghost predicate AreTargets(targets: seq<nat>, ds: seq<DynEntry>, tab: seq<byte>, lib: seq<byte>)
  {
    forall v: nat :: v in targets <==> exists k :: 0 <= k < |ds| && ds[k].val == v && Names(ds[k], tab, lib)
  }

  method CollectTargets(ds: seq<DynEntry>, tab: seq<byte>, lib: seq<byte>) returns (targets: seq<nat>)
    ensures AreTargets(targets, ds, tab, lib)
  {
    targets := [];
    for j := 0 to |ds|
      invariant forall v: nat :: v in targets <==> exists k :: 0 <= k < j && ds[k].val == v && Names(ds[k], tab, lib)
    {
      if Names(ds[j], tab, lib) {
        targets := targets + [ds[j].val];
      }
    }
  }

  method DropTargets(ds: seq<DynEntry>,
                     targets: seq<nat>, ghost tab: seq<byte>, ghost lib: seq<byte>) returns (out: seq<DynEntry>)
    requires AreTargets(targets, ds, tab, lib)
    ensures out == Without(ds, tab, lib)
  {
    out := [];
    for j := 0 to |ds|
      invariant Without(ds, tab, lib) == out + Without(ds[j..], tab, lib)
    {
      assert ds[j..][0] == ds[j] && ds[j..][1..] == ds[j + 1..];
      TargetNamed(ds, targets, tab, lib, j);
      if !IsNeeded(ds[j]) || ds[j].val !in targets {
        out := out + [ds[j]];
      }
    }
  }

  /** A `DT_NEEDED` entry's offset is a target exactly when it names `lib`. */
  lemma TargetNamed(ds: seq<DynEntry>, targets: seq<nat>, tab: seq<byte>, lib: seq<byte>, j: nat)
    requires AreTargets(targets, ds, tab, lib) && j < |ds|
    ensures IsNeeded(ds[j]) && ds[j].val in targets <==> Names(ds[j], tab, lib)
  {
  }

  method RemoveNeeded(image: ElfImage, lib: seq<byte>) returns (r: Result<()>)
    requires |image.data| == |image.shdrs|
    modifies image
    ensures match Removed(old(image.View()), lib)
            case Err(e) => r == Err(e) && image.View() == old(image.View())
            case Ok(w) => r == Ok(()) && image.View() == w
  {
    var s := image.View().FindSection(DYNSTR);
    if image.dynamic == [] || s.None? {
      return Err(MissingError);
    }
    var targets := CollectTargets(image.dynamic, image.data[s.value], lib);
    var kept := DropTargets(image.dynamic, targets, image.data[s.value], lib);
    image.dynamic := kept;
    r := Ok(());
  }

  method ReplaceNeeded(image: ElfImage, lib: seq<byte>, other: seq<byte>) returns (r: Result<()>)
    requires |image.data| == |image.shdrs|
    modifies image
    ensures match Replaced(old(image.View()), lib, other)
            case Err(e) => r == Err(e) && image.View() == old(image.View())
            case Ok(w) => r == Ok(()) && image.View() == w
  {
    var s := image.View().FindSection(DYNSTR);
    if image.dynamic == [] || s.None? {
      return Err(MissingError);
    }
    var tab, ds := image.data[s.value], image.dynamic;
    if !AnyNames(ds, tab, lib) {
      return Ok(());
    }
    var off := |tab|;
    image.data := image.data[s.value := tab + other + [0]];
    for j := 0 to |ds|
      invariant image.View() == old(image.View()).(data := old(image.data)[s.value := tab + other + [0]],
                                                   dynamic := image.dynamic)
      invariant |image.dynamic| == |ds|
      invariant forall k :: 0 <= k < j ==> image.dynamic[k] == Renamed(ds, tab, lib, off)[k]
      invariant forall k :: j <= k < |ds| ==> image.dynamic[k] == ds[k]
    {
      if Names(ds[j], tab, lib) {
        image.dynamic := image.dynamic[j := ds[j].(val := off)];
      }
    }
    assert image.dynamic == Renamed(ds, tab, lib, off);
    r := Ok(());
  }

  // ---- What is read afterwards ----

  /** The live library names are terminated strings, so appending keeps them. */
  ghost predicate NeededEnd(ds: seq<DynEntry>, tab: seq<byte>)
  {
    forall j :: 0 <= j < |ds| && IsNeeded(ds[j]) ==> Ends(tab, ds[j].val)
  }

  lemma AppendSame(tab: seq<byte>, s: seq<byte>, off: nat)
    requires Ends(tab, off)
    ensures CStr(Append(tab, s).tab, off) == CStr(tab, off)
  {
    SetKeeps(tab, None, s, off);
  }

  lemma {:induction false} LibsKept(ds: seq<DynEntry>, tab: seq<byte>, s: seq<byte>)
    requires NeededEnd(ds, tab)
    ensures Libs(ds, Append(tab, s).tab) == Libs(ds, tab)
    decreases |ds|
  {
    if ds != [] && ds[0].tag != DT_NULL {
      LibsKept(ds[1..], tab, s);
      if IsNeeded(ds[0]) {
        AppendSame(tab, s, ds[0].val);
      }
    }
  }

  /** An added library is read first, before those that were there. */
  lemma AddThenNeeded(v: Image, s: nat, lib: seq<byte>)
    requires Linked(v, s) && v.dynamic != [] && NeededEnd(v.dynamic, v.data[s]) && 0 !in lib
    ensures NeededOf(v).Ok? && Added(v, lib).Ok? && NeededOf(Added(v, lib).value) == Ok([lib] + NeededOf(v).value)
  {
    var r := Append(v.data[s], lib);
    var ds := [DynEntry(DT_NEEDED, r.off)] + v.dynamic;
    LinkedKept(v, s, r.tab, ds);
    LinkedKept(v, s, v.data[s], v.dynamic);
    assert v.data[s := v.data[s]] == v.data && v.(data := v.data, dynamic := v.dynamic) == v;
    SetReads(v.data[s], None, lib);
    LibsKept(v.dynamic, v.data[s], lib);
    assert ds[1..] == v.dynamic;
  }

  /** The names that are not `lib`. */
  function Others(libs: seq<seq<byte>>, lib: seq<byte>): seq<seq<byte>>
  {
    if libs == [] then [] else (if libs[0] == lib then [] else [libs[0]]) + Others(libs[1..], lib)
  }

  lemma {:induction false} LibsWithout(ds: seq<DynEntry>, tab: seq<byte>, lib: seq<byte>)
    ensures Libs(Without(ds, tab, lib), tab) == Others(Libs(ds, tab), lib)
    decreases |ds|
  {
    if ds != [] {
      LibsWithout(ds[1..], tab, lib);
      var rest := Without(ds[1..], tab, lib);
      if !Names(ds[0], tab, lib) {
        assert ([ds[0]] + rest)[1..] == rest;
        if ds[0].tag != DT_NULL && NameIn(ds[0], tab) != [] {
          assert (NameIn(ds[0], tab) + Libs(ds[1..], tab))[1..] == Libs(ds[1..], tab);
        } else if ds[0].tag != DT_NULL {
          assert NameIn(ds[0], tab) + Libs(ds[1..], tab) == Libs(ds[1..], tab);
        }
      } else {
        assert (NameIn(ds[0], tab) + Libs(ds[1..], tab))[1..] == Libs(ds[1..], tab);
        assert [] + rest == rest;
      }
    }
  }

  /** A removed library is read no more; the others keep their order. */
  lemma RemoveThenNeeded(v: Image, s: nat, lib: seq<byte>)
    requires Linked(v, s) && v.dynamic != []
    ensures NeededOf(v).Ok? && Removed(v, lib).Ok?
    ensures var w := Removed(v, lib).value; w.dynamic != [] ==> NeededOf(w) == Ok(Others(NeededOf(v).value, lib))
  {
    var ds := Without(v.dynamic, v.data[s], lib);
    LinkedKept(v, s, v.data[s], ds);
    LinkedKept(v, s, v.data[s], v.dynamic);
    assert v.data[s := v.data[s]] == v.data && v.(data := v.data, dynamic := v.dynamic) == v;
    LibsWithout(v.dynamic, v.data[s], lib);
  }

  /** Each `lib` replaced. */
  function Swapped(libs: seq<seq<byte>>, lib: seq<byte>, other: seq<byte>): (r: seq<seq<byte>>)
    ensures |r| == |libs|
  {
    seq(|libs|, k requires 0 <= k < |libs| => if libs[k] == lib then other else libs[k])
  }

  lemma SwappedConcat(a: seq<seq<byte>>, b: seq<seq<byte>>, lib: seq<byte>, other: seq<byte>)
    ensures Swapped(a + b, lib, other) == Swapped(a, lib, other) + Swapped(b, lib, other)
  {
  }

  /** One entry's name after the replacement. */
  lemma NameRenamed(d: DynEntry, tab: seq<byte>, lib: seq<byte>, other: seq<byte>)
    requires IsNeeded(d) ==> Ends(tab, d.val)
    requires 0 !in other
    ensures var r := Append(tab, other);
            NameIn(if Names(d, tab, lib) then d.(val := r.off) else d, r.tab) == Swapped(NameIn(d, tab), lib, other)
  {
    SetReads(tab, None, other);
    if IsNeeded(d) {
      AppendSame(tab, other, d.val);
    }
  }

  lemma {:induction false} LibsRenamed(ds: seq<DynEntry>, tab: seq<byte>, lib: seq<byte>, other: seq<byte>)
    requires NeededEnd(ds, tab) && 0 !in other
    ensures var r := Append(tab, other); Libs(Renamed(ds, tab, lib, r.off), r.tab) == Swapped(Libs(ds, tab), lib, other)
    decreases |ds|
  {
    if ds != [] && ds[0].tag != DT_NULL {
      var r := Append(tab, other);
      LibsRenamed(ds[1..], tab, lib, other);
      assert Renamed(ds, tab, lib, r.off)[1..] == Renamed(ds[1..], tab, lib, r.off);
      NameRenamed(ds[0], tab, lib, other);
      SwappedConcat(NameIn(ds[0], tab), Libs(ds[1..], tab), lib, other);
    }
  }

  lemma {:induction false} NoneToSwap(ds: seq<DynEntry>, tab: seq<byte>, lib: seq<byte>, other: seq<byte>)
    requires !AnyNames(ds, tab, lib)
    ensures Swapped(Libs(ds, tab), lib, other) == Libs(ds, tab)
    decreases |ds|
  {
    if ds != [] && ds[0].tag != DT_NULL {
      assert !Names(ds[0], tab, lib);
      forall j | 0 <= j < |ds[1..]| ensures !Names(ds[1..][j], tab, lib) {
        assert ds[1..][j] == ds[j + 1];
      }
      NoneToSwap(ds[1..], tab, lib, other);
      SwappedConcat(NameIn(ds[0], tab), Libs(ds[1..], tab), lib, other);
    }
  }

  /** A replaced library is read under its new name, at its old place. */
  lemma ReplaceThenNeeded(v: Image, s: nat, lib: seq<byte>, other: seq<byte>)
    requires Linked(v, s) && v.dynamic != [] && NeededEnd(v.dynamic, v.data[s]) && 0 !in other
    ensures NeededOf(v).Ok? && Replaced(v, lib, other).Ok?
    ensures NeededOf(Replaced(v, lib, other).value) == Ok(Swapped(NeededOf(v).value, lib, other))
  {
    var r := Append(v.data[s], other);
    var ds := Renamed(v.dynamic, v.data[s], lib, r.off);
    LinkedKept(v, s, r.tab, ds);
    LinkedKept(v, s, v.data[s], v.dynamic);
    assert v.data[s := v.data[s]] == v.data && v.(data := v.data, dynamic := v.dynamic) == v;
    if AnyNames(v.dynamic, v.data[s], lib) {
      LibsRenamed(v.dynamic, v.data[s], lib, other);
    } else {
      NoneToSwap(v.dynamic, v.data[s], lib, other);
    }
  }

  // ---- The soname ----

  function FirstSoname(ds: seq<DynEntry>): (r: Option<nat>)
    ensures r.Some? ==> r.value < |ds| && ds[r.value].tag == DT_SONAME
    ensures r.Some? ==> forall j :: 0 <= j < r.value ==> ds[j].tag != DT_SONAME
    ensures r.None? ==> forall j :: 0 <= j < |ds| ==> ds[j].tag != DT_SONAME
  {
    var bs := seq(|ds|, j requires 0 <= j < |ds| => ds[j].tag == DT_SONAME);
    assert forall j :: 0 <= j < |ds| ==> bs[j] == (ds[j].tag == DT_SONAME);
    FirstTrue(bs)
  }

  function SonameSlot(ds: seq<DynEntry>): Option<nat>
  {
    match FirstSoname(ds) case None => None case Some(j) => Some(ds[j].val)
  }

  function WithSoname(ds: seq<DynEntry>, off: nat): seq<DynEntry>
  {
    match FirstSoname(ds) case None => [DynEntry(DT_SONAME, off)] + ds case Some(j) => ds[j := ds[j].(val := off)]
  }

  /** The first soname entry's string. */
  function SonameOf(v: Image): Option<seq<byte>>
  {
    if v.ehdr.eType != ET_DYN then None
    else
      match v.Dynstr()
      case None => None
      case Some(tab) =>
        match SonameSlot(v.dynamic)
        case None => None
        case Some(off) => (match CStr(tab, off) case None => None case Some(s) => if s == [] then None else Some(s))
  }

  function SonameSet(v: Image, name: seq<byte>): (r: Result<Image>)
    requires |v.data| == |v.shdrs|
    requires v.FindSection(DYNSTR).Some? ==> SlotOk(v.data[v.FindSection(DYNSTR).value], SonameSlot(v.dynamic), name)
  {
    if v.ehdr.eType != ET_DYN then Ok(v)
    else if v.dynamic == [] || v.FindSection(DYNSTR).None? then Err(MissingError)
    else
      var s := v.FindSection(DYNSTR).value;
      var r := Set(v.data[s], SonameSlot(v.dynamic), name);
      Ok(v.(data := v.data[s := r.tab], dynamic := WithSoname(v.dynamic, r.off)))
  }

  method SetSoname(image: ElfImage, name: seq<byte>) returns (r: Result<()>)
    requires |image.data| == |image.shdrs|
    requires var v := image.View();
             v.FindSection(DYNSTR).Some? ==> SlotOk(v.data[v.FindSection(DYNSTR).value], SonameSlot(v.dynamic), name)
    modifies image
    ensures match SonameSet(old(image.View()), name)
            case Err(e) => r == Err(e) && image.View() == old(image.View())
            case Ok(w) => r == Ok(()) && image.View() == w
  {
    if image.ehdr.eType != ET_DYN {
      return Ok(());
    }
    var s := image.View().FindSection(DYNSTR);
    if image.dynamic == [] || s.None? {
      return Err(MissingError);
    }
    var existing := FirstSoname(image.dynamic);
    var stored := SetInPlace(image.data[s.value], SonameSlot(image.dynamic), name);
    image.data := image.data[s.value := stored.tab];
    if existing.Some? {
      var j := existing.value;
      image.dynamic := image.dynamic[j := image.dynamic[j].(val := stored.off)];
    } else {
      image.dynamic := [DynEntry(DT_SONAME, stored.off)] + image.dynamic;
    }
    r := Ok(());
  }

  lemma WithSonameSlot(ds: seq<DynEntry>, off: nat)
    ensures SonameSlot(WithSoname(ds, off)) == Some(off) && WithSoname(WithSoname(ds, off), off) == WithSoname(ds, off)
  {
  }

  /** A soname that was set is read back, and setting it again changes nothing. */
  lemma SonameSetThenRead(v: Image, s: nat, name: seq<byte>)
    requires Linked(v, s) && v.dynamic != [] && v.ehdr.eType == ET_DYN && 0 !in name && name != []
    requires SlotOk(v.data[s], SonameSlot(v.dynamic), name)
    ensures SonameSet(v, name).Ok? && SonameOf(SonameSet(v, name).value) == Some(name)
    ensures var w := SonameSet(v, name).value;
            && |w.data| == |w.shdrs| && w.FindSection(DYNSTR) == Some(s)
            && SlotOk(w.data[s], SonameSlot(w.dynamic), name) && SonameSet(w, name) == Ok(w)
  {
    var r := Set(v.data[s], SonameSlot(v.dynamic), name);
    var ds := WithSoname(v.dynamic, r.off);
    LinkedKept(v, s, r.tab, ds);
    SetReads(v.data[s], SonameSlot(v.dynamic), name);
    SetAgain(v.data[s], SonameSlot(v.dynamic), name);
    WithSonameSlot(v.dynamic, r.off);
    var w := SonameSet(v, name).value;
    assert w.data[s := r.tab] == w.data;
  }
}
