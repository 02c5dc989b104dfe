/** The layout engine in place on the image (src/layout.rs). Each method is proved
    to compute what module `Layout` specifies. */
module LayoutOps {
  import opened Bytes
  import opened Ir
  import opened Codec
  import opened Align
  import opened Serialize
  import opened Layout

  // ---- Choosing what moves ----

  /** The indices of `all` whose flag is set. */
  function Kept(all: seq<nat>, bs: seq<bool>): seq<nat>
    requires Below(all, |bs|)
  {
    if all == [] then []
    else Kept(all[..|all| - 1], bs) + if bs[all[|all| - 1]] then [all[|all| - 1]] else []
  }

  function Both(a: seq<bool>, b: seq<bool>): (r: seq<bool>)
    requires |a| == |b|
    ensures |r| == |a|
  {
    seq(|a|, i requires 0 <= i < |a| => a[i] && b[i])
  }

  ghost predicate Below(all: seq<nat>, n: nat)
  {
    forall k :: 0 <= k < |all| ==> all[k] < n
  }

  lemma {:induction false} KeptExtends(all: seq<nat>, bs: seq<bool>, cs: seq<bool>)
    requires |bs| <= |cs| && cs[..|bs|] == bs && Below(all, |bs|)
    ensures Kept(all, cs) == Kept(all, bs)
  {
    if all != [] {
      KeptExtends(all[..|all| - 1], bs, cs);
      assert cs[all[|all| - 1]] == cs[..|bs|][all[|all| - 1]];
    }
  }

  lemma KeptSnoc(all: seq<nat>, x: nat, bs: seq<bool>)
    requires Below(all, |bs|) && x < |bs|
    ensures Kept(all + [x], bs) == Kept(all, bs) + if bs[x] then [x] else []
  {
    assert (all + [x])[..|all|] == all;
  }

  lemma IndicesBelow(bs: seq<bool>)
    ensures Below(Indices(bs), |bs|)
  {
    IndicesFacts(bs);
  }

  /** Filtering an ascending index list keeps its order. */
  lemma {:induction false} KeptIndices(a: seq<bool>, b: seq<bool>)
    requires |a| == |b|
    ensures Below(Indices(a), |b|) && Kept(Indices(a), b) == Indices(Both(a, b))
  {
    IndicesBelow(a);
    if a != [] {
      var n := |a| - 1;
      KeptIndices(a[..n], b[..n]);
      assert Both(a, b)[..n] == Both(a[..n], b[..n]);
      KeptExtends(Indices(a[..n]), b[..n], b);
      KeptLast(Indices(a[..n]), a[n], n, b);
    }
  }

  lemma KeptLast(init: seq<nat>, add: bool, n: nat, b: seq<bool>)
    requires Below(init, |b|) && n < |b|
    ensures var all := init + if add then [n] else [];
            Below(all, |b|) && Kept(all, b) == Kept(init, b) + if add && b[n] then [n] else []
  {
    if add {
      KeptSnoc(init, n, b);
    } else {
      assert init + [] == init && Kept(init, b) + [] == Kept(init, b);
    }
  }

  /** Collect the sections to lay out fresh; when reclaiming, drop the loads of a
      region a previous relayout appended. */
  method RelocationSet(image: ElfImage, grown: seq<nat>, reclaim: bool) returns (start: Option<nat>, relocate: seq<nat>)
    requires WellShaped(image.View())
    modifies image
    ensures var v := old(image.View());
            && image.View() == DropPrior(v, reclaim) && start == RegionStart(v, reclaim) && WellShaped(image.View())
            && relocate == Indices(RelocationFlags(image.View(), grown, start))
  {
    start := None;
    if reclaim {
      var prior := PriorLoad(image.View());
      if prior.Some? {
        start := Some(image.phdrs[prior.value].offset);
        image.phdrs := Remove(image.phdrs, prior.value);
        var x := StubLoad(image.View());
        if x.Some? {
          image.phdrs := Remove(image.phdrs, x.value);
        }
      }
    }
    relocate := [];
    ghost var flags := RelocationFlags(image.View(), grown, start);
    for i := 0 to |image.shdrs|
      invariant relocate == Indices(flags[..i])
    {
      assert flags[..i + 1][..i] == flags[..i];
      if Relocates(image.View(), grown, start, i) {
        relocate := relocate + [i];
      }
    }
    assert flags[..|flags|] == flags;
  }

  /** Data sections first, executable ones after. */
  method Partition(image: ElfImage, relocate: seq<nat>, ghost flags: seq<bool>) returns (data: seq<nat>, exec: seq<nat>)
    requires |flags| == |image.shdrs| && relocate == Indices(flags)
    ensures data == Indices(DataFlags(image.View(), flags)) && exec == Indices(ExecFlags(image.View(), flags))
  {
    ghost var code := Code(image.View());
    ghost var rest := seq(|flags|, i requires 0 <= i < |flags| => !code[i]);
    IndicesBelow(flags);
    data, exec := [], [];
    for k := 0 to |relocate|
      invariant data == Kept(relocate[..k], rest) && exec == Kept(relocate[..k], code)
    {
      assert relocate[..k + 1][..k] == relocate[..k];
      if Executable(image.shdrs[relocate[k]]) {
        exec := exec + [relocate[k]];
      } else {
        data := data + [relocate[k]];
      }
    }
    assert relocate[..|relocate|] == relocate;
    KeptIndices(flags, rest);
    KeptIndices(flags, code);
    assert Both(flags, rest) == DataFlags(image.View(), flags);
    assert Both(flags, code) == ExecFlags(image.View(), flags);
  }

  function Code(v: Image): (r: seq<bool>)
    ensures |r| == |v.shdrs| && forall i :: 0 <= i < |r| ==> r[i] == Executable(v.shdrs[i])
  {
    seq(|v.shdrs|, i requires 0 <= i < |v.shdrs| => Executable(v.shdrs[i]))
  }

  // ---- Laying out the region ----

  method RegionLayout(image: ElfImage, secs: seq<nat>, start: nat) returns (offsets: seq<nat>, end: nat)
    requires InRange(image.View(), secs)
    ensures offsets == Offsets(image.View(), secs, start) && end == LayoutEnd(image.View(), secs, start)
  {
    ghost var v := image.View();
    end, offsets := start, [];
    for k := 0 to |secs|
      invariant end == LayoutEnd(v, secs[..k], start)
      invariant offsets == Offsets(v, secs, start)[..k]
    {
      assert secs[..k + 1][..k] == secs[..k];
      var cur := RoundUp(end, SecAlign(image.View(), secs[k]));
      offsets := offsets + [cur];
      end := cur + SectionLen(image.View(), secs[k]);
    }
    assert secs[..|secs|] == secs;
  }

  /** `Region::plan`; `head(n)` is the header size with `n` new loads. */
  method PlanRegion(image: ElfImage, relocate: seq<nat>, ghost flags: seq<bool>, head: nat -> nat,
                    page: nat) returns (r: Region)
    requires WellShaped(image.View()) && |flags| == |image.shdrs| && relocate == Indices(flags)
    ensures r == Plan(image.View(), flags, head(1), head(2), page)
  {
    var data, exec := Partition(image, relocate, flags);
    IndicesFacts(DataFlags(image.View(), flags));
    IndicesFacts(ExecFlags(image.View(), flags));
    var loads := if exec == [] then 1 else 2;
    var offsets, len := RegionLayout(image, data, head(loads));
    if exec == [] {
      return Region(data, offsets, len, len, 1);
    }
    var dataLen := RoundUp(len, page);
    var execOffsets, end := RegionLayout(image, exec, dataLen);
    r := Region(data + exec, offsets + execOffsets, dataLen, end, 2);
  }

  // ---- References that cannot be fixed up ----

  method AnyFieldHits(e: Endian, data: seq<byte>, stride: nat, fo: nat, width: nat,
                      ranges: seq<(nat, nat)>) returns (b: bool)
    requires fo + width <= stride && stride > 0
    ensures b == AnyField(e, data, stride, fo, width, ranges)
  {
    b := false;
    for r := 0 to |data| / stride
      invariant b <==> exists k :: 0 <= k < r && FieldHits(e, data, k, stride, fo, width, ranges)
    {
      if FieldHits(e, data, r, stride, fo, width, ranges) {
        b := true;
      }
    }
  }

  method AssertNoAddressRefs(image: ElfImage, ranges: seq<(nat, nat)>) returns (ok: bool)
    requires WellShaped(image.View())
    ensures ok == NoAddressRefs(image.View(), ranges)
  {
    if ranges == [] {
      return true;
    }
    for i := 0 to |image.shdrs|
      invariant forall j :: 0 <= j < i ==> !References(image.View(), j, ranges)
    {
      var s := image.shdrs[i];
      var f := AddressField(image.enc.class_, s.shtype);
      if HasFlag(s.flags, SHF_ALLOC) && f.Field? {
        var hit := AnyFieldHits(image.enc.endian, image.data[i], f.stride, f.fo, f.width, ranges);
        if hit {
          assert References(image.View(), i, ranges);
          return false;
        }
      }
    }
    ok := true;
  }

  // ---- Placing ----

  /** The image with the first `n` of the region's sections placed. */
  ghost function PlacedTo(v: Image, r: Region, off: nat, vaddr: nat, n: nat): (s: seq<Shdr>)
    requires Placeable(v, r) && n <= |r.sections|
    ensures |s| == |v.shdrs|
  {
    if n == 0 then v.shdrs
    else
      var i, rel := r.sections[n - 1], r.offsets[n - 1];
      var s := v.shdrs[i].(offset := off + rel, addr := vaddr + rel, size := SectionLen(v, i));
      PlacedTo(v, r, off, vaddr, n - 1)[i := s]
  }

  lemma {:induction false} PlacedToAt(v: Image, r: Region, off: nat, vaddr: nat, n: nat, i: nat)
    requires Placeable(v, r) && Distinct(r.sections) && n <= |r.sections| && i < |v.shdrs|
    ensures PlacedTo(v, r, off, vaddr, n)[i]
            == if i in r.sections && IndexOf(r.sections, i) < n then PlacedShdr(v, r, off, vaddr, i) else v.shdrs[i]
  {
    if n > 0 {
      PlacedToAt(v, r, off, vaddr, n - 1, i);
      if i in r.sections {
        assert r.sections[IndexOf(r.sections, i)] == i;
      }
    }
  }

  lemma PlacedToAll(v: Image, r: Region, off: nat, vaddr: nat)
    requires Placeable(v, r) && Distinct(r.sections)
    ensures PlacedTo(v, r, off, vaddr, |r.sections|) == PlacedShdrs(v, r, off, vaddr)
  {
    forall i | 0 <= i < |v.shdrs|
      ensures PlacedTo(v, r, off, vaddr, |r.sections|)[i] == PlacedShdrs(v, r, off, vaddr)[i]
    {
      PlacedToAt(v, r, off, vaddr, |r.sections|, i);
    }
  }

  /** Sections not placed yet still have their old header. */
  lemma {:induction false} NotYetPlaced(v: Image, r: Region, off: nat, vaddr: nat, n: nat, k: nat)
    requires Placeable(v, r) && Distinct(r.sections) && n <= k < |r.sections|
    ensures PlacedTo(v, r, off, vaddr, n)[r.sections[k]] == v.shdrs[r.sections[k]]
  {
    if n > 0 {
      NotYetPlaced(v, r, off, vaddr, n - 1, k);
    }
  }

  /** Placing sections does not change which one is dynamic, nor other sizes. */
  lemma {:induction false} PlacedLen(v: Image, r: Region, off: nat, vaddr: nat, n: nat, k: nat)
    requires Placeable(v, r) && Distinct(r.sections) && n <= k < |r.sections|
    ensures SectionLen(v.(shdrs := PlacedTo(v, r, off, vaddr, n)), r.sections[k]) == SectionLen(v, r.sections[k])
  {
    NotYetPlaced(v, r, off, vaddr, n, k);
    var w := v.(shdrs := PlacedTo(v, r, off, vaddr, n));
    forall i | 0 <= i < |v.shdrs| ensures w.shdrs[i].shtype == v.shdrs[i].shtype {
      PlacedType(v, r, off, vaddr, n, i);
    }
    SameFirstDynamic(w.shdrs, v.shdrs);
  }

  lemma {:induction false} PlacedType(v: Image, r: Region, off: nat, vaddr: nat, n: nat, i: nat)
    requires Placeable(v, r) && n <= |r.sections| && i < |v.shdrs|
    ensures PlacedTo(v, r, off, vaddr, n)[i].shtype == v.shdrs[i].shtype
  {
    if n > 0 {
      PlacedType(v, r, off, vaddr, n - 1, i);
    }
  }

  /** The address ranges about to be vacated. */
  method Vacated(image: ElfImage, secs: seq<nat>) returns (ranges: seq<(nat, nat)>)
    requires InRange(image.View(), secs)
    ensures ranges == OldRanges(image.View(), secs, |secs|)
  {
    ranges := [];
    for k := 0 to |secs|
      invariant ranges == OldRanges(image.View(), secs, k)
    {
      var s := image.shdrs[secs[k]];
      if s.addr != 0 {
        ranges := ranges + [(s.addr, s.size)];
      }
    }
  }

  method PlaceRelocated(image: ElfImage, r: Region, off: nat, vaddr: nat) returns (m: Result<seq<Moved>>)
    requires Placeable(image.View(), r) && Distinct(r.sections)
    modifies image
    ensures var v := old(image.View());
            && (m.Ok? <==> NoAddressRefs(v, OldRanges(v, r.sections, |r.sections|)))
            && (m.Err? ==> m == Err(UnsupportedError) && image.View() == v)
            && (m.Ok? ==> image.View() == v.(shdrs := PlacedShdrs(v, r, off, vaddr))
                          && m.value == Moves(v, r, vaddr, |r.sections|))
  {
    ghost var v := image.View();
    var ranges := Vacated(image, r.sections);
    var ok := AssertNoAddressRefs(image, ranges);
    if !ok {
      return Err(UnsupportedError);
    }
    var moves: seq<Moved> := [];
    for k := 0 to |r.sections|
      invariant image.View() == v.(shdrs := PlacedTo(v, r, off, vaddr, k))
      invariant moves == Moves(v, r, vaddr, k)
    {
      var i, rel := r.sections[k], r.offsets[k];
      NotYetPlaced(v, r, off, vaddr, k, k);
      PlacedLen(v, r, off, vaddr, k, k);
      var len := SectionLen(image.View(), i);
      var s := image.shdrs[i];
      if s.addr != 0 {
        moves := moves + [Moved(s.addr, s.size, vaddr + rel)];
      }
      image.shdrs := image.shdrs[i := s.(offset := off + rel, addr := vaddr + rel, size := len)];
    }
    PlacedToAll(v, r, off, vaddr);
    m := Ok(moves);
  }

  /** `Region::emit`: place the sections, push the loads, move the entry onto the stub. */
  method Emit(image: ElfImage, r: Region, at: Site) returns (m: Result<seq<Moved>>)
    requires Placeable(image.View(), r) && Distinct(r.sections) && r.dataLen <= r.len
    modifies image
    ensures var v := old(image.View());
            && (m.Ok? <==> NoAddressRefs(v, OldRanges(v, r.sections, |r.sections|)))
            && (m.Err? ==> m == Err(UnsupportedError) && image.View() == v)
            && (m.Ok? ==> image.View() == Emitted(v, r, at) && m.value == Moves(v, r, at.vaddr, |r.sections|))
  {
    m := PlaceRelocated(image, r, at.off, at.vaddr);
    if m.Ok? {
      image.phdrs := image.phdrs + [DataLoad(at)];
      if r.loads == 2 {
        image.phdrs := image.phdrs + [ExecLoad(r, at)];
        var s := image.View().FindSection(STUB);
        if s.Some? {
          image.ehdr := image.ehdr.(entry := image.shdrs[s.value].addr + STUB_CODE_OFFSET);
        }
      }
      assert image.phdrs == old(image.phdrs) + NewLoads(r, at);
    }
  }

  // ---- Following the moves ----

  /** Re-point the segments that frame a section or the program header table. */
  method SyncSegments(image: ElfImage, note: Option<nat>, phdrVaddr: nat)
    requires note.Some? ==> note.value < |image.phdrs|
    modifies image
    ensures var v := old(image.View()); image.View() == v.(phdrs := SyncedPhdrs(v, note, phdrVaddr))
  {
    ghost var v := image.View();
    var cache := SectionExtent(image.View(), image.View().FindSection(LDCACHE));
    if note.Some? && cache.Some? {
      image.phdrs := image.phdrs[note.value := SetSegment(image.phdrs[note.value], cache.value)];
    }
    ghost var w := image.View();
    for i := 0 to |image.phdrs|
      invariant image.View() == v.(phdrs := image.phdrs) && |image.phdrs| == |v.phdrs|
      invariant forall j :: 0 <= j < i ==> image.phdrs[j] == SyncedPhdr(v, note, phdrVaddr, j)
      invariant forall j :: i <= j < |v.phdrs| ==> image.phdrs[j] == w.phdrs[j]
    {
      SameTarget(v, image.View(), phdrVaddr, image.phdrs[i].ptype);
      var x := Target(image.View(), phdrVaddr, image.phdrs[i].ptype);
      if x.Some? {
        image.phdrs := image.phdrs[i := SetSegment(image.phdrs[i], x.value)];
      }
    }
    assert image.phdrs == SyncedPhdrs(v, note, phdrVaddr);
  }

  /** What a segment must frame does not depend on the entries set so far. */
  lemma SameTarget(v: Image, w: Image, phdrVaddr: nat, t: u32)
    requires w == v.(phdrs := w.phdrs) && |w.phdrs| == |v.phdrs|
    ensures Target(w, phdrVaddr, t) == Target(v, phdrVaddr, t)
  {
    SameSections(v, w, INTERP);
    SameSections(v, w, ABIFLAGS);
  }

  lemma SameSections(v: Image, w: Image, name: seq<byte>)
    requires w.shdrs == v.shdrs && w.data == v.data && w.ehdr.shstrndx == v.ehdr.shstrndx
    ensures w.FindSection(name) == v.FindSection(name) && w.DynIdx() == v.DynIdx()
  {
    assert w.Named(name) == v.Named(name);
  }

  method FixupRldMapRel(image: ElfImage)
    modifies image
    ensures image.View() == old(image.View()).(dynamic := RldFixed(old(image.View())))
  {
    ghost var v := image.View();
    for j := 0 to |image.dynamic|
      invariant image.View() == v.(dynamic := image.dynamic) && |image.dynamic| == |v.dynamic|
      invariant forall k :: 0 <= k < j ==> image.dynamic[k] == RldFixed(v)[k]
      invariant forall k :: j <= k < |v.dynamic| ==> image.dynamic[k] == v.dynamic[k]
    {
      if image.dynamic[j].tag == DT_MIPS_RLD_MAP_REL {
        SameSections(v, image.View(), RLD_MAP);
        image.dynamic := image.dynamic[j := image.dynamic[j].(val := RldMapRel(image.View(), j))];
      }
    }
    assert image.dynamic == RldFixed(v);
  }

  function Rebased(dynamic: seq<DynEntry>, moves: seq<Moved>): (r: seq<DynEntry>)
    ensures |r| == |dynamic|
  {
    seq(|dynamic|, j requires 0 <= j < |dynamic| =>
      if dynamic[j].tag in MOVED_TAGS then dynamic[j].(val := Rebase(moves, dynamic[j].val)) else dynamic[j])
  }

  function Resized(dynamic: seq<DynEntry>, size: nat): (r: seq<DynEntry>)
    ensures |r| == |dynamic|
  {
    seq(|dynamic|, j requires 0 <= j < |dynamic| =>
      if dynamic[j].tag == DT_STRSZ then dynamic[j].(val := size) else dynamic[j])
  }

  method RebaseTags(image: ElfImage, moves: seq<Moved>)
    modifies image
    ensures image.View() == old(image.View()).(dynamic := Rebased(old(image.dynamic), moves))
  {
    ghost var v := image.View();
    for j := 0 to |image.dynamic|
      invariant image.View() == v.(dynamic := image.dynamic) && |image.dynamic| == |v.dynamic|
      invariant forall k :: 0 <= k < j ==> image.dynamic[k] == Rebased(v.dynamic, moves)[k]
      invariant forall k :: j <= k < |v.dynamic| ==> image.dynamic[k] == v.dynamic[k]
    {
      var d := image.dynamic[j];
      if d.tag in MOVED_TAGS {
        image.dynamic := image.dynamic[j := d.(val := Rebase(moves, d.val))];
      }
    }
    assert image.dynamic == Rebased(v.dynamic, moves);
  }

  method SetStringTableSize(image: ElfImage, size: nat)
    modifies image
    ensures image.View() == old(image.View()).(dynamic := Resized(old(image.dynamic), size))
  {
    ghost var v := image.View();
    for j := 0 to |image.dynamic|
      invariant image.View() == v.(dynamic := image.dynamic) && |image.dynamic| == |v.dynamic|
      invariant forall k :: 0 <= k < j ==> image.dynamic[k] == Resized(v.dynamic, size)[k]
      invariant forall k :: j <= k < |v.dynamic| ==> image.dynamic[k] == v.dynamic[k]
    {
      if image.dynamic[j].tag == DT_STRSZ {
        image.dynamic := image.dynamic[j := image.dynamic[j].(val := size)];
      }
    }
    assert image.dynamic == Resized(v.dynamic, size);
  }

  /** The three passes change disjoint tags. */
  lemma PassesAreFixed(v: Image, moves: seq<Moved>, u: Image)
    requires u == v.(dynamic := Rebased(v.dynamic, moves))
    ensures var w := u.(dynamic := RldFixed(u)); var s := v.FindSection(DYNSTR);
            (if s.Some? then Resized(w.dynamic, v.shdrs[s.value].size) else w.dynamic) == FixedDynamic(v, moves)
  {
    SameSections(v, u, RLD_MAP);
    var w := u.(dynamic := RldFixed(u));
    forall j | 0 <= j < |v.dynamic|
      ensures w.dynamic[j] == if v.dynamic[j].tag == DT_MIPS_RLD_MAP_REL then v.dynamic[j].(val := RldMapRel(v, j))
              else u.dynamic[j]
    {
    }
  }

  /** Rebase the address tags, then the relative map tag, then the string table size. */
  method FixupDynamicAddrs(image: ElfImage, moves: seq<Moved>)
    modifies image
    ensures image.View() == old(image.View()).(dynamic := FixedDynamic(old(image.View()), moves))
  {
    ghost var v := image.View();
    RebaseTags(image, moves);
    PassesAreFixed(v, moves, image.View());
    FixupRldMapRel(image);
    SameSections(v, image.View(), DYNSTR);
    var s := image.View().FindSection(DYNSTR);
    if s.Some? {
      SetStringTableSize(image, image.shdrs[s.value].size);
    }
  }

  /** Encode the dynamic array into its section, zero-padded to the section's size. */
  method SyncDynamic(image: ElfImage) returns (ok: bool)
    requires WellShaped(image.View())
    modifies image
    ensures var v := old(image.View());
            && ok == SyncedDynamic(v).Ok?
            && (ok ==> image.View() == SyncedDynamic(v).value)
            && (!ok ==> image.View() == v)
  {
    var d := image.View().DynIdx();
    if d.None? {
      return true;
    }
    var out := EncodeDyns(image.enc, image.dynamic);
    if out.Err? {
      return false;
    }
    var bytes := out.value;
    var want := image.shdrs[d.value].size;
    bytes := bytes + Zeros(if want < |bytes| then 0 else want - |bytes|);
    image.data := image.data[d.value := bytes];
    ok := true;
  }

  method EncodeDyns(enc: Enc, dynamic: seq<DynEntry>) returns (r: Result<seq<byte>>)
    ensures r.Ok? == Concat(WrittenDyns(enc, dynamic)).Ok? && (r.Ok? ==> r == Concat(WrittenDyns(enc, dynamic)))
  {
    var out: seq<byte> := [];
    ghost var rs := WrittenDyns(enc, dynamic);
    for i := 0 to |dynamic|
      invariant Concat(rs[..i]) == Ok(out)
    {
      var w := WriteDyn(enc, dynamic[i]);
      if w.Err? {
        ConcatFails(rs, i);
        return Err(w.error);
      }
      ConcatNext(rs, i, out, w.value);
      out := out + w.value;
    }
    assert rs[..|rs|] == rs;
    r := Ok(out);
  }
}
