/** What `verify::run` (src/verify.rs) accepts and refuses, in the gABI's numbers. */
module Verified {
  import opened Bytes
  import opened Ir
  import opened Align
  import opened Verify
  import Loader
  import Sorting
  import Words

  // ---- Which loads overlap ----

  function End(p: Phdr): nat
  {
    p.vaddr + p.memsz
  }

  /** `p` stands before `q` in the table: the one at the lower address ends before the
      other starts, `p` where both start together. */
  predicate Clear(p: Phdr, q: Phdr)
  {
    if p.vaddr <= q.vaddr then End(p) <= q.vaddr else End(q) <= p.vaddr
  }

  ghost predicate AllClear(loads: seq<Phdr>)
  {
    forall i, j :: 0 <= i < j < |loads| ==> Clear(loads[i], loads[j])
  }

  ghost predicate Chain(loads: seq<Phdr>)
  {
    forall i, j :: 0 <= i < j < |loads| ==> End(loads[i]) <= loads[j].vaddr
  }

  lemma {:induction false} AscendingChain(loads: seq<Phdr>)
    requires Sorting.SortedBy(loads, VaddrOf)
    ensures Ascending(loads) <==> Chain(loads)
  {
    if |loads| > 1 {
      var n := |loads| - 1;
      AscendingChain(loads[..n]);
      assert VaddrOf(loads[n - 1]) <= VaddrOf(loads[n]);
      AscendingSnoc(loads[..n], loads[n]);
      ChainSnoc(loads[..n], loads[n]);
      assert loads == loads[..n] + [loads[n]];
      if Chain(loads[..n]) {
        LastReaches(loads[..n], loads[n]);
      }
    }
  }

  lemma LastReaches(s: seq<Phdr>, x: Phdr)
    requires s != [] && Chain(s) && s[|s| - 1].vaddr <= x.vaddr
    ensures AllEnd(s, x) <==> End(s[|s| - 1]) <= x.vaddr
  {
    forall y | y in s && End(s[|s| - 1]) <= x.vaddr ensures End(y) <= x.vaddr {
      var i :| 0 <= i < |s| && s[i] == y;
      if i < |s| - 1 {
        assert End(s[i]) <= s[|s| - 1].vaddr;
      }
    }
  }

  lemma AscendingSnoc(s: seq<Phdr>, x: Phdr)
    requires s != []
    ensures Ascending(s + [x]) <==> Ascending(s) && End(s[|s| - 1]) <= x.vaddr
  {
    var all := s + [x];
    if Ascending(all) {
      forall i | 0 <= i < |s| - 1 ensures s[i].vaddr + s[i].memsz <= s[i + 1].vaddr {
        assert all[i].vaddr + all[i].memsz <= all[i + 1].vaddr;
      }
      assert all[|s| - 1].vaddr + all[|s| - 1].memsz <= all[|s|].vaddr;
    }
  }

  ghost predicate AllEnd(s: seq<Phdr>, x: Phdr)
  {
    forall y :: y in s ==> End(y) <= x.vaddr
  }

  lemma ChainSnoc(s: seq<Phdr>, x: Phdr)
    ensures Chain(s + [x]) <==> Chain(s) && AllEnd(s, x)
  {
    var all := s + [x];
    if Chain(all) {
      forall i, j | 0 <= i < j < |s| ensures End(s[i]) <= s[j].vaddr {
        assert End(all[i]) <= all[j].vaddr;
      }
      forall y | y in s ensures End(y) <= x.vaddr {
        var i :| 0 <= i < |s| && s[i] == y;
        assert End(all[i]) <= all[|s|].vaddr;
      }
    }
  }

  ghost predicate ClearOf(s: seq<Phdr>, x: Phdr)
  {
    forall y :: y in s ==> Clear(y, x)
  }

  lemma ClearSnoc(s: seq<Phdr>, x: Phdr)
    ensures AllClear(s + [x]) <==> AllClear(s) && ClearOf(s, x)
  {
    var all := s + [x];
    if AllClear(all) {
      forall i, j | 0 <= i < j < |s| ensures Clear(s[i], s[j]) {
        assert Clear(all[i], all[j]);
      }
      forall y | y in s ensures Clear(y, x) {
        var i :| 0 <= i < |s| && s[i] == y;
        assert Clear(all[i], all[|s|]);
      }
    }
  }

  lemma {:induction false} InsertMembers(s: seq<Phdr>, x: Phdr)
    ensures forall z :: z in Sorting.Insert(s, x, VaddrOf) <==> z in s || z == x
  {
    if s != [] && VaddrOf(s[|s| - 1]) > VaddrOf(x) {
      InsertMembers(s[..|s| - 1], x);
      assert s == s[..|s| - 1] + [s[|s| - 1]];
    }
  }

  lemma {:induction false} InsertChain(s: seq<Phdr>, x: Phdr)
    requires Sorting.SortedBy(s, VaddrOf)
    ensures Chain(Sorting.Insert(s, x, VaddrOf)) <==> Chain(s) && ClearOf(s, x)
  {
    if s == [] || VaddrOf(s[|s| - 1]) <= VaddrOf(x) {
      forall y | y in s ensures VaddrOf(y) <= VaddrOf(x) {
        var i :| 0 <= i < |s| && s[i] == y;
        assert VaddrOf(s[i]) <= VaddrOf(s[|s| - 1]);
      }
      ChainSnoc(s, x);
    } else {
      var s', y := s[..|s| - 1], s[|s| - 1];
      assert s == s' + [y];
      InsertChain(s', x);
      InsertMembers(s', x);
      ChainSnoc(s', y);
      var r := Sorting.Insert(s', x, VaddrOf);
      ChainSnoc(r, y);
      assert AllEnd(r, y) <==> AllEnd(s', y) && Clear(y, x);
      assert ClearOf(s, x) <==> ClearOf(s', x) && Clear(y, x);
      assert Sorting.Insert(s, x, VaddrOf) == r + [y];
    }
  }

  lemma {:induction false} SortChain(s: seq<Phdr>)
    ensures Chain(Sorting.Sort(s, VaddrOf)) <==> AllClear(s)
  {
    if s != [] {
      var s', x := s[..|s| - 1], s[|s| - 1];
      var r := Sorting.Sort(s', VaddrOf);
      SortChain(s');
      Sorting.SortSorted(s', VaddrOf);
      InsertChain(r, x);
      assert s == s' + [x];
      ClearSnoc(s', x);
      SortClear(s', x);
    }
  }

  lemma SortClear(s: seq<Phdr>, x: Phdr)
    ensures ClearOf(Sorting.Sort(s, VaddrOf), x) <==> ClearOf(s, x)
  {
    Sorting.SortSorted(s, VaddrOf);
    forall y ensures y in Sorting.Sort(s, VaddrOf) <==> y in s {
      Sorting.PermutationMembers(Sorting.Sort(s, VaddrOf), s, y);
    }
  }

  /** The check on the sorted loads passes exactly when every two loads are clear. */
  lemma DisjointIff(loads: seq<Phdr>)
    ensures MemoryDisjoint(loads) <==> AllClear(loads)
  {
    Sorting.SortSorted(loads, VaddrOf);
    AscendingChain(Sorting.Sort(loads, VaddrOf));
    SortChain(loads);
  }

  // ---- Powers of two ----

  lemma {:induction false} PowerIs(n: nat)
    ensures PowerOfTwo(n) ==> exists k: nat :: Words.Pow2(k) == n
  {
    if PowerOfTwo(n) {
      if n == 1 {
        assert Words.Pow2(0) == 1;
      } else {
        PowerIs(n / 2);
        var k: nat :| Words.Pow2(k) == n / 2;
        assert Words.Pow2(k + 1) == n;
      }
    }
  }

  lemma {:induction false} IsPower(k: nat)
    ensures PowerOfTwo(Words.Pow2(k))
  {
    if k > 0 {
      IsPower(k - 1);
    }
  }

  lemma PowerIff(n: nat)
    ensures ValidAlign(n) <==> n <= 1 || exists k: nat :: Words.Pow2(k) == n
  {
    PowerIs(n);
    if k: nat :| Words.Pow2(k) == n {
      IsPower(k);
    }
  }

  // ---- What a file must meet ----

  /** The first program header of a type, dynamic section, or entry of a tag. */
  ghost predicate FirstPhdr(img: Image, t: u32, i: nat)
  {
    i < |img.phdrs| && img.phdrs[i].ptype == t && forall j :: 0 <= j < i ==> img.phdrs[j].ptype != t
  }

  ghost predicate FirstShdr(img: Image, t: u32, i: nat)
  {
    i < |img.shdrs| && img.shdrs[i].shtype == t && forall j :: 0 <= j < i ==> img.shdrs[j].shtype != t
  }

  ghost predicate FirstEntry(img: Image, tag: i64, i: nat)
  {
    i < |img.dynamic| && img.dynamic[i].tag == tag && forall j :: 0 <= j < i ==> img.dynamic[j].tag != tag
  }

  ghost predicate IsLoad(img: Image, p: Phdr)
  {
    p in img.phdrs && p.ptype == 1
  }

  /** Addresses congruent with offsets, never writable and executable, no more bytes in
      the file than in memory. */
  ghost predicate LoadSound(p: Phdr)
  {
    && (p.align > 1 ==> p.vaddr % p.align == p.offset % p.align)
    && !(p.flags % 2 == 1 && p.flags / 2 % 2 == 1) && p.filesz <= p.memsz
  }

  ghost predicate LoadsSound(img: Image)
  {
    && (forall p :: p in img.phdrs ==> p.align <= 1 || exists k: nat :: Words.Pow2(k) == p.align)
    && (forall p :: IsLoad(img, p) ==> LoadSound(p))
    && TableClear(img.phdrs)
  }

  ghost predicate TableClear(phdrs: seq<Phdr>)
  {
    forall i, j :: 0 <= i < j < |phdrs| && phdrs[i].ptype == phdrs[j].ptype == 1 ==> Clear(phdrs[i], phdrs[j])
  }

  ghost predicate FileHolds(p: Phdr, off: nat, len: nat)
  {
    p.offset <= off && off + len <= p.offset + p.filesz
  }

  /** Some load maps the whole program header table. */
  ghost predicate TableMapped(img: Image)
  {
    exists p :: IsLoad(img, p) && FileHolds(p, img.ehdr.phoff, |img.phdrs| * img.ehdr.phentsize)
  }

  /** The first load of the least file offset. */
  ghost predicate Lowest(phdrs: seq<Phdr>, b: nat)
  {
    && b < |phdrs| && phdrs[b].ptype == 1
    && forall j :: 0 <= j < |phdrs| && phdrs[j].ptype == 1 ==>
        if j < b then phdrs[b].offset < phdrs[j].offset else phdrs[b].offset <= phdrs[j].offset
  }

  /** `PT_PHDR` names the table, at the address the load bias is derived from. */
  ghost predicate AnchorSound(img: Image)
  {
    forall i: nat :: FirstPhdr(img, 6, i) ==>
      exists b: nat :: Lowest(img.phdrs, b) && img.phdrs[i].offset == img.ehdr.phoff
                       && Anchored(img.phdrs[i], img.phdrs[b], img.ehdr.phoff)
  }

  ghost predicate Anchored(p: Phdr, base: Phdr, phoff: nat)
  {
    p.vaddr == if phoff < base.offset then base.vaddr else base.vaddr + phoff - base.offset
  }

  /** `PT_INTERP` is not empty, lies in a load, and frames a terminated `.interp`. */
  ghost predicate InterpSound(img: Image)
  {
    forall i: nat :: FirstPhdr(img, 3, i) ==>
      && img.phdrs[i].filesz > 0
      && (exists p :: IsLoad(img, p) && FileHolds(p, img.phdrs[i].offset, img.phdrs[i].filesz))
      && FramesInterp(img, img.phdrs[i])
  }

  ghost predicate FramesInterp(img: Image, p: Phdr)
  {
    match img.FindSection(Ascii(".interp"))
    case None => true
    case Some(s) =>
      && p.offset == img.shdrs[s].offset && p.filesz == img.shdrs[s].size
      && s < |img.data| && img.data[s] != [] && img.data[s][|img.data[s]| - 1] == 0
  }

  /** The entry point of a program or shared object lies in an executable load. */
  ghost predicate EntrySound(img: Image)
  {
    img.ehdr.entry != 0 && (img.ehdr.eType == 2 || img.ehdr.eType == 3) ==>
      exists p :: IsLoad(img, p) && p.flags % 2 == 1 && p.vaddr <= img.ehdr.entry < End(p)
  }

  /** Symbol, dynamic and relocation tables link to a section; so does `e_shstrndx`. */
  ghost predicate LinksSound(img: Image)
  {
    |img.shdrs| > 0 ==>
      && img.ehdr.shstrndx < |img.shdrs|
      && forall s :: s in img.shdrs && s.shtype in {2, 4, 6, 9, 11} ==> s.link < |img.shdrs|
  }

  /** `DT_STRTAB` (5) is `.dynstr`'s address and `DT_STRSZ` (10) within its size; the
      string tags, 1, 14, 15 and 29, lie below `DT_STRSZ`. */
  ghost predicate StringsSound(img: Image)
  {
    && (match img.FindSection(Ascii(".dynstr"))
        case None => true
        case Some(s) =>
          && (forall i: nat :: FirstEntry(img, 5, i) ==> img.dynamic[i].val == img.shdrs[s].addr)
          && forall i: nat :: FirstEntry(img, 10, i) ==> img.dynamic[i].val <= img.shdrs[s].size)
    && forall i: nat :: FirstEntry(img, 10, i) ==> StringsBelow(img.dynamic, img.dynamic[i].val)
  }

  ghost predicate StringsBelow(dynamic: seq<DynEntry>, size: nat)
  {
    forall d :: d in dynamic && d.tag in {1, 14, 15, 29} ==> d.val < size
  }

  /** `PT_DYNAMIC` and the dynamic section stand at one place. */
  ghost predicate SegmentSound(img: Image)
  {
    forall i: nat, s: nat :: FirstPhdr(img, 2, i) && FirstShdr(img, 6, s) ==>
      img.phdrs[i].vaddr == img.shdrs[s].addr && img.phdrs[i].offset == img.shdrs[s].offset
  }

  /** The dynamic tags whose value is an address. */
  function AddressTags(): set<i64>
  {
    {3, 4, 5, 6, 7, 12, 13, 17, 23, 25, 26, 32, 36, 0x6fff_fef5, 0x6fff_fff0, 0x6fff_fffc, 0x6fff_fffe}
  }

  ghost predicate AddressesSound(img: Image)
  {
    (exists p :: IsLoad(img, p)) ==>
      forall d :: d in img.dynamic && d.tag in AddressTags() && d.val != 0 ==> MappedAt(img, d.val)
  }

  ghost predicate MappedAt(img: Image, a: nat)
  {
    exists p :: IsLoad(img, p) && p.vaddr <= a < End(p)
  }

  /** Nothing a header names reaches past the end of the file. */
  ghost predicate BoundsSound(img: Image, total: nat)
  {
    && (img.ehdr.phoff > 0 ==> img.ehdr.phoff + |img.phdrs| * img.ehdr.phentsize <= total)
    && (img.ehdr.shoff > 0 ==> img.ehdr.shoff + |img.shdrs| * img.ehdr.shentsize <= total)
    && (forall p :: p in img.phdrs ==> p.offset + p.filesz <= total)
    && forall s :: s in img.shdrs && s.shtype != 8 ==> s.offset + s.size <= total
  }

  // ---- The checks test it ----

  lemma LoadMember(img: Image, p: Phdr)
    ensures p in Loads(img.phdrs) <==> IsLoad(img, p)
  {
    LoadsMembers(img.phdrs, p);
  }

  lemma TableClearSnoc(before: seq<Phdr>, x: Phdr)
    ensures TableClear(before + [x]) <==> TableClear(before) && (x.ptype == 1 ==> ClearOf(Loads(before), x))
  {
    var all, n := before + [x], |before|;
    forall y ensures y in Loads(before) <==> y in before && y.ptype == 1 {
      LoadsMembers(before, y);
    }
    if TableClear(all) {
      forall i, j | 0 <= i < j < n && before[i].ptype == before[j].ptype == 1 ensures Clear(before[i], before[j]) {
        assert all[i] == before[i] && all[j] == before[j];
      }
      forall y | y in Loads(before) && x.ptype == 1 ensures Clear(y, x) {
        var i :| 0 <= i < n && before[i] == y;
        assert all[i] == y && all[n] == x;
      }
    }
    if TableClear(before) && (x.ptype == 1 ==> ClearOf(Loads(before), x)) {
      forall i, j | 0 <= i < j < |all| && all[i].ptype == all[j].ptype == 1 ensures Clear(all[i], all[j]) {
        if j < n {
          assert all[i] == before[i] && all[j] == before[j];
        } else {
          assert all[i] == before[i] && before[i] in before;
        }
      }
    }
  }

  lemma {:induction false} LoadsClear(phdrs: seq<Phdr>)
    ensures AllClear(Loads(phdrs)) <==> TableClear(phdrs)
  {
    if phdrs != [] {
      var before, x := phdrs[..|phdrs| - 1], phdrs[|phdrs| - 1];
      LoadsClear(before);
      ClearSnoc(Loads(before), x);
      TableClearSnoc(before, x);
      assert phdrs == before + [x] && Loads(before) + [] == Loads(before);
    }
  }

  lemma LoadSoundIff(p: Phdr)
    ensures LoadOk(p) <==> LoadSound(p)
  {
  }

  lemma LoadsSoundIff(img: Image)
    ensures var loads := Loads(img.phdrs);
            (forall p :: p in img.phdrs ==> ValidAlign(p.align)) && (forall p :: p in loads ==> LoadOk(p))
              && MemoryDisjoint(loads)
            <==> LoadsSound(img)
  {
    var loads := Loads(img.phdrs);
    DisjointIff(loads);
    LoadsClear(img.phdrs);
    forall p: Phdr ensures ValidAlign(p.align) <==> p.align <= 1 || exists k: nat :: Words.Pow2(k) == p.align {
      PowerIff(p.align);
    }
    forall p ensures (p in loads <==> IsLoad(img, p)) && (LoadOk(p) <==> LoadSound(p)) {
      LoadMember(img, p);
      LoadSoundIff(p);
    }
  }

  lemma MappedIff(img: Image)
    ensures PhtCovered(img, Loads(img.phdrs)) <==> TableMapped(img)
    ensures EntryOk(img, Loads(img.phdrs)) <==> EntrySound(img)
  {
    forall p ensures p in Loads(img.phdrs) <==> IsLoad(img, p) {
      LoadMember(img, p);
    }
  }

  lemma SameMapped(img: Image, a: nat)
    ensures Mapped(Loads(img.phdrs), a) <==> MappedAt(img, a)
  {
    forall p ensures p in Loads(img.phdrs) <==> IsLoad(img, p) {
      LoadMember(img, p);
    }
  }

  lemma SomeLoad(img: Image)
    ensures Loads(img.phdrs) != [] <==> exists p :: IsLoad(img, p)
  {
    if Loads(img.phdrs) != [] {
      LoadMember(img, Loads(img.phdrs)[0]);
    }
    if p :| IsLoad(img, p) {
      LoadMember(img, p);
    }
  }

  lemma TagsAre(tag: i64)
    ensures tag in ADDR_TAGS <==> tag in AddressTags()
    ensures tag in STR_TAGS <==> tag in {1, 14, 15, 29}
  {
  }

  lemma AddressesIff(img: Image)
    ensures DynamicAddrs(img, Loads(img.phdrs)) <==> AddressesSound(img)
  {
    SomeLoad(img);
    forall d | d in img.dynamic
      ensures (d.tag in ADDR_TAGS <==> d.tag in AddressTags())
              && (Mapped(Loads(img.phdrs), d.val) <==> MappedAt(img, d.val))
    {
      TagsAre(d.tag);
      SameMapped(img, d.val);
    }
  }

  // ---- The table's anchor ----

  lemma LowestSnoc(before: seq<Phdr>, x: Phdr, b: nat)
    requires Lowest(before, b)
    ensures Lowest(before + [x], if x.ptype == 1 && x.offset < before[b].offset then |before| else b)
  {
    var all := before + [x];
    forall j | 0 <= j < |before| && before[j].ptype == 1
      ensures if j < b then before[b].offset < all[j].offset else before[b].offset <= all[j].offset
    {
      assert all[j] == before[j];
    }
  }

  lemma LowestFirst(before: seq<Phdr>, x: Phdr)
    requires x.ptype == 1 && Loads(before) == []
    ensures Lowest(before + [x], |before|)
  {
    LoadsMembersAll(before);
  }

  lemma MinSnoc(loads: seq<Phdr>, x: Phdr)
    requires loads != []
    ensures MinOffset(loads + [x]) == if x.offset < MinOffset(loads).offset then x else MinOffset(loads)
  {
    assert (loads + [x])[..|loads|] == loads;
  }

  lemma {:induction false} LowestIs(phdrs: seq<Phdr>) returns (b: nat)
    requires Loads(phdrs) != []
    ensures Lowest(phdrs, b) && MinOffset(Loads(phdrs)) == phdrs[b]
  {
    var before, x := phdrs[..|phdrs| - 1], phdrs[|phdrs| - 1];
    assert phdrs == before + [x] && Loads(phdrs) == Loads(before) + LoadOf(x);
    if Loads(before) == [] {
      b := |before|;
      LowestFirst(before, x);
    } else {
      var c := LowestIs(before);
      LowestSnoc(before, x, c);
      if x.ptype == 1 {
        MinSnoc(Loads(before), x);
      } else {
        assert LoadOf(x) == [] && Loads(phdrs) == Loads(before);
      }
      assert phdrs[c] == before[c];
      b := if x.ptype == 1 && x.offset < before[c].offset then |before| else c;
    }
  }

  lemma LoadsMembersAll(phdrs: seq<Phdr>)
    ensures Loads(phdrs) == [] ==> forall j :: 0 <= j < |phdrs| ==> phdrs[j].ptype != 1
  {
    forall j | 0 <= j < |phdrs| && phdrs[j].ptype == 1 ensures Loads(phdrs) != [] {
      LoadsMembers(phdrs, phdrs[j]);
    }
  }

  lemma LowestUnique(phdrs: seq<Phdr>, a: nat, b: nat)
    requires Lowest(phdrs, a) && Lowest(phdrs, b)
    ensures a == b
  {
  }

  lemma FirstPhdrIs(img: Image, t: u32, i: nat)
    ensures FirstPhdr(img, t, i) <==> FindPhdr(img.phdrs, t) == Some(i)
  {
    var f := FindPhdr(img.phdrs, t);
    if FirstPhdr(img, t, i) {
      FindPhdrIs(img.phdrs, t, i);
    }
    if f == Some(i) {
      var j := FirstAt(img, t, i);
      FindPhdrIs(img.phdrs, t, j);
    }
  }

  /** The first header of a type that some header has. */
  lemma {:induction false} FirstAt(img: Image, t: u32, i: nat) returns (j: nat)
    requires i < |img.phdrs| && img.phdrs[i].ptype == t
    ensures FirstPhdr(img, t, j)
    decreases i
  {
    if k: nat :| k < i && img.phdrs[k].ptype == t {
      j := FirstAt(img, t, k);
    } else {
      j := i;
    }
  }

  lemma AnchorIff(img: Image)
    ensures PhdrAnchor(img, Loads(img.phdrs)) <==> AnchorSound(img)
  {
    forall i: nat ensures FirstPhdr(img, 6, i) <==> FindPhdr(img.phdrs, 6) == Some(i) {
      FirstPhdrIs(img, 6, i);
    }
    if FindPhdr(img.phdrs, 6).Some? {
      AnchorAt(img, FindPhdr(img.phdrs, 6).value);
    }
  }

  lemma AnchorAt(img: Image, i: nat)
    requires FindPhdr(img.phdrs, 6) == Some(i)
    ensures PhdrAnchor(img, Loads(img.phdrs))
            <==> exists b: nat :: Lowest(img.phdrs, b) && img.phdrs[i].offset == img.ehdr.phoff
                                  && Anchored(img.phdrs[i], img.phdrs[b], img.ehdr.phoff)
  {
    if Loads(img.phdrs) != [] {
      var b := LowestIs(img.phdrs);
      forall c: nat | Lowest(img.phdrs, c) ensures c == b {
        LowestUnique(img.phdrs, b, c);
      }
    } else {
      LoadsMembersAll(img.phdrs);
    }
  }

  // ---- The checks on sections and strings ----

  lemma InterpIff(img: Image)
    ensures InterpOk(img, Loads(img.phdrs)) <==> InterpSound(img)
  {
    forall i: nat ensures FirstPhdr(img, 3, i) <==> FindPhdr(img.phdrs, 3) == Some(i) {
      FirstPhdrIs(img, 3, i);
    }
    forall p ensures p in Loads(img.phdrs) <==> IsLoad(img, p) {
      LoadMember(img, p);
    }
    if FindPhdr(img.phdrs, 3).Some? {
      var i := FindPhdr(img.phdrs, 3).value;
      assert FirstPhdr(img, 3, i);
      HeldIff(img, img.phdrs[i]);
    }
  }

  lemma HeldIff(img: Image, seg: Phdr)
    ensures (exists p :: p in Loads(img.phdrs) && FileRangeIn(p, seg.offset, seg.offset + seg.filesz))
            <==> exists p :: IsLoad(img, p) && FileHolds(p, seg.offset, seg.filesz)
  {
    if p :| p in Loads(img.phdrs) && FileRangeIn(p, seg.offset, seg.offset + seg.filesz) {
      LoadMember(img, p);
      assert FileHolds(p, seg.offset, seg.filesz);
    }
    if p :| IsLoad(img, p) && FileHolds(p, seg.offset, seg.filesz) {
      LoadMember(img, p);
      assert FileRangeIn(p, seg.offset, seg.offset + seg.filesz);
    }
  }

  lemma FirstEntryIs(img: Image, tag: i64, i: nat)
    ensures FirstEntry(img, tag, i) <==> DynPos(img.dynamic, tag) == Some(i)
  {
  }

  lemma FirstShdrIs(img: Image, i: nat)
    ensures FirstShdr(img, 6, i) <==> img.DynIdx() == Some(i)
  {
    FirstDynamicFacts(img.shdrs);
  }

  lemma LinksIff(img: Image)
    ensures SectionLinks(img) <==> LinksSound(img)
  {
  }

  lemma StringsIff(img: Image)
    ensures DynstrConsistent(img) && StringsInTable(img) <==> StringsSound(img)
  {
    forall i: nat ensures FirstEntry(img, 5, i) <==> DynPos(img.dynamic, 5) == Some(i) {
      FirstEntryIs(img, 5, i);
    }
    forall i: nat ensures FirstEntry(img, 10, i) <==> DynPos(img.dynamic, 10) == Some(i) {
      FirstEntryIs(img, 10, i);
    }
    forall tag: i64 ensures tag in STR_TAGS <==> tag in {1, 14, 15, 29} {
      TagsAre(tag);
    }
  }

  lemma SegmentIff(img: Image)
    ensures DynamicSegment(img) <==> SegmentSound(img)
  {
    forall i: nat ensures FirstPhdr(img, 2, i) <==> FindPhdr(img.phdrs, 2) == Some(i) {
      FirstPhdrIs(img, 2, i);
    }
    forall i: nat ensures FirstShdr(img, 6, i) <==> img.DynIdx() == Some(i) {
      FirstShdrIs(img, i);
    }
  }

  // ---- The verifier as a whole ----

  /** What a file must meet to be loaded. */
  ghost predicate Loadable(img: Image, total: nat)
  {
    && LoadsSound(img) && TableMapped(img) && AnchorSound(img) && BoundsSound(img, total) && LinksSound(img)
    && InterpSound(img) && EntrySound(img) && StringsSound(img) && SegmentSound(img) && AddressesSound(img)
  }

  /** The verifier accepts exactly the loadable images, and refuses every other one. */
  lemma RunExact(img: Image, total: nat)
    ensures Run(img, total) == if Loadable(img, total) then Ok(()) else Err(ConstraintError)
  {
    LoadsSoundIff(img);
    MappedIff(img);
    AnchorIff(img);
    LinksIff(img);
    InterpIff(img);
    StringsIff(img);
    SegmentIff(img);
    AddressesIff(img);
    assert FileBounds(img, total) <==> BoundsSound(img, total);
  }

  // ---- What a loader finds in an accepted file ----

  ghost predicate Occupies(phdrs: seq<Phdr>, i: nat, a: nat)
  {
    i < |phdrs| && phdrs[i].ptype == 1 && phdrs[i].vaddr <= a < End(phdrs[i])
  }

  /** No address lies in two loads, and none can be both written and executed. */
  lemma AcceptedMemory(img: Image, total: nat, a: nat)
    requires Run(img, total) == Ok(())
    ensures forall i: nat, j: nat :: Occupies(img.phdrs, i, a) && Occupies(img.phdrs, j, a) ==> i == j
    ensures forall i: nat :: Occupies(img.phdrs, i, a) ==>
              !(img.phdrs[i].flags % 2 == 1 && img.phdrs[i].flags / 2 % 2 == 1)
  {
    RunExact(img, total);
    forall i: nat, j: nat | i < j && Occupies(img.phdrs, i, a) ensures !Occupies(img.phdrs, j, a) {
      if j < |img.phdrs| && img.phdrs[j].ptype == 1 {
        assert Clear(img.phdrs[i], img.phdrs[j]);
      }
    }
    forall i: nat | Occupies(img.phdrs, i, a)
      ensures !(img.phdrs[i].flags % 2 == 1 && img.phdrs[i].flags / 2 % 2 == 1)
    {
      assert IsLoad(img, img.phdrs[i]) && LoadSound(img.phdrs[i]);
    }
  }

  /** The loader finds the program header table in memory, at `addr`. */
  lemma AcceptedTable(img: Image, out: seq<byte>, at: nat, len: nat) returns (p: Phdr, addr: nat)
    requires Run(img, |out|) == Ok(()) && at == img.ehdr.phoff && len == |img.phdrs| * img.ehdr.phentsize
    ensures IsLoad(img, p) && at + len <= |out| && addr + p.offset == p.vaddr + at
    ensures Loader.Reads(out, img.phdrs, addr, out[at..at + len])
  {
    RunExact(img, |out|);
    p :| IsLoad(img, p) && FileHolds(p, at, len);
    assert LoadSound(p);
    LoadMember(img, p);
    addr := p.vaddr + (at - p.offset);
    RangeRead(img, out, p, at, len, addr);
  }

  lemma RangeRead(img: Image, out: seq<byte>, p: Phdr, at: nat, len: nat, addr: nat)
    requires MemoryDisjoint(Loads(img.phdrs)) && p in Loads(img.phdrs) && FileHolds(p, at, len)
    requires p.filesz <= p.memsz && at + len <= |out| && addr + p.offset == p.vaddr + at
    ensures Loader.Reads(out, img.phdrs, addr, out[at..at + len])
  {
    var bytes := out[at..at + len];
    forall x | 0 <= x < |bytes| ensures Loader.MemAt(out, img.phdrs, addr + x) == Some(bytes[x]) {
      ByteRead(out, Loads(img.phdrs), p, addr + x, at + x);
      assert bytes[x] == out[at + x];
    }
  }

  lemma ByteRead(out: seq<byte>, loads: seq<Phdr>, p: Phdr, a: nat, i: nat)
    requires MemoryDisjoint(loads) && p in loads && p.vaddr <= a < p.vaddr + p.filesz && p.filesz <= p.memsz
    requires p.offset + a == p.vaddr + i && i < |out|
    ensures Loader.Mem(out, loads, a) == Some(out[i])
  {
    Loader.MemOf(out, loads, p, a);
  }
}
