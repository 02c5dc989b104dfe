/** A program with everything that moves: a string table that grew, a dynamic array
    that names it and an entry stub. It can be patched any number of times. */
module Sample {
  import opened Bytes
  import opened Ir
  import opened Codec
  import opened Align
  import opened Serialize
  import opened Layout
  import opened RegionFacts
  import opened Shape
  import opened Placed
  import opened Verify
  import opened Accepted
  import opened Dynamic
  import opened Append
  import opened Prepend
  import opened Example
  import opened NewSection
  import AppendTheorems
  import SymbolNames
  import Reclaim
  import Repatch

  // ---- Its sections ----

  const NAMES: seq<byte> := ([0] + DYNSTR + [0]) + STUB + [0]

  /** Section `i` without a place: names, strings, dynamic array, stub. */
  function Kind(i: nat): Shdr
  {
    if i == 0 then Shdr(0, SHT_STRTAB, 0, 0, 0, 0, 0, 0, 1, 0)
    else if i == 1 then Shdr(1, SHT_STRTAB, SHF_ALLOC, 0, 0, 0, 0, 0, 1, 0)
    else if i == 2 then Shdr(0, SHT_DYNAMIC, SHF_ALLOC, 0, 0, 0, 1, 0, 8, 16)
    else Shdr(9, SHT_PROGBITS, SHF_ALLOC + SHF_EXECINSTR, 0, 0, 0, 0, 0, 16, 0)
  }

  function Section(i: nat, addr: nat, offset: nat, size: nat): Shdr
  {
    Kind(i).(addr := addr, offset := offset, size := size)
  }

  /** A table with the names of the sections above in it. */
  ghost predicate NameTable(names: seq<byte>)
  {
    |names| == 26 && CStr(names, 0) == Some([]) && CStr(names, 1) == Some(DYNSTR) && CStr(names, 9) == Some(STUB)
  }

  ghost predicate Contents(data: seq<seq<byte>>)
  {
    |data| == 4 && NameTable(data[0]) && |data[1]| == 10 && data[2] != [] && STUB_CODE_OFFSET < |data[3]| <= 0x1000
  }

  /** The four sections, wherever they are placed. */
  ghost predicate Sectioned(v: Image)
  {
    && v.enc == Enc(Elf64, Little) && v.ehdr.shstrndx == 0 && |v.shdrs| == |v.data| == 4
    && (forall i :: 0 <= i < 4 ==> v.shdrs[i] == Section(i, v.shdrs[i].addr, v.shdrs[i].offset, v.shdrs[i].size))
    && Contents(v.data)
  }

  lemma NamesAre()
    ensures NameTable(NAMES)
  {
    AsciiClean(".dynstr");
    AsciiClean(".formatelf.entry");
    NulEndUnique(NAMES, 0, 0);
    SymbolNames.AppendReads([0], DYNSTR);
    SymbolNames.AppendKeeps([0] + DYNSTR + [0], STUB + [0], 1);
    SeqAssoc([0] + DYNSTR + [0], STUB, [0]);
    SymbolNames.CStrIsNameAt(NAMES, 1);
    SymbolNames.AppendReads([0] + DYNSTR + [0], STUB);
    SymbolNames.CStrIsNameAt(NAMES, 9);
  }

  lemma OtherNames()
    ensures forall name :: name in [INTERP, ABIFLAGS, LDCACHE, RLD_MAP, BUN] ==>
              name != [] && name != DYNSTR && name != STUB
    ensures DYNSTR != [] && STUB != [] && DYNSTR != STUB
  {
    assert |DYNSTR| == |INTERP| == 7 && DYNSTR[1] == 'd' as int && INTERP[1] == 'i' as int;
    assert |ABIFLAGS| == 14 && |LDCACHE| == 19 && |STUB| == 16 && |RLD_MAP| == 8 && |BUN| == 4;
  }

  lemma Finds(v: Image)
    requires Sectioned(v)
    ensures v.FindSection(DYNSTR) == Some(1) && v.FindSection(STUB) == Some(3) && v.DynIdx() == Some(2)
    ensures forall name :: name in [INTERP, ABIFLAGS, LDCACHE, RLD_MAP, BUN] ==> v.FindSection(name).None?
  {
    OtherNames();
    var names := v.Named(DYNSTR);
    assert !names[0] && names[1];
    FirstTrueIs(names, 1);
    var stubs := v.Named(STUB);
    assert !stubs[0] && !stubs[1] && !stubs[2] && stubs[3];
    FirstTrueIs(stubs, 3);
    FirstDynamicIs(v.shdrs, 2);
    forall name | name in [INTERP, ABIFLAGS, LDCACHE, RLD_MAP, BUN] ensures v.FindSection(name).None? {
      var bs := v.Named(name);
      assert !bs[0] && !bs[1] && !bs[2] && !bs[3];
    }
  }

  // ---- The images of the family ----

  predicate AddressesApart(s: Shdr, t: Shdr)
  {
    s.addr == 0 || t.addr == 0 || s.addr + s.size <= t.addr || t.addr + t.size <= s.addr
  }

  /** A library, then the string table's address and size. */
  ghost predicate Tagged(ds: seq<DynEntry>, addr: nat)
  {
    && |ds| == 4 && ds[0] == DynEntry(DT_NEEDED, 8) && ds[1] == DynEntry(DT_STRTAB, addr) && ds[2].tag == DT_STRSZ
    && ds[3] == DynEntry(DT_NULL, 0)
  }

  /** The image a run starts from: one load, the sections anywhere, their old address
      ranges apart, and a dynamic array that names the string table. */
  ghost predicate Sampled(v: Image, ident: seq<byte>, base: nat)
  {
    && |ident| == 16 && Based(base) && Sectioned(v) && v.phdrs == Table(base, false)
    && v.ehdr == Ehdr(ET_DYN, 62, 1, v.ehdr.entry, v.ehdr.phoff, v.ehdr.shoff, 0, 64, 56, 64, 0, ident)
    && Tagged(v.dynamic, v.shdrs[1].addr) && v.shdrs[1].addr > 0 && v.shdrs[1].size > 0
    && v.shdrs[2].size <= 64 && v.shdrs[2].size % 16 == 0
    && forall i, j :: 0 <= i < j < 4 ==> AddressesApart(v.shdrs[i], v.shdrs[j])
  }

  const ALL: seq<bool> := [true, true, true, true]

  lemma {:induction false} IndicesOf4(bs: seq<bool>, code: bool)
    requires bs == if code then [false, false, false, true] else [true, true, true, false]
    ensures Indices(bs) == if code then [3] else [0, 1, 2]
  {
    var b3, b2, b1, b0 := bs[..3], bs[..3][..2], bs[..3][..2][..1], bs[..3][..2][..1][..0];
    assert b0 == [] && Indices(b0) == [];
    assert Indices(b1) == if code then [] else [0];
    assert Indices(b2) == if code then [] else [0, 1];
    assert Indices(b3) == if code then [] else [0, 1, 2];
  }

  lemma CodeAndData(v: Image)
    requires Sectioned(v)
    ensures Indices(DataFlags(v, ALL)) == [0, 1, 2] && Indices(ExecFlags(v, ALL)) == [3]
  {
    assert !HasFlag(0, SHF_EXECINSTR) && !HasFlag(SHF_ALLOC, SHF_EXECINSTR);
    assert HasFlag(SHF_ALLOC + SHF_EXECINSTR, SHF_EXECINSTR);
    assert DataFlags(v, ALL) == [true, true, true, false];
    assert ExecFlags(v, ALL) == [false, false, false, true];
    IndicesOf4(DataFlags(v, ALL), false);
    IndicesOf4(ExecFlags(v, ALL), true);
  }

  // ---- Its region ----

  /** The end of the data sections is below the first page's end. */
  lemma DataEnd(v: Image, head: nat)
    requires Sectioned(v) && WellShaped(v) && |v.dynamic| == 4 && v.shdrs[2].size <= 64 && head <= 512
    ensures InRange(v, [0, 1, 2]) && LayoutEnd(v, [0, 1, 2], head) <= PAGE
  {
    Finds(v);
    var one: seq<nat>, two: seq<nat>, three: seq<nat> := [0], [0, 1], [0, 1, 2];
    assert one[..0] == [] && two[..1] == one && three[..2] == two;
    assert SecAlign(v, 0) == 16 && SecAlign(v, 1) == 16 && SecAlign(v, 2) == 16;
    assert SectionLen(v, 0) == 26 && SectionLen(v, 1) == 10 && SectionLen(v, 2) == 64;
    RoundUpFacts(head, 16);
    assert LayoutEnd(v, one[..0], head) == head;
    var e1 := LayoutEnd(v, one, head);
    assert e1 == RoundUp(head, 16) + 26;
    RoundUpFacts(e1, 16);
    var e2 := LayoutEnd(v, two, head);
    assert e2 == RoundUp(e1, 16) + 10;
    RoundUpFacts(e2, 16);
    assert LayoutEnd(v, three, head) == RoundUp(e2, 16) + 64;
  }

  lemma CodeEnd(v: Image, start: nat)
    requires Sectioned(v) && WellShaped(v) && start == PAGE
    ensures InRange(v, [3]) && LayoutEnd(v, [3], start) == PAGE + |v.data[3]| <= 0x2000
  {
    Finds(v);
    var one: seq<nat> := [3];
    assert one[..0] == [] && LayoutEnd(v, one[..0], start) == start;
    assert SecAlign(v, 3) == 16 && RoundUp(start, 16) == start;
  }

  /** Everything moves, the stub alone in the code part, within two pages. */
  lemma SamplePlan(v: Image, ident: seq<byte>, base: nat, head1: nat, head2: nat)
    requires Sampled(v, ident, base) && 0 < head2 <= 512
    ensures var r := Plan(v, ALL, head1, head2, PAGE);
            && r.sections == [0, 1, 2, 3] && |r.offsets| == 4 && r.loads == 2
            && r.dataLen == PAGE && r.len == PAGE + |v.data[3]| <= 0x2000
  {
    CodeAndData(v);
    DataEnd(v, head2);
    var end := LayoutEnd(v, [0, 1, 2], head2);
    RoundUpFacts(end, PAGE);
    OnePage(end);
    CodeEnd(v, PAGE);
  }

  lemma SampleRegion(v: Image, ident: seq<byte>, base: nat)
    requires Sampled(v, ident, base)
    ensures var r := AppendRegion(v, ALL, PAGE);
            && r.sections == [0, 1, 2, 3] && |r.offsets| == 4 && r.loads == 2
            && r.dataLen == PAGE && r.len == PAGE + |v.data[3]| <= 0x2000
  {
    assert AppendPhtSize(v, 2) + ShtSize(v) == 496;
    SamplePlan(v, ident, base, AppendPhtSize(v, 1) + ShtSize(v), AppendPhtSize(v, 2) + ShtSize(v));
  }

  lemma OnePage(end: nat)
    requires 0 < end <= PAGE
    ensures RoundUp(end, PAGE) == PAGE
  {
  }

  lemma SamplePlace(v: Image, ident: seq<byte>, base: nat, cut: nat)
    requires Sampled(v, ident, base) && 0x200 <= cut <= PAGE
    ensures AppendOffset(v, cut, PAGE) == PAGE && Loads(v.phdrs) == [OneLoad(base)] && BaseVaddr(Loads(v.phdrs)) == base
    ensures MaxAlign(v.phdrs, PAGE) == PAGE
  {
    OnlyLoad(base, false);
    Measures(base);
    assert RoundUp(base + 0x200, PAGE) == base + PAGE;
    assert RoundUp(PAGE, PAGE) == PAGE;
  }

  // ---- Its conditions ----

  /** A run of the append layout on the sample. */
  ghost predicate SampleRun(v: Image, ident: seq<byte>, base: nat, job: Job)
  {
    && Sampled(v, ident, base) && job.flags == ALL && job.note.None? && job.img == WithTables(v, job.g)
      && job.hi >= 0x200
    && job.g.region.sections == [0, 1, 2, 3] && |job.g.region.offsets| == 4 && job.g.region.loads == 2
  }

  lemma SampleRunOf(v: Image, ident: seq<byte>, base: nat, cut: nat)
    requires Sampled(v, ident, base) && 0x200 <= cut <= PAGE
    ensures SampleRun(v, ident, base, AppendJob(v, ALL, cut, PAGE))
  {
    SampleRegion(v, ident, base);
    Finds(v);
  }

  lemma SampleSections(v: Image, ident: seq<byte>, base: nat, job: Job)
    requires SampleRun(v, ident, base, job)
    ensures Sectioned(job.img) && WellShaped(job.img) && KeptSections(job.img, job.flags, job.lo, job.hi)
    ensures ClassSizes(job.img) && NamesFixed(job.img) && SectionLinks(job.img)
  {
    Finds(job.img);
    forall i: nat ensures !Kept(job.img, ALL, i) {
    }
  }

  lemma SampleSegments(v: Image, ident: seq<byte>, base: nat, job: Job)
    requires SampleRun(v, ident, base, job)
    ensures SegmentsReady(job) && InterpReady(job)
  {
    SampleSections(v, ident, base, job);
    Finds(job.img);
    assert job.img.phdrs == [OneLoad(base)];
  }

  lemma SampleEntry(v: Image, ident: seq<byte>, base: nat, job: Job)
    requires SampleRun(v, ident, base, job)
    ensures EntryReady(job)
  {
    SampleSections(v, ident, base, job);
    Finds(job.img);
    assert HasFlag(SHF_ALLOC + SHF_EXECINSTR, SHF_EXECINSTR);
  }

  lemma SampleRanges(v: Image, ident: seq<byte>, base: nat, job: Job)
    requires SampleRun(v, ident, base, job)
    ensures Placeable(job.img, job.g.region) && OldRangesDisjoint(job.img, job.g.region)
  {
    var img, r := job.img, job.g.region;
    forall k, l | 0 <= k < l < 4 ensures AddressesApart(img.shdrs[r.sections[k]], img.shdrs[r.sections[l]]) {
      assert r.sections[k] == k && r.sections[l] == l;
    }
  }

  /** The string table's address is in the string table's old range. */
  lemma SampleAddress(v: Image, ident: seq<byte>, base: nat, job: Job)
    requires SampleRun(v, ident, base, job)
    ensures Placeable(job.img, job.g.region) && AddressReady(job, job.img.shdrs[1].addr)
  {
    SampleSections(v, ident, base, job);
    Finds(job.img);
    var img, r := job.img, job.g.region;
    var a := img.shdrs[1].addr;
    assert r.sections[1] == 1 && HitBy(img, r, a, 1) && a - a < SectionLen(img, 1);
  }

  lemma TagsOf(ds: seq<DynEntry>, addr: nat)
    requires Tagged(ds, addr)
    ensures DynVal(ds, DT_STRTAB) == Some(addr)
    ensures forall d :: d in ds ==> (d.tag in STR_TAGS ==> d.val == 8) && (d.tag in ADDR_TAGS ==> d.val == addr)
  {
    assert ds[0].tag == DT_NEEDED && ds[1].tag == DT_STRTAB && ds[2].tag == DT_STRSZ && ds[3].tag == DT_NULL;
    assert ds == [ds[0], ds[1], ds[2], ds[3]];
  }

  lemma SampleDynamic(v: Image, ident: seq<byte>, base: nat, job: Job)
    requires SampleRun(v, ident, base, job)
    ensures DynReady(job)
  {
    SampleSections(v, ident, base, job);
    Finds(job.img);
    SampleRanges(v, ident, base, job);
    SampleAddress(v, ident, base, job);
    TagsOf(v.dynamic, v.shdrs[1].addr);
  }

  /** What either layout needs of the sample. */
  lemma SampleSound(v: Image, ident: seq<byte>, base: nat, job: Job)
    requires SampleRun(v, ident, base, job)
    ensures InputReady(job)
  {
    OnlyLoad(base, false);
    LoadsHold(base, false);
    AlignsHold(base, false);
    SampleSections(v, ident, base, job);
    SampleSegments(v, ident, base, job);
    SampleEntry(v, ident, base, job);
    SampleDynamic(v, ident, base, job);
  }

  /** The sample can be appended to. */
  lemma SampleAccepts(v: Image, ident: seq<byte>, base: nat, cut: nat)
    requires Sampled(v, ident, base) && 0x200 <= cut <= PAGE
    ensures AppendReady(v, ALL, cut, PAGE)
  {
    SampleRunOf(v, ident, base, cut);
    OnlyLoad(base, false);
    Measures(base);
    PowersHere();
    SampleSound(v, ident, base, AppendJob(v, ALL, cut, PAGE));
  }

  // ---- Below the image base ----

  /** The region is two pages long, and there is room for it below the base. */
  lemma PrependPlace(v: Image, ident: seq<byte>, keepTail: bool)
    requires Sampled(v, ident, 0x10000)
    ensures CanPrepend(v, ALL, PAGE, keepTail) && PrependShift(v, ALL, PAGE, keepTail) == 0x2000
    ensures var r := PrependRegion(v, ALL, PAGE, keepTail);
            r.sections == [0, 1, 2, 3] && |r.offsets| == 4 && r.loads == 2
  {
    var h1, h2 := PrependHead(v, 1, keepTail), PrependHead(v, 2, keepTail);
    assert h2 == if keepTail then 496 else 240;
    SamplePlan(v, ident, 0x10000, h1, h2);
    OnlyLoad(0x10000, false);
    Measures(0x10000);
    TwoPages(PAGE + |v.data[3]|);
  }

  lemma TwoPages(len: nat)
    requires PAGE < len <= 0x2000
    ensures RoundUp(len, PAGE) == 0x2000
  {
  }

  /** The sample can be prepended to: all of its sections move below it. */
  lemma SamplePrepends(v: Image, ident: seq<byte>, len: nat, keepTail: bool)
    requires Sampled(v, ident, 0x10000) && len >= 0x200
    ensures PrependReady(v, ALL, len, PAGE, keepTail)
  {
    PrependPlace(v, ident, keepTail);
    Finds(v);
    PowersHere();
    SampleSound(v, ident, 0x10000, PrependInput(v, ALL, len, PAGE, keepTail));
  }

  // ---- The image after a run ----

  lemma SmallDyn(enc: Enc, d: DynEntry)
    requires enc.class_.Elf64? && 0 <= d.tag < 0x100 && d.val < 0x100_0000
    ensures WriteDyn(enc, d).Ok?
  {
    Pow256Widths();
  }

  /** The offsets of a region of the four sections: in order, past the header room. */
  ghost predicate Spread(img: Image, r: Region)
    requires WellShaped(img)
  {
    && |img.shdrs| == 4 && |r.offsets| == 4
    && (forall k, l :: 0 <= k < l < 4 ==> r.offsets[k] + SectionLen(img, k) <= r.offsets[l])
    && forall k :: 0 <= k < 4 ==> 0 < r.offsets[k] && r.offsets[k] + SectionLen(img, k) <= 0x2000
  }

  lemma RegionSpread(img: Image, r: Region, head: nat)
    requires WellShaped(img) && |img.shdrs| == 4 && RegionOk(img, r, ALL, head, PAGE)
    requires r.sections == [0, 1, 2, 3] && r.len <= 0x2000 && 0 < head
    ensures Spread(img, r)
  {
    forall k | 0 <= k < 4
      ensures r.sections[k] == k && 0 < r.offsets[k] && r.offsets[k] + SectionLen(img, k) <= 0x2000
    {
      assert SectionPlaced(img, r, k, head);
    }
    forall k, l | 0 <= k < l < 4
      ensures r.offsets[k] + SectionLen(img, k) <= r.offsets[l]
    {
      assert r.sections[k] == k && RelEnd(img, r, k) <= r.offsets[l];
    }
  }

  /** The run: its region starts at the first page past the program. */
  lemma SampleJob(v: Image, ident: seq<byte>, base: nat, cut: nat)
    requires Sampled(v, ident, base) && 0x200 <= cut <= PAGE
    ensures var job := AppendJob(v, ALL, cut, PAGE);
            && SampleRun(v, ident, base, job) && FileReady(job) && !job.front
            && job.g.at.off == PAGE && job.g.at.vaddr == base + PAGE
  {
    SampleAccepts(v, ident, base, cut);
    AppendIsReady(v, ALL, cut, PAGE);
    SampleRunOf(v, ident, base, cut);
    SamplePlace(v, ident, base, cut);
  }

  lemma SampleSpread(v: Image, ident: seq<byte>, base: nat, cut: nat)
    requires Sampled(v, ident, base) && 0x200 <= cut <= PAGE
    ensures var job := AppendJob(v, ALL, cut, PAGE); WellShaped(job.img) && Spread(job.img, job.g.region)
  {
    SampleRegion(v, ident, base);
    AppendRegionOk(v, ALL, cut, PAGE);
    var job := AppendJob(v, ALL, cut, PAGE);
    RegionSpread(job.img, job.g.region, job.head);
  }

  function AllMoves(job: Job): seq<Moved>
    requires Placeable(job.img, job.g.region)
  {
    Moves(job.img, job.g.region, job.g.at.vaddr, |job.g.region.sections|)
  }

  /** The string table's address is rebased to its new place. */
  lemma SampleRebase(v: Image, ident: seq<byte>, base: nat, job: Job)
    requires SampleRun(v, ident, base, job)
    ensures Placeable(job.img, job.g.region)
    ensures Rebase(AllMoves(job), job.img.shdrs[1].addr) == job.g.at.vaddr + job.g.region.offsets[1]
  {
    SampleRanges(v, ident, base, job);
    var r, a := job.g.region, job.img.shdrs[1].addr;
    assert r.sections[1] == 1 && HitBy(job.img, r, a, 1);
    RebaseHit(job.img, r, job.g.at.vaddr, |r.sections|, a, 1);
  }

  /** The string table's final header. */
  lemma SampleStrings(v: Image, ident: seq<byte>, base: nat, job: Job)
    requires SampleRun(v, ident, base, job)
    ensures Placeable(job.img, job.g.region) && 1 < |job.img.shdrs|
    ensures PlacedShdr(job.img, job.g.region, job.g.at.off, job.g.at.vaddr, 1).size == 10
  {
    SampleSections(v, ident, base, job);
    Finds(job.img);
    var r := job.g.region;
    assert r.sections[1] == 1 && 1 in r.sections;
  }

  lemma FixedTags(p: Image, moves: seq<Moved>, a: nat, b: nat)
    requires Tagged(p.dynamic, a) && Rebase(moves, a) == b
    requires p.FindSection(DYNSTR) == Some(1) && 1 < |p.shdrs| && p.shdrs[1].size == 10
    ensures FixedDynamic(p, moves) == TagsAt(b)
  {
    assert FixedEntry(p, moves, 0) == DynEntry(DT_NEEDED, 8);
    assert FixedEntry(p, moves, 1) == DynEntry(DT_STRTAB, b);
    assert FixedEntry(p, moves, 2) == DynEntry(DT_STRSZ, 10);
    assert FixedEntry(p, moves, 3) == DynEntry(DT_NULL, 0);
  }

  function TagsAt(addr: nat): seq<DynEntry>
  {
    [DynEntry(DT_NEEDED, 8), DynEntry(DT_STRTAB, addr), DynEntry(DT_STRSZ, 10), DynEntry(DT_NULL, 0)]
  }

  /** The dynamic array after the move: the string table's new address and size. */
  function NewTags(job: Job): seq<DynEntry>
    requires 1 < |job.g.region.offsets|
  {
    TagsAt(job.g.at.vaddr + job.g.region.offsets[1])
  }

  /** Pushing leaves the dynamic array and finds the string table at its new size. */
  lemma PushedStrings(v: Image, ident: seq<byte>, base: nat, job: Job)
    requires SampleRun(v, ident, base, job) && job.g.region.dataLen <= job.g.region.len
    ensures Placeable(job.img, job.g.region)
    ensures var p := Pushed(job.img, job.g, false);
            && Tagged(p.dynamic, job.img.shdrs[1].addr) && p.FindSection(DYNSTR) == Some(1)
            && |p.shdrs| == 4 && p.shdrs[1].size == 10
  {
    SampleSections(v, ident, base, job);
    SampleStrings(v, ident, base, job);
    PushedShape(job.img, job.g, false);
    Finds(job.img);
    SameFind(job.img, Pushed(job.img, job.g, false), DYNSTR);
  }

  lemma SampleFixed(v: Image, ident: seq<byte>, base: nat, job: Job)
    requires SampleRun(v, ident, base, job) && job.g.region.dataLen <= job.g.region.len
    ensures Placeable(job.img, job.g.region)
    ensures FixedDynamic(Pushed(job.img, job.g, false), AllMoves(job)) == NewTags(job)
  {
    PushedStrings(v, ident, base, job);
    SampleRebase(v, ident, base, job);
    FixedAt(Pushed(job.img, job.g, false), job, job.img.shdrs[1].addr);
  }

  lemma FixedAt(p: Image, job: Job, a: nat)
    requires Tagged(p.dynamic, a) && Placeable(job.img, job.g.region) && 1 < |job.g.region.offsets|
    requires Rebase(AllMoves(job), a) == job.g.at.vaddr + job.g.region.offsets[1]
    requires p.FindSection(DYNSTR) == Some(1) && 1 < |p.shdrs| && p.shdrs[1].size == 10
    ensures FixedDynamic(p, AllMoves(job)) == NewTags(job)
  {
    FixedTags(p, AllMoves(job), a, job.g.at.vaddr + job.g.region.offsets[1]);
  }

  lemma FinishOk(p: Image, note: Option<nat>, phdrVaddr: nat, moves: seq<Moved>, ds: seq<DynEntry>)
    requires WellShaped(p) && FixedDynamic(p, moves) == ds && Concat(WrittenDyns(p.enc, ds)).Ok?
    ensures Finished(p, note, phdrVaddr, moves).Ok?
  {
  }

  lemma ArrangedIs(img: Image, g: Geometry, note: Option<nat>)
    requires Placeable(img, g.region) && g.region.dataLen <= g.region.len
    ensures Arranged(img, g, note, false)
            == Finished(Pushed(img, g, false), note, PhdrVaddr(g),
                        Moves(img, g.region, g.at.vaddr, |g.region.sections|))
  {
  }

  lemma RunOk(v: Image, ident: seq<byte>, base: nat, job: Job)
    requires SampleRun(v, ident, base, job) && job.g.region.dataLen <= job.g.region.len
    requires job.g.at.vaddr + job.g.region.offsets[1] < 0x100_0000
    ensures Placeable(job.img, job.g.region) && Arranged(job.img, job.g, job.note, false).Ok?
  {
    SampleFixed(v, ident, base, job);
    ArrangesSmall(job.img, job.g, job.note, NewTags(job));
  }

  /** An array of small entries can be encoded, so the image can be arranged. */
  lemma ArrangesSmall(img: Image, g: Geometry, note: Option<nat>, ds: seq<DynEntry>)
    requires Arrangeable(img, g) && img.enc.class_.Elf64?
    requires FixedDynamic(Pushed(img, g, false), Moves(img, g.region, g.at.vaddr, |g.region.sections|)) == ds
    requires forall i :: 0 <= i < |ds| ==> 0 <= ds[i].tag < 0x100 && ds[i].val < 0x100_0000
    ensures Arranged(img, g, note, false).Ok?
  {
    ArrangedIs(img, g, note);
    PushedShape(img, g, false);
    var p := Pushed(img, g, false);
    SmallDyns(p.enc, ds);
    FinishOk(p, note, PhdrVaddr(g), Moves(img, g.region, g.at.vaddr, |g.region.sections|), ds);
  }

  /** Nothing keeps the run from succeeding. */
  lemma SampleOk(v: Image, ident: seq<byte>, base: nat, cut: nat)
    requires Sampled(v, ident, base) && 0x200 <= cut <= PAGE
    ensures Appended(v, ALL, cut, PAGE).Ok?
  {
    var job := AppendJob(v, ALL, cut, PAGE);
    SampleJob(v, ident, base, cut);
    SampleSpread(v, ident, base, cut);
    RunOk(v, ident, base, job);
    NoReferences(v, OldRanges(v, job.g.region.sections, 4));
  }

  lemma SmallDyns(enc: Enc, ds: seq<DynEntry>)
    requires enc.class_.Elf64? && forall i :: 0 <= i < |ds| ==> 0 <= ds[i].tag < 0x100 && ds[i].val < 0x100_0000
    ensures Concat(WrittenDyns(enc, ds)).Ok?
  {
    forall i | 0 <= i < |ds| ensures WriteDyn(enc, ds[i]).Ok? {
      SmallDyn(enc, ds[i]);
    }
    ConcatOk(WrittenDyns(enc, ds));
  }

  /** No section of the sample holds relocations or symbols. */
  lemma NoReferences(v: Image, ranges: seq<(nat, nat)>)
    requires Sectioned(v) && WellShaped(v)
    ensures NoAddressRefs(v, ranges)
  {
  }

  // ---- The image after a run ----

  /** Section `k` lies in the new region. */
  predicate InRegion(f: Image, job: Job, k: nat)
    requires WellShaped(job.img) && k < |job.img.shdrs| && k < |job.g.region.offsets| && k < |f.shdrs|
  {
    var x := job.g.region.offsets[k];
    f.shdrs[k] == Section(k, job.g.at.vaddr + x, job.g.at.off + x, SectionLen(job.img, k))
  }

  lemma RunPlaces(v: Image, ident: seq<byte>, base: nat, job: Job, f: Image, k: nat)
    requires SampleRun(v, ident, base, job) && Yields(job, f) && k < 4
    ensures WellShaped(job.img) && |job.img.shdrs| == 4 && |f.shdrs| == 4 && InRegion(f, job, k)
  {
    SampleSections(v, ident, base, job);
    FinalPlace(job, f, k);
  }

  lemma FinalPlace(job: Job, f: Image, k: nat)
    requires Yields(job, f) && Sectioned(job.img) && WellShaped(job.img) && job.g.region.sections == [0, 1, 2, 3]
    requires |job.g.region.offsets| == 4 && k < 4
    ensures |f.shdrs| == 4 && InRegion(f, job, k)
  {
    FinalHeader(job, f, k);
    PlacedAt(job.img, job.g.region, job.g.at, k);
  }

  lemma FinalHeader(job: Job, f: Image, k: nat)
    requires Yields(job, f) && k < |job.img.shdrs|
    ensures |f.shdrs| == |job.img.shdrs|
    ensures f.shdrs[k] == PlacedShdr(job.img, job.g.region, job.g.at.off, job.g.at.vaddr, k)
  {
    FinalFields(job.img, job.g, job.note, job.front, f);
  }

  lemma PlacedAt(img: Image, r: Region, at: Site, k: nat)
    requires Sectioned(img) && Placeable(img, r) && r.sections == [0, 1, 2, 3] && k < 4
    ensures PlacedShdr(img, r, at.off, at.vaddr, k) == Section(k, at.vaddr + r.offsets[k], at.off + r.offsets[k],
                                                               SectionLen(img, k))
  {
    assert r.sections[k] == k;
    IndexOfDistinct(r.sections, k);
  }

  lemma RunData(v: Image, ident: seq<byte>, base: nat, job: Job, f: Image)
    requires SampleRun(v, ident, base, job) && FileReady(job) && Yields(job, f)
    ensures |f.data| == 4 && f.data[0] == v.data[0] && f.data[1] == v.data[1] && f.data[2] != []
            && f.data[3] == v.data[3]
    ensures |f.phdrs| == 3 && f.enc == v.enc && f.ehdr == job.img.ehdr.(entry := f.ehdr.entry)
  {
    SampleSections(v, ident, base, job);
    Finds(job.img);
    FinalFields(job.img, job.g, job.note, job.front, f);
    FinalDynamicData(job.img, job.g, job.note, job.front, f, 2);
  }

  lemma RunTags(v: Image, ident: seq<byte>, base: nat, job: Job, f: Image)
    requires SampleRun(v, ident, base, job) && FileReady(job) && Yields(job, f) && !job.front
    ensures f.dynamic == TagsAt(job.g.at.vaddr + job.g.region.offsets[1])
  {
    SampleFixed(v, ident, base, job);
  }

  lemma RegionApart(f: Image, job: Job)
    requires WellShaped(job.img) && Spread(job.img, job.g.region) && |f.shdrs| == 4
    requires forall k :: 0 <= k < 4 ==> InRegion(f, job, k)
    ensures forall i, j :: 0 <= i < j < 4 ==> AddressesApart(f.shdrs[i], f.shdrs[j])
  {
    forall i, j | 0 <= i < j < 4 ensures AddressesApart(f.shdrs[i], f.shdrs[j]) {
      assert InRegion(f, job, i) && InRegion(f, job, j);
    }
  }

  /** The sections in a new region, from file position `from` on. */
  ghost predicate Lying(f: Image, from: nat)
  {
    && |f.shdrs| == 4
    && (forall i :: 0 <= i < 4 ==> f.shdrs[i] == Section(i, f.shdrs[i].addr, f.shdrs[i].offset, f.shdrs[i].size))
    && f.shdrs[1].addr > 0 && f.shdrs[1].size == 10 && f.shdrs[2].size == 64
    && (forall i, j :: 0 <= i < j < 4 ==> AddressesApart(f.shdrs[i], f.shdrs[j]))
    && forall k :: 0 <= k < 4 ==> f.shdrs[k].offset >= from
  }

  /** The final image's sections, and what its dynamic array says of them. */
  ghost predicate Resting(f: Image, from: nat)
  {
    Sectioned(f) && Lying(f, from) && f.dynamic == TagsAt(f.shdrs[1].addr)
  }

  lemma RunRests(v: Image, ident: seq<byte>, base: nat, job: Job, f: Image)
    requires SampleRun(v, ident, base, job) && FileReady(job) && Yields(job, f) && !job.front
             && Spread(job.img, job.g.region)
    ensures Resting(f, job.g.at.off)
  {
    RunContents(v, ident, base, job, f);
    RunTags(v, ident, base, job, f);
    RunLies(v, ident, base, job, f);
  }

  lemma RunLies(v: Image, ident: seq<byte>, base: nat, job: Job, f: Image)
    requires SampleRun(v, ident, base, job) && Yields(job, f) && WellShaped(job.img) && Spread(job.img, job.g.region)
    ensures Lying(f, job.g.at.off) && f.shdrs[1].addr == job.g.at.vaddr + job.g.region.offsets[1]
  {
    RunPlaced(v, ident, base, job, f);
    RunSizes(v, ident, base, job);
    Lies(f, job);
  }

  lemma Lies(f: Image, job: Job)
    requires WellShaped(job.img) && Spread(job.img, job.g.region) && |f.shdrs| == 4
    requires forall k :: 0 <= k < 4 ==> InRegion(f, job, k)
    requires SectionLen(job.img, 1) == 10 && SectionLen(job.img, 2) == 64
    ensures Lying(f, job.g.at.off) && f.shdrs[1].addr == job.g.at.vaddr + job.g.region.offsets[1]
  {
    assert InRegion(f, job, 0) && InRegion(f, job, 1) && InRegion(f, job, 2) && InRegion(f, job, 3);
    RegionApart(f, job);
  }

  lemma RunPlaced(v: Image, ident: seq<byte>, base: nat, job: Job, f: Image)
    requires SampleRun(v, ident, base, job) && Yields(job, f)
    ensures WellShaped(job.img) && |job.img.shdrs| == 4 && |f.shdrs| == 4
    ensures forall k :: 0 <= k < 4 ==> InRegion(f, job, k)
  {
    RunPlaces(v, ident, base, job, f, 0);
    forall k | 0 <= k < 4 ensures InRegion(f, job, k) {
      RunPlaces(v, ident, base, job, f, k);
    }
  }

  lemma RunContents(v: Image, ident: seq<byte>, base: nat, job: Job, f: Image)
    requires SampleRun(v, ident, base, job) && FileReady(job) && Yields(job, f)
    ensures f.enc == Enc(Elf64, Little) && f.ehdr.shstrndx == 0 && Contents(f.data)
  {
    RunData(v, ident, base, job, f);
    SameContents(v.data, f.data);
  }

  lemma SameContents(a: seq<seq<byte>>, b: seq<seq<byte>>)
    requires Contents(a) && |b| == 4 && b[0] == a[0] && b[1] == a[1] && b[2] != [] && b[3] == a[3]
    ensures Contents(b)
  {
  }

  /** The final image with the loads the run started from. */
  lemma RunSampled(v: Image, ident: seq<byte>, base: nat, job: Job, f: Image, d: Image)
    requires SampleRun(v, ident, base, job) && FileReady(job) && Yields(job, f) && !job.front
             && Spread(job.img, job.g.region)
    requires d == f.(phdrs := Table(base, false))
    ensures Sectioned(f) && Sampled(d, ident, base)
    ensures forall k :: 0 <= k < 4 ==> f.shdrs[k].offset >= job.g.at.off
  {
    RunRests(v, ident, base, job, f);
    RunData(v, ident, base, job, f);
  }

  lemma RunSizes(v: Image, ident: seq<byte>, base: nat, job: Job)
    requires SampleRun(v, ident, base, job)
    ensures WellShaped(job.img) && |job.img.shdrs| == 4 && SectionLen(job.img, 1) == 10 && SectionLen(job.img, 2) == 64
  {
    SampleSections(v, ident, base, job);
    Finds(job.img);
  }

  /** The next run drops the region's two loads and starts from one load again. */
  lemma NextTable(job: Job, f: Image, base: nat)
    requires Reclaim.AppendRun(job, f) && Reclaim.NoLoadAt(job) && Reclaim.StubStarts(job, f)
    requires job.img.phdrs == Table(base, false) && job.g.region.loads == 2 && |f.phdrs| == 3
    ensures RegionStart(f, true) == Some(f.ehdr.phoff) && DropPrior(f, true) == f.(phdrs := Table(base, false))
  {
    NoEdits(f);
    Reclaim.PriorIsDataLoad(job, f, f);
    Reclaim.DataLoadGone(job, f, f);
    var w := f.(phdrs := Remove(f.phdrs, 1));
    Reclaim.CodeLoadFound(job, f, f, w);
    Reclaim.RunFacts(job, f);
    FirstStays(f, base, NewLoads(job.g.region, job.g.at));
  }

  lemma FirstStays(f: Image, base: nat, news: seq<Phdr>)
    requires Reclaim.Extends(Table(base, false), news, f.phdrs) && |f.phdrs| == 3
    ensures Remove(Remove(f.phdrs, 1), 1) == Table(base, false)
  {
    assert Reclaim.SameLoad(OneLoad(base), f.phdrs[0]);
  }

  /** What a run leaves is a sample again. */
  lemma SampleAgain(v: Image, ident: seq<byte>, base: nat, cut: nat, f: Image)
    requires Sampled(v, ident, base) && 0x200 <= cut <= PAGE && Appended(v, ALL, cut, PAGE) == Ok(f)
    ensures Sectioned(f) && WellShaped(f) && Sampled(DropPrior(f, true), ident, base)
            && RegionStart(f, true) == Some(PAGE)
    ensures forall k :: 0 <= k < 4 ==> f.shdrs[k].offset >= PAGE
    ensures Reclaim.NoLoadAt(AppendJob(v, ALL, cut, PAGE)) && AppendReady(v, ALL, cut, PAGE)
  {
    var job := AppendJob(v, ALL, cut, PAGE);
    SampleJob(v, ident, base, cut);
    SampleSpread(v, ident, base, cut);
    SampleAccepts(v, ident, base, cut);
    AppendTheorems.AppendedYields(v, ALL, cut, PAGE);
    RunSampled(v, ident, base, job, f, f.(phdrs := Table(base, false)));
    Reclaim.AppendIsRun(v, ALL, cut, PAGE);
    OnlyStubMoves(v, ident, base);
    Reclaim.AppendStarts(v, ALL, cut, PAGE);
    RunData(v, ident, base, job, f);
    NoLoadAtPage(base, job);
    Reclaim.RunFacts(job, f);
    NextTable(job, f, base);
  }

  lemma NoLoadAtPage(base: nat, job: Job)
    requires job.img.phdrs == Table(base, false) && job.g.at.off == PAGE
    ensures Reclaim.NoLoadAt(job)
  {
    OnlyLoad(base, false);
  }

  lemma OnlyStubMoves(v: Image, ident: seq<byte>, base: nat)
    requires Sampled(v, ident, base)
    ensures Reclaim.CodeIsStub(v, ALL, PAGE)
  {
    Finds(v);
    assert !HasFlag(0, SHF_EXECINSTR) && !HasFlag(SHF_ALLOC, SHF_EXECINSTR);
  }

  // ---- Any number of runs ----

  /** An image a run can start from: a sample once the last region is dropped, all of
      whose sections move. */
  ghost predicate Starts(v: Image, len: nat, ident: seq<byte>, base: nat)
  {
    && Sectioned(v) && WellShaped(v) && Sampled(DropPrior(v, true), ident, base)
    && match RegionStart(v, true)
       case Some(a) => a == PAGE && forall i :: 0 <= i < 4 ==> v.shdrs[i].offset >= PAGE
       case None => 0x200 <= len <= PAGE && forall i: nat :: i < 4 ==> Resized(v, i)
  }

  lemma StartFlags(r: Repatch.Run, ident: seq<byte>, base: nat)
    requires Starts(r.before, r.len, ident, base)
    ensures r.Flags() == ALL && 0x200 <= r.CutAt() <= PAGE
  {
    Finds(r.before);
    forall i: nat | i < 4 ensures r.Flags()[i] {
      Repatch.MovesIff(r, i);
    }
  }

  /** Edits did not touch code, and the stub has bytes. */
  lemma StartCode(v: Image)
    requires Sectioned(v) && WellShaped(v)
    ensures Repatch.CodeFixed(v, PAGE)
  {
    Finds(v);
    assert !HasFlag(0, SHF_EXECINSTR) && !HasFlag(SHF_ALLOC, SHF_EXECINSTR);
    assert SecAlign(v, 3) == 16 && PAGE % 16 == 0;
  }

  /** A run from such an image leaves one. */
  lemma SampleRuns(v: Image, len: nat, ident: seq<byte>, base: nat) returns (r: Repatch.Run)
    requires Starts(v, len, ident, base)
    ensures Repatch.IsRun(r) && r.before == v && r.len == len && r.page == PAGE && Starts(r.after, 0, ident, base)
    ensures r.Flags() == ALL && 0x200 <= r.CutAt() <= PAGE && RegionStart(r.after, true) == Some(PAGE)
  {
    r := Repatch.Run(v, len, PAGE, v);
    StartFlags(r, ident, base);
    StartCode(v);
    SampleOk(r.Base(), ident, base, r.CutAt());
    var f := Appended(r.Base(), ALL, r.CutAt(), PAGE).value;
    SampleAgain(r.Base(), ident, base, r.CutAt(), f);
    r := r.(after := f);
  }

  lemma NoEdits(v: Image)
    ensures Reclaim.Edited(v, v)
  {
  }
}
