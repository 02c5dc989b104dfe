/** The sample's files (src/layout.rs): the one it starts as, the ones a run writes,
    and the one whose padding byte is not zero. */
module SampleFiles {
  import opened Bytes
  import opened Ir
  import opened Codec
  import opened Align
  import opened Serialize
  import opened Layout
  import opened Shape
  import opened Placed
  import opened Segments
  import opened Dynamic
  import opened Append
  import opened Prepend
  import opened AppendTheorems
  import opened Parser
  import opened RoundTrip
  import opened Outcome
  import opened Example
  import opened Sample
  import opened NewSection
  import SymbolNames
  import Needed
  import Stub
  import Finalized
  import Reclaim
  import Repatch

  // ---- What a run writes ----

  /** The final table: the program's load and the region's two. */
  lemma RunTable(v: Image, ident: seq<byte>, base: nat, job: Job, f: Image)
    requires SampleRun(v, ident, base, job) && Yields(job, f) && !job.front
    ensures job.g.region.dataLen <= job.g.region.len && f.phdrs == Table(base, false) + NewLoads(job.g.region, job.g.at)
  {
    SyncedEntries(job, f);
    assert PushedPhdrs(job.img, job.g, false) == Table(base, false) + NewLoads(job.g.region, job.g.at);
  }

  lemma SmallTable(base: nat, r: Region, at: Site)
    requires Based(base) && r.dataLen <= r.len <= 0x2000 && at == Site(PAGE, base + PAGE, r.dataLen, PAGE, PAGE)
    ensures forall p :: p in Table(base, false) + NewLoads(r, at) ==> SmallPhdr(p)
  {
  }

  lemma SmallPlaces(f: Image, job: Job)
    requires WellShaped(job.img) && Spread(job.img, job.g.region) && |f.shdrs| == 4
    requires forall k :: 0 <= k < 4 ==> InRegion(f, job, k)
    requires job.g.at.off == PAGE && job.g.at.vaddr <= 0x11000
    ensures forall s :: s in f.shdrs ==> SmallShdr(s)
  {
    forall i | 0 <= i < 4 ensures SmallShdr(f.shdrs[i]) {
      assert InRegion(f, job, i);
    }
  }

  lemma SamplePht(v: Image)
    requires v.enc.class_.Elf64? && |v.phdrs| == 1 && v.ehdr.ehsize == 64
    ensures AppendPhtSize(v, 2) == 240
  {
    assert RoundUp(232, 16) == 240;
  }

  /** Where the region lies, and how long it is. */
  lemma SampleGeometry(v: Image, ident: seq<byte>, base: nat, cut: nat)
    requires Sampled(v, ident, base) && 0x200 <= cut <= PAGE
    ensures var g := AppendGeometry(v, ALL, cut, PAGE);
            && g.region.dataLen == PAGE && g.region.len <= 0x2000
            && g.at == Site(PAGE, base + PAGE, PAGE, PAGE, PAGE) && g.phoff == PAGE && g.shoff == PAGE + 240
  {
    SampleRegion(v, ident, base);
    SamplePlace(v, ident, base, cut);
    SamplePht(v);
  }

  /** A run of the sample, with all that the lemmas below need of it. */
  ghost predicate Ran(v: Image, ident: seq<byte>, base: nat, job: Job, f: Image)
  {
    && SampleRun(v, ident, base, job) && FileReady(job) && Yields(job, f) && !job.front
    && WellShaped(job.img) && Spread(job.img, job.g.region) && job.g.region.dataLen == PAGE
    && job.g.at == Site(PAGE, base + PAGE, PAGE, PAGE, PAGE) && job.g.phoff == PAGE && job.g.shoff == PAGE + 240
    && job.g.region.len <= 0x2000
  }

  lemma SampleRan(v: Image, ident: seq<byte>, base: nat, cut: nat, f: Image) returns (job: Job)
    requires Sampled(v, ident, base) && 0x200 <= cut <= PAGE && Appended(v, ALL, cut, PAGE) == Ok(f)
    ensures Ran(v, ident, base, job, f)
  {
    job := AppendJob(v, ALL, cut, PAGE);
    SampleJob(v, ident, base, cut);
    SampleSpread(v, ident, base, cut);
    SampleGeometry(v, ident, base, cut);
    AppendedYields(v, ALL, cut, PAGE);
  }

  lemma RunHeaders(v: Image, ident: seq<byte>, base: nat, cut: nat, f: Image)
    requires Sampled(v, ident, base) && 0x200 <= cut <= PAGE && Appended(v, ALL, cut, PAGE) == Ok(f)
    ensures WellShaped(f) && Headers(f).Ok? && PlainCounts(f)
  {
    var job := SampleRan(v, ident, base, cut, f);
    RanHeaders(v, ident, base, job, f);
  }

  lemma RanHeaders(v: Image, ident: seq<byte>, base: nat, job: Job, f: Image)
    requires Ran(v, ident, base, job, f)
    ensures WellShaped(f) && Headers(f).Ok? && PlainCounts(f)
  {
    RunTable(v, ident, base, job, f);
    SmallTable(base, job.g.region, job.g.at);
    forall k | 0 <= k < 4 ensures |f.shdrs| == 4 && InRegion(f, job, k) {
      RunPlaces(v, ident, base, job, f, k);
    }
    SmallPlaces(f, job);
    RunData(v, ident, base, job, f);
    RunEntry(v, ident, base, job, f);
    HeadersEncode(f);
  }

  lemma RunEntry(v: Image, ident: seq<byte>, base: nat, job: Job, f: Image)
    requires SampleRun(v, ident, base, job) && Yields(job, f) && |f.shdrs| == 4 && f.shdrs[3].addr < 0x10_0000
    ensures f.ehdr.entry < 0x100_0000
  {
    SampleSections(v, ident, base, job);
    Finds(job.img);
    FinalEntryAddr(job, f);
  }

  /** A parser can have produced the sample. */
  lemma SampleShaped(v: Image, ident: seq<byte>, base: nat)
    requires Sampled(v, ident, base) && IdentOk(ident, v.enc)
    ensures ParserShaped(v)
  {
    Finds(v);
    TagsOf(v.dynamic, v.shdrs[1].addr);
    Pow256Widths();
  }

  /** Reading an array back stops at its own null. */
  lemma {:induction false} StopsAtNull(ds: seq<DynEntry>, rest: seq<DynEntry>)
    requires ds != [] && ds[|ds| - 1].tag == DT_NULL && forall i :: 0 <= i < |ds| - 1 ==> ds[i].tag != DT_NULL
    ensures ThroughNull(ds + rest) == ds
  {
    if |ds| > 1 {
      assert (ds + rest)[1..] == ds[1..] + rest;
      StopsAtNull(ds[1..], rest);
    }
  }

  /** What the next run reads is what this one wrote. */
  lemma ReadsBack(f: Image, addr: nat)
    requires Sectioned(f) && f.dynamic == TagsAt(addr)
    ensures Reparsed(f) == f
  {
    Finds(f);
    StopsAtNull(TagsAt(addr), Nulls(Padding(f)));
  }

  /** A run from an image that can start one writes a file that reads back. */
  lemma SampleWrites(v: Image, file: seq<byte>, ident: seq<byte>, base: nat) returns (r: Repatch.Run, out: seq<byte>)
    requires Starts(v, |file|, ident, base) && IdentOk(ident, Enc(Elf64, Little))
    ensures r.before == v && Repatch.Patches(r, file, out) && r.page == PAGE && r.Flags() == ALL
    ensures Sampled(r.Base(), ident, base) && 0x200 <= r.CutAt() <= PAGE
    ensures Parse(out) == Ok(r.after) && Starts(r.after, |out|, ident, base) && RegionStart(r.after, true) == Some(PAGE)
  {
    r := SampleRuns(v, |file|, ident, base);
    RunHeaders(r.Base(), ident, base, r.CutAt(), r.after);
    SampleShaped(r.Base(), ident, base);
    AppendEstablishesVerify(r.Base(), ALL, r.CutAt(), PAGE, file);
    out := AppendFile(r.Base(), ALL, r.CutAt(), PAGE, file).value;
    Repatch.PatchParses(r, file, out);
    RunTagsOf(r.Base(), ident, base, r.CutAt(), r.after);
  }

  lemma RunTagsOf(v: Image, ident: seq<byte>, base: nat, cut: nat, f: Image)
    requires Sampled(v, ident, base) && 0x200 <= cut <= PAGE && Appended(v, ALL, cut, PAGE) == Ok(f) && Sectioned(f)
    ensures Reparsed(f) == f
  {
    var addr := RunTagged(v, ident, base, cut, f);
    ReadsBack(f, addr);
  }

  lemma RunTagged(v: Image, ident: seq<byte>, base: nat, cut: nat, f: Image) returns (addr: nat)
    requires Sampled(v, ident, base) && 0x200 <= cut <= PAGE && Appended(v, ALL, cut, PAGE) == Ok(f)
    ensures f.dynamic == TagsAt(addr)
  {
    var job := SampleRan(v, ident, base, cut, f);
    RunTags(v, ident, base, job, f);
    addr := job.g.at.vaddr + job.g.region.offsets[1];
  }

  // ---- The file it starts as ----

  /** The program as it was linked: a name table, strings, a dynamic array. */
  function Linked(ident: seq<byte>, base: nat, strings: seq<byte>, ds: seq<DynEntry>, tags: seq<byte>): Image
  {
    Image(Enc(Elf64, Little), Ehdr(ET_DYN, 62, 1, base + 0x100, 64, 0x1c0, 0, 64, 56, 64, 0, ident), Table(base, false),
          [Section(0, 0, 0x190, 9), Section(1, base + 0x150, 0x150, 8), Section(2, base + 0x160, 0x160, 48)],
          [[0] + DYNSTR + [0], strings, tags], ds)
  }

  function LinkedTags(base: nat): seq<DynEntry>
  {
    [DynEntry(DT_STRTAB, base + 0x150), DynEntry(DT_STRSZ, 8), DynEntry(DT_NULL, 0)]
  }

  /** Two entries of small values and the closing null. */
  predicate ClosedTags(ds: seq<DynEntry>)
  {
    && |ds| == 3 && ds[2] == DynEntry(DT_NULL, 0) && ds[0].tag != DT_NULL && ds[1].tag != DT_NULL
    && forall i :: 0 <= i < 3 ==> 0 <= ds[i].tag < 0x100 && ds[i].val < 0x100_0000
  }

  lemma TagBytes(ds: seq<DynEntry>) returns (tags: seq<byte>)
    requires ClosedTags(ds)
    ensures Concat(WrittenDyns(Enc(Elf64, Little), ds)) == Ok(tags) && |tags| == 48
  {
    SmallDyns(Enc(Elf64, Little), ds);
    ConcatLength(WrittenDyns(Enc(Elf64, Little), ds), 16);
    tags := Concat(WrittenDyns(Enc(Elf64, Little), ds)).value;
  }

  lemma LinkedSections(v: Image, ident: seq<byte>, base: nat, strings: seq<byte>, ds: seq<DynEntry>, tags: seq<byte>)
    requires |ident| == 16 && |strings| == 8 && |tags| == 48 && v == Linked(ident, base, strings, ds, tags)
    ensures SizesMatch(v) && PairwiseApart(SectionSpans(v))
    ensures forall s :: s in SectionSpans(v) ==> 0x150 <= s.at && s.End() <= 0x199
  {
    var s := SectionSpans(v);
    assert |s| == 3 && s[0] == Span(0x190, [0] + DYNSTR + [0]) && s[1] == Span(0x150, strings)
           && s[2] == Span(0x160, tags);
  }

  lemma LinkedEncodes(v: Image, ident: seq<byte>, base: nat, strings: seq<byte>, ds: seq<DynEntry>, tags: seq<byte>)
    requires |ident| == 16 && Based(base) && v == Linked(ident, base, strings, ds, tags)
    ensures WellShaped(v) && Headers(v).Ok?
  {
    HeadersEncode(v);
  }

  /** The header blocks lie on both sides of the sections. */
  ghost predicate Around(h: seq<Span>)
  {
    PairwiseApart(h) && Inside(h, 0x280) && forall s :: s in h ==> s.End() <= 0x150 || 0x199 <= s.at
  }

  lemma BlocksAround(h: seq<Span>)
    requires |h| == 3 && h[0].at == 0 && h[0].End() == 64 && h[1].at == 64 && h[1].End() == 120
    requires h[2].at == 0x1c0 && h[2].End() == 0x280
    ensures Around(h)
  {
    assert forall s :: s in h ==> s == h[0] || s == h[1] || s == h[2];
    assert Apart(h[0], h[1]) && Apart(h[0], h[2]) && Apart(h[1], h[2]);
    forall x, y | 0 <= x < y < |h| ensures Apart(h[x], h[y]) {
      assert x == 0 || x == 1;
    }
  }

  lemma LinkedHeaders(v: Image, ident: seq<byte>, base: nat, strings: seq<byte>, ds: seq<DynEntry>, tags: seq<byte>)
    requires |ident| == 16 && Based(base) && v == Linked(ident, base, strings, ds, tags)
    ensures WellShaped(v) && Headers(v).Ok? && Around(Headers(v).value)
  {
    LinkedEncodes(v, ident, base, strings, ds, tags);
    HeaderLengths(v);
    BlocksAround(Headers(v).value);
  }

  /** Its regions do not touch. */
  lemma LinkedRegions(v: Image, ident: seq<byte>, base: nat, strings: seq<byte>, ds: seq<DynEntry>, tags: seq<byte>)
    requires |ident| == 16 && Based(base) && |strings| == 8 && |tags| == 48
             && v == Linked(ident, base, strings, ds, tags)
    ensures Headers(v).Ok? && SizesMatch(v) && PairwiseApart(Regions(v)) && Inside(Regions(v), 0x280)
  {
    LinkedSections(v, ident, base, strings, ds, tags);
    LinkedHeaders(v, ident, base, strings, ds, tags);
    BesideApart(Headers(v).value, SectionSpans(v));
  }

  lemma BesideApart(h: seq<Span>, s: seq<Span>)
    requires Around(h) && PairwiseApart(s)
    requires forall x :: x in s ==> 0x150 <= x.at && x.End() <= 0x199
    ensures PairwiseApart(h + s) && Inside(h + s, 0x280)
  {
    forall x, i | 0 <= x < |h| && 0 <= i < |s| ensures Apart(h[x], s[i]) {
      assert h[x] in h && s[i] in s;
    }
    ConcatApart(h, s);
  }

  /** An image whose file gives it back. */
  ghost predicate Filed(v: Image, total: nat)
  {
    && WellShaped(v) && Parseable(v, 0) && PairwiseApart(Regions(v)) && Inside(Regions(v), total)
    && v.DynIdx().Some? && ThroughNull(v.dynamic) == v.dynamic
  }

  /** Writing an image whose parts do not touch, then reading the file, gives it back. */
  lemma FileOf(v: Image, total: nat) returns (file: seq<byte>)
    requires Filed(v, total)
    ensures |file| == total && Parse(file) == Ok(v)
  {
    Finalized.InsideBounded(v, total);
    WriteThenParse(v, [], 0, total, 0);
    file := WriteSpec(v, [], 0, total).value;
    assert v.dynamic + Nulls(0) == v.dynamic;
  }

  lemma LinkedFiled(v: Image, ident: seq<byte>, base: nat, strings: seq<byte>, ds: seq<DynEntry>, tags: seq<byte>)
    requires IdentOk(ident, Enc(Elf64, Little)) && Based(base) && |strings| == 8 && |tags| == 48 && ClosedTags(ds)
    requires v == Linked(ident, base, strings, ds, tags) && Concat(WrittenDyns(Enc(Elf64, Little), ds)) == Ok(tags)
    ensures Filed(v, 0x280)
  {
    LinkedRegions(v, ident, base, strings, ds, tags);
    LinkedDynamic(v);
    LinkedSynced(v, ds, tags);
    LinkedKinds(v, ident, base, strings, ds, tags);
    NullLast(ds);
    PackFiled(v, 0x280);
  }

  lemma LinkedKinds(v: Image, ident: seq<byte>, base: nat, strings: seq<byte>, ds: seq<DynEntry>, tags: seq<byte>)
    requires IdentOk(ident, Enc(Elf64, Little)) && v == Linked(ident, base, strings, ds, tags)
    ensures WellShaped(v) && IdentOk(v.ehdr.ident, v.enc) && PlainCounts(v)
    ensures forall i :: 0 <= i < |v.shdrs| ==> v.shdrs[i].shtype != SHT_NOBITS
  {
  }

  lemma PackFiled(v: Image, total: nat)
    requires WellShaped(v) && Headers(v).Ok? && SizesMatch(v) && IdentOk(v.ehdr.ident, v.enc) && PlainCounts(v)
    requires DynamicSynced(v, 0) && forall i :: 0 <= i < |v.shdrs| ==> v.shdrs[i].shtype != SHT_NOBITS
    requires PairwiseApart(Regions(v)) && Inside(Regions(v), total) && v.DynIdx().Some?
             && ThroughNull(v.dynamic) == v.dynamic
    ensures Filed(v, total)
  {
  }

  /** The file the program was linked to parses to it. */
  lemma LinkedFile(ident: seq<byte>, base: nat, strings: seq<byte>, ds: seq<DynEntry>)
    returns (v: Image, file: seq<byte>, tags: seq<byte>)
    requires IdentOk(ident, Enc(Elf64, Little)) && Based(base) && |strings| == 8 && ClosedTags(ds)
    ensures v == Linked(ident, base, strings, ds, tags) && |tags| == 48 && |file| == 0x280 && Parse(file) == Ok(v)
  {
    tags := TagBytes(ds);
    v := Linked(ident, base, strings, ds, tags);
    LinkedFiled(v, ident, base, strings, ds, tags);
    file := FileOf(v, 0x280);
  }

  lemma NullLast(ds: seq<DynEntry>)
    requires ClosedTags(ds)
    ensures ThroughNull(ds) == ds
  {
    StopsAtNull(ds, []);
    assert ds + [] == ds;
  }

  lemma LinkedDynamic(v: Image)
    requires |v.shdrs| == 3 && v.shdrs[0].shtype == v.shdrs[1].shtype == SHT_STRTAB && v.shdrs[2].shtype == SHT_DYNAMIC
    ensures v.DynIdx() == Some(2)
  {
    FirstDynamicIs(v.shdrs, 2);
  }

  lemma LinkedSynced(v: Image, ds: seq<DynEntry>, tags: seq<byte>)
    requires WellShaped(v) && v.enc == Enc(Elf64, Little) && v.DynIdx() == Some(2) && |v.shdrs| == 3
             && v.dynamic == ds && ClosedTags(ds)
    requires v.data[2] == tags && v.shdrs[2].shtype != SHT_NOBITS
    requires Concat(WrittenDyns(Enc(Elf64, Little), ds)) == Ok(tags)
    ensures DynamicSynced(v, 0)
  {
    assert tags + Zeros(0) == tags;
    TagsSmall(ds);
  }

  lemma TagsSmall(ds: seq<DynEntry>)
    requires forall i :: 0 <= i < |ds| ==> 0 <= ds[i].tag < 0x100
    ensures TagsFit(Elf64, ds)
  {
    Pow256Widths();
  }

  // ---- Its edits: a library and an entry stub ----

  lemma LinkedFinds(v: Image, ident: seq<byte>, base: nat, strings: seq<byte>, ds: seq<DynEntry>, tags: seq<byte>)
    requires v == Linked(ident, base, strings, ds, tags)
    ensures v.FindSection(DYNSTR) == Some(1) && v.FindSection(STUB).None? && v.DynIdx() == Some(2)
  {
    LinkedDynamic(v);
    OtherNames();
    FirstNames();
    var names, stubs := v.Named(DYNSTR), v.Named(STUB);
    assert !names[0] && names[1];
    FirstTrueIs(names, 1);
    assert !stubs[0] && !stubs[1] && !stubs[2];
  }

  /** The program with a library added and a stub installed. */
  function Edits(ident: seq<byte>, base: nat, strings: seq<byte>, tags: seq<byte>, lib: seq<byte>,
                 blob: seq<byte>): Image
    requires |blob| > STUB_CODE_OFFSET
  {
    var v := Linked(ident, base, strings, LinkedTags(base), tags);
    v.(shdrs := v.shdrs + [Section(3, 0, 0, 0)],
       data := [NAMES, strings + lib + [0], tags, Stub.Chained(v, blob, v.ehdr.entry)],
       dynamic := [DynEntry(DT_NEEDED, 8)] + v.dynamic)
  }

  lemma EditsAre(ident: seq<byte>, base: nat, strings: seq<byte>, tags: seq<byte>, lib: seq<byte>, blob: seq<byte>)
    returns (v1: Image)
    requires |strings| == 8 && |blob| > STUB_CODE_OFFSET
    ensures Needed.Added(Linked(ident, base, strings, LinkedTags(base), tags), lib) == Ok(v1) && |v1.data| == |v1.shdrs|
    ensures Stub.Installed(v1, blob) == Ok(Edits(ident, base, strings, tags, lib, blob))
  {
    var v := Linked(ident, base, strings, LinkedTags(base), tags);
    LinkedFinds(v, ident, base, strings, LinkedTags(base), tags);
    v1 := Needed.Added(v, lib).value;
    assert v1.Named(STUB) == v.Named(STUB);
    var b := Stub.Chained(v1, blob, v1.ehdr.entry);
    var w := Stub.Added(v1, b);
    assert w.data == [NAMES, strings + lib + [0], tags, b];
    assert w.shdrs == v.shdrs + [Section(3, 0, 0, 0)];
  }

  lemma EditsSectioned(ident: seq<byte>, base: nat, strings: seq<byte>, tags: seq<byte>, lib: seq<byte>,
                       blob: seq<byte>)
    requires |ident| == 16 && |strings| == 8 && |lib| == 1 && tags != [] && STUB_CODE_OFFSET < |blob| <= 0x1000
    ensures var w := Edits(ident, base, strings, tags, lib, blob);
            Sectioned(w) && WellShaped(w) && PriorLoad(w).None? && forall i: nat :: i < 4 ==> Resized(w, i)
  {
    var w := Edits(ident, base, strings, tags, lib, blob);
    NamesAre();
    assert Sectioned(w);
    Finds(w);
    var bs := Priors(w);
    assert !bs[0] && PriorLoad(w) == FirstTrue(bs);
  }

  /** A run can start from the edited program. */
  lemma EditsStart(ident: seq<byte>, base: nat, strings: seq<byte>, tags: seq<byte>, lib: seq<byte>, blob: seq<byte>)
    requires |ident| == 16 && Based(base) && |strings| == 8 && |lib| == 1 && tags != []
             && STUB_CODE_OFFSET < |blob| <= 0x1000
    ensures Starts(Edits(ident, base, strings, tags, lib, blob), 0x280, ident, base)
  {
    EditsSectioned(ident, base, strings, tags, lib, blob);
  }

  lemma EditsEdited(ident: seq<byte>, base: nat, strings: seq<byte>, tags: seq<byte>, lib: seq<byte>, blob: seq<byte>)
    requires |ident| == 16 && |blob| > STUB_CODE_OFFSET
    ensures Reclaim.Edited(Linked(ident, base, strings, LinkedTags(base), tags),
                           Edits(ident, base, strings, tags, lib, blob))
  {
    NamesAre();
    FirstNames();
    EditedTo(Linked(ident, base, strings, LinkedTags(base), tags), Edits(ident, base, strings, tags, lib, blob));
  }

  /** The names before the stub's was added. */
  lemma FirstNames()
    ensures CStr([0] + DYNSTR + [0], 0) == Some([]) && CStr([0] + DYNSTR + [0], 1) == Some(DYNSTR)
  {
    AsciiClean(".dynstr");
    SymbolNames.AppendReads([0], DYNSTR);
    SymbolNames.CStrIsNameAt([0] + DYNSTR + [0], 1);
    NulEndUnique([0] + DYNSTR + [0], 0, 0);
  }

  lemma EditedTo(v: Image, w: Image)
    requires w == v.(shdrs := w.shdrs, data := w.data, dynamic := w.dynamic) && v.ehdr.shstrndx == 0
    requires |v.shdrs| == |v.data| == 3 && |w.data| == 4 && w.shdrs == v.shdrs + [Section(3, 0, 0, 0)]
    requires v.shdrs[0].name == v.shdrs[2].name == 0 && v.shdrs[1].name == 1
    requires CStr(w.data[0], 0) == CStr(v.data[0], 0) && CStr(w.data[0], 1) == CStr(v.data[0], 1)
    ensures Reclaim.Edited(v, w)
  {
    forall i | 0 <= i < 3
      ensures Reclaim.SamePlace(v.shdrs[i], w.shdrs[i]) && w.SectionName(i) == v.SectionName(i)
    {
      assert w.shdrs[i] == v.shdrs[i];
    }
  }

  // ---- Patched files ----

  /** A file with an edited image that a run can start from. */
  ghost predicate Startable(o: Image, v: Image, file: seq<byte>, ident: seq<byte>, base: nat)
  {
    Parse(file) == Ok(o) && Reclaim.Edited(o, v) && Starts(v, |file|, ident, base)
  }

  /** The run a file can start writes a file that can start one. */
  lemma OneFile(o: Image, v: Image, file: seq<byte>, ident: seq<byte>, base: nat)
    returns (r: Repatch.Run, out: seq<byte>)
    requires Startable(o, v, file, ident, base) && IdentOk(ident, Enc(Elf64, Little))
    ensures Repatch.PatchedFiles([file, out], [r]) && r.before == v && Startable(r.after, r.after, out, ident, base)
  {
    r, out := SampleWrites(v, file, ident, base);
    NoEdits(r.after);
    Repatch.OnePatch(o, r, file, out);
  }

  /** Files that can be patched `n` times, one after the other. */
  ghost predicate CanPatch(v: Image, file: seq<byte>, n: nat)
    decreases n
  {
    n == 0 || exists r, out :: Repatch.PatchedFiles([file, out], [r]) && r.before == v && CanPatch(r.after, out, n - 1)
  }

  /** Some patch of the file leaves one for which `good` holds again. */
  ghost predicate OnePatchLeft(good: (Image, seq<byte>) -> bool, v: Image, file: seq<byte>)
  {
    exists r, out :: Repatch.PatchedFiles([file, out], [r]) && r.before == v && good(r.after, out)
  }

  /** What holds of a file and again of some patch of it can be patched for ever. */
  lemma {:induction false} Patchable(good: (Image, seq<byte>) -> bool, v: Image, file: seq<byte>, n: nat)
    requires good(v, file) && forall w, f {:trigger OnePatchLeft(good, w, f)} :: good(w, f) ==> OnePatchLeft(good, w, f)
    ensures CanPatch(v, file, n)
    decreases n
  {
    if n > 0 {
      assert OnePatchLeft(good, v, file);
      var r, out :| Repatch.PatchedFiles([file, out], [r]) && r.before == v && good(r.after, out);
      Patchable(good, r.after, out, n - 1);
      PatchedOnce(v, file, r, out, n);
    }
  }

  lemma PatchedOnce(v: Image, file: seq<byte>, r: Repatch.Run, out: seq<byte>, n: nat)
    requires n > 0 && Repatch.PatchedFiles([file, out], [r]) && r.before == v && CanPatch(r.after, out, n - 1)
    ensures CanPatch(v, file, n)
  {
  }

  ghost predicate CanStart(v: Image, file: seq<byte>, ident: seq<byte>, base: nat)
  {
    exists o :: Startable(o, v, file, ident, base)
  }

  lemma StartsHere(o: Image, v: Image, file: seq<byte>, ident: seq<byte>, base: nat)
    requires Startable(o, v, file, ident, base)
    ensures CanStart(v, file, ident, base)
  {
  }

  lemma StartsAgain(good: (Image, seq<byte>) -> bool, v: Image, file: seq<byte>, ident: seq<byte>, base: nat)
    requires CanStart(v, file, ident, base) && IdentOk(ident, Enc(Elf64, Little))
    requires forall w, f :: CanStart(w, f, ident, base) ==> good(w, f)
    ensures OnePatchLeft(good, v, file)
  {
    var o :| Startable(o, v, file, ident, base);
    var r, out := OneFile(o, v, file, ident, base);
    StartsHere(r.after, r.after, out, ident, base);
  }

  /** A file that a run can start from can be patched for ever. */
  lemma StartPatchable(v: Image, file: seq<byte>, ident: seq<byte>, base: nat, n: nat)
    requires CanStart(v, file, ident, base) && IdentOk(ident, Enc(Elf64, Little))
    ensures CanPatch(v, file, n)
  {
    var good: (Image, seq<byte>) -> bool := (w, f) => CanStart(w, f, ident, base);
    forall w, f | good(w, f) ensures OnePatchLeft(good, w, f) {
      StartsAgain(good, w, f, ident, base);
    }
    Patchable(good, v, file, n);
  }

  /** Any number of patches of a file that a run can start from. */
  lemma {:induction false} FilesFrom(v: Image, file: seq<byte>, n: nat)
    returns (files: seq<seq<byte>>, rs: seq<Repatch.Run>)
    requires CanPatch(v, file, n)
    ensures |rs| == n && Repatch.PatchedFiles(files, rs) && files[0] == file && (n > 0 ==> rs[0].before == v)
    decreases n
  {
    if n == 0 {
      return [file], [];
    }
    var r, out :| Repatch.PatchedFiles([file, out], [r]) && r.before == v && CanPatch(r.after, out, n - 1);
    var fs, qs := FilesFrom(r.after, out, n - 1);
    Repatch.PatchedCons(file, r, fs, qs);
    files, rs := [file] + fs, [r] + qs;
  }

  /** A linked program and its file: no stub, no region, no code placed at zero. */
  lemma FirstExists(ident: seq<byte>, strings: seq<byte>) returns (first: Image, file: seq<byte>, tags: seq<byte>)
    requires IdentOk(ident, Enc(Elf64, Little)) && |strings| == 8
    ensures first == Linked(ident, 0x10000, strings, LinkedTags(0x10000), tags) && |tags| == 48 && |file| == 0x280
            && Parse(file) == Ok(first)
    ensures PriorLoad(first).None? && first.FindSection(STUB).None? && Repatch.NoCodeAtZero(Loads(first.phdrs))
  {
    first, file, tags := LinkedFile(ident, 0x10000, strings, LinkedTags(0x10000));
    LinkedFirst(first, ident, strings, tags);
  }

  /** Adding a library and installing a stub makes `edited` of `first`. */
  ghost predicate LibraryAndStub(first: Image, edited: Image, lib: seq<byte>, blob: seq<byte>)
  {
    && |first.data| == |first.shdrs| && Needed.Added(first, lib).Ok?
    && var v := Needed.Added(first, lib).value; |v.data| == |v.shdrs| && Stub.Installed(v, blob) == Ok(edited)
  }

  /** A program exists whose file, with a library and a stub added so that its string
      table, dynamic array and stub move, is patched any number of times in a row,
      under the conditions of `Repatch.FilesNeverPileUp`. */
  lemma FilesExist(ident: seq<byte>, strings: seq<byte>, lib: seq<byte>, blob: seq<byte>, n: nat)
    returns (first: Image, edited: Image, files: seq<seq<byte>>, rs: seq<Repatch.Run>)
    requires IdentOk(ident, Enc(Elf64, Little)) && |strings| == 8 && |lib| == 1 && STUB_CODE_OFFSET < |blob| <= 0x1000
             && n > 0
    ensures Repatch.PatchedFiles(files, rs) && |rs| == n && Parse(files[0]) == Ok(first) && rs[0].before == edited
    ensures LibraryAndStub(first, edited, lib, blob) && WellShaped(edited) && |edited.shdrs| == 4
    ensures forall i: nat :: i < 4 ==> Resized(edited, i)
    ensures PriorLoad(first).None? && first.FindSection(STUB).None? && Repatch.NoCodeAtZero(Loads(first.phdrs))
  {
    var file, tags;
    first, file, tags := FirstExists(ident, strings);
    edited := Edits(ident, 0x10000, strings, tags, lib, blob);
    var v1 := EditsAre(ident, 0x10000, strings, tags, lib, blob);
    EditsSectioned(ident, 0x10000, strings, tags, lib, blob);
    EditsStart(ident, 0x10000, strings, tags, lib, blob);
    EditsEdited(ident, 0x10000, strings, tags, lib, blob);
    StartsHere(first, edited, file, ident, 0x10000);
    StartPatchable(edited, file, ident, 0x10000, n);
    files, rs := FilesFrom(edited, file, n);
  }

  lemma LinkedFirst(v: Image, ident: seq<byte>, strings: seq<byte>, tags: seq<byte>)
    requires v == Linked(ident, 0x10000, strings, LinkedTags(0x10000), tags)
    ensures PriorLoad(v).None? && v.FindSection(STUB).None? && Repatch.NoCodeAtZero(Loads(v.phdrs))
  {
    LinkedFinds(v, ident, 0x10000, strings, LinkedTags(0x10000), tags);
    OnlyLoad(0x10000, false);
    var bs := Priors(v);
    assert !bs[0] && PriorLoad(v) == FirstTrue(bs);
  }

  // ---- Either layout ----

  /** Nothing is dropped from the edited program, and all its sections move. */
  lemma EditsMove(v: Image, len: nat, ident: seq<byte>, base: nat)
    requires Starts(v, len, ident, base) && RegionStart(v, true).None?
    ensures Sampled(v, ident, base) && RelocationFlags(v, GrownSections(v), None) == ALL
  {
    var r := Repatch.Run(v, len, PAGE, v);
    StartFlags(r, ident, base);
    assert PriorLoad(v).None? && r.Base() == v;
  }

  /** Both layouts accept a program whose name table, string table, dynamic array and
      stub all move: the append past its file, the prepend below its base address. */
  lemma BothLayoutsAccept(ident: seq<byte>, strings: seq<byte>, lib: seq<byte>, blob: seq<byte>, keepTail: bool)
    returns (first: Image, file: seq<byte>, edited: Image)
    requires IdentOk(ident, Enc(Elf64, Little)) && |strings| == 8 && |lib| == 1 && STUB_CODE_OFFSET < |blob| <= 0x1000
    ensures Parse(file) == Ok(first) && LibraryAndStub(first, edited, lib, blob)
    ensures WellShaped(edited) && PriorLoad(edited).None?
    ensures RelocationFlags(edited, GrownSections(edited), None) == ALL && |ALL| == |edited.shdrs|
    ensures AppendReady(edited, ALL, |file|, PAGE) && PrependReady(edited, ALL, |file|, PAGE, keepTail)
  {
    var tags;
    first, file, tags := FirstExists(ident, strings);
    edited := Edits(ident, 0x10000, strings, tags, lib, blob);
    var v1 := EditsAre(ident, 0x10000, strings, tags, lib, blob);
    EditsSectioned(ident, 0x10000, strings, tags, lib, blob);
    EditsStart(ident, 0x10000, strings, tags, lib, blob);
    EditsMove(edited, 0x280, ident, 0x10000);
    SampleAccepts(edited, ident, 0x10000, 0x280);
    SamplePrepends(edited, ident, 0x280, keepTail);
  }
}
