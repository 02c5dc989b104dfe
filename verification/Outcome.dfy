/** More of what either layout leaves behind: its file parses back, its loads stay
    in address order, nothing still refers to a vacated address, and when a
    prepend keeps track of the ld-cache note. */
module Outcome {
  import opened Bytes
  import opened Ir
  import opened Codec
  import opened Align
  import opened Serialize
  import opened Layout
  import opened Shape
  import opened Placed
  import opened Segments
  import opened Accepted
  import opened Dynamic
  import opened Append
  import opened Prepend
  import opened Memory
  import opened AppendTheorems
  import opened PrependTheorems
  import opened Parser
  import opened RoundTrip

  // ---- The output parses back ----

  /** Facts a parser establishes about an image it returns, kept by every edit. */
  ghost predicate ParserShaped(img: Image)
  {
    && WellShaped(img) && IdentOk(img.ehdr.ident, img.enc)
    && (forall i :: 0 <= i < |img.shdrs| && img.shdrs[i].shtype == SHT_NOBITS ==> img.data[i] == [])
    && match img.DynIdx()
       case None => img.dynamic == [] && FindPhdr(img.phdrs, PT_DYNAMIC).None?
       case Some(d) =>
         && img.shdrs[d].shtype != SHT_NOBITS && img.shdrs[d].size % DynSize(img.enc.class_) == 0
         && TagsFit(img.enc.class_, img.dynamic)
  }

  /** How many zero entries pad the dynamic section. */
  function Padding(img: Image): nat
  {
    match img.DynIdx()
    case None => 0
    case Some(d) => PadEntries(|img.dynamic|, DynSize(img.enc.class_), img.shdrs[d].size)
  }

  lemma MulSub(a: nat, b: nat, size: nat)
    requires b <= a
    ensures a * size - b * size == (a - b) * size >= 0
  {
  }

  lemma PaddingBytes(n: nat, size: nat, want: nat, q: nat)
    requires size > 0 && want == q * size
    ensures (if want < n * size then 0 else want - n * size) == (if n <= q then q - n else 0) * size
  {
    if n <= q {
      MulSub(q, n, size);
    } else {
      MulSub(n, q, size);
    }
  }

  lemma MaxMultiple(n: nat, size: nat, want: nat)
    requires size > 0 && want % size == 0
    ensures Max(n * size, want) % size == 0
  {
    ModOfMultiple(n, size);
  }

  /** The dynamic section's final size is a whole number of entries. */
  lemma FinalDynamicSize(job: Job, f: Image, d: nat)
    requires FileReady(job) && Yields(job, f) && job.img.DynIdx() == Some(d)
    requires job.img.shdrs[d].shtype != SHT_NOBITS && job.img.shdrs[d].size % DynSize(job.img.enc.class_) == 0
    ensures d < |f.shdrs| && f.shdrs[d].size % DynSize(job.img.enc.class_) == 0
  {
    FinalShdr(job, f, d);
    MaxMultiple(|job.img.dynamic|, DynSize(job.img.enc.class_), job.img.shdrs[d].size);
  }

  /** The zero bytes that bring `n` entries up to `want` bytes. */
  function PadEntries(n: nat, size: nat, want: nat): nat
    requires size > 0
  {
    if n <= want / size then want / size - n else 0
  }

  lemma SyncedBytes(enc: Enc, ds: seq<DynEntry>, want: nat, raw: seq<byte>, b: seq<byte>)
    requires Concat(WrittenDyns(enc, ds)) == Ok(raw) && want % DynSize(enc.class_) == 0
    requires b == raw + Layout.Zeros(if want < |raw| then 0 else want - |raw|)
    ensures b == raw + Layout.Zeros(PadEntries(|ds|, DynSize(enc.class_), want) * DynSize(enc.class_))
  {
    var size := DynSize(enc.class_);
    ConcatLength(WrittenDyns(enc, ds), size);
    DivModFacts(want, size);
    PaddingBytes(|ds|, size, want, want / size);
  }

  lemma NoDynamicSegment(job: Job, f: Image)
    requires Yields(job, f) && NoteReady(job) && FindPhdr(job.img.phdrs, PT_DYNAMIC).None?
    ensures FindPhdr(f.phdrs, PT_DYNAMIC).None?
  {
    if FindPhdr(f.phdrs, PT_DYNAMIC).Some? {
      FindOriginal(job, f, PT_DYNAMIC);
    }
  }

  lemma TagsStayFit(job: Job, f: Image)
    requires Yields(job, f) && NamesFixed(job.img) && TagsFit(job.img.enc.class_, job.img.dynamic)
    ensures f.enc == job.img.enc && TagsFit(f.enc.class_, f.dynamic)
  {
    FinalTags(job, f);
    FinalFields(job.img, job.g, job.note, job.front, f);
  }

  lemma SyncedData(job: Job, f: Image, d: nat)
    requires FileReady(job) && Yields(job, f) && job.img.DynIdx() == Some(d)
    requires job.img.shdrs[d].shtype != SHT_NOBITS && job.img.shdrs[d].size % DynSize(job.img.enc.class_) == 0
    ensures WellShaped(f) && f.DynIdx() == Some(d) && f.enc == job.img.enc && f.shdrs[d].shtype != SHT_NOBITS
    ensures PaddedDynamic(f, f.shdrs[d].size) == Ok(f.data[d]) && f.shdrs[d].size % DynSize(f.enc.class_) == 0
  {
    FinalFields(job.img, job.g, job.note, job.front, f);
    FinalShdr(job, f, d);
    FinalDynamicData(job.img, job.g, job.note, job.front, f, d);
    FinalDynamicSize(job, f, d);
  }

  lemma SyncedSection(job: Job, f: Image, d: nat)
    requires FileReady(job) && Yields(job, f) && NamesFixed(job.img) && job.img.DynIdx() == Some(d)
    requires job.img.shdrs[d].shtype != SHT_NOBITS && job.img.shdrs[d].size % DynSize(job.img.enc.class_) == 0
    requires TagsFit(job.img.enc.class_, job.img.dynamic)
    ensures WellShaped(f) && f.DynIdx() == Some(d) && DynamicSynced(f, Padding(f))
  {
    TagsStayFit(job, f);
    SyncedData(job, f, d);
    SyncedIs(f, d);
  }

  lemma SyncedIs(f: Image, d: nat)
    requires WellShaped(f) && f.DynIdx() == Some(d) && f.shdrs[d].shtype != SHT_NOBITS
    requires PaddedDynamic(f, f.shdrs[d].size) == Ok(f.data[d]) && f.shdrs[d].size % DynSize(f.enc.class_) == 0
    requires TagsFit(f.enc.class_, f.dynamic)
    ensures DynamicSynced(f, Padding(f))
  {
    var raw := Concat(WrittenDyns(f.enc, f.dynamic)).value;
    SyncedBytes(f.enc, f.dynamic, f.shdrs[d].size, raw, f.data[d]);
    PackSynced(f, d, raw, Padding(f));
  }

  lemma PackSynced(f: Image, d: nat, raw: seq<byte>, pad: nat)
    requires WellShaped(f) && f.DynIdx() == Some(d) && f.shdrs[d].shtype != SHT_NOBITS
    requires Concat(WrittenDyns(f.enc, f.dynamic)) == Ok(raw)
    requires f.data[d] == raw + Layout.Zeros(pad * DynSize(f.enc.class_)) && TagsFit(f.enc.class_, f.dynamic)
    ensures DynamicSynced(f, pad)
  {
  }

  /** The final dynamic section is the encoded array and whole zero entries. */
  lemma FinalSynced(job: Job, f: Image)
    requires FileReady(job) && Yields(job, f) && NamesFixed(job.img) && NoteReady(job) && ParserShaped(job.img)
    ensures WellShaped(f) && DynamicSynced(f, Padding(f))
  {
    if job.img.DynIdx().Some? {
      SyncedSection(job, f, job.img.DynIdx().value);
    } else {
      FinalFields(job.img, job.g, job.note, job.front, f);
      NoDynamicSegment(job, f);
    }
  }

  lemma FinalParseable(job: Job, f: Image)
    requires FileReady(job) && Yields(job, f) && NamesFixed(job.img) && NoteReady(job) && ParserShaped(job.img)
    requires PlainCounts(f) && WellShaped(f) && Headers(f).Ok?
    ensures Parseable(f, Padding(f))
  {
    FinalFields(job.img, job.g, job.note, job.front, f);
    FinalSizes(job, f);
    FinalSynced(job, f);
    forall i | 0 <= i < |f.shdrs| && f.shdrs[i].shtype == SHT_NOBITS
      ensures f.data[i] == []
    {
      FinalShdr(job, f, i);
    }
  }

  lemma FinalBounded(job: Job, f: Image)
    requires FileReady(job) && Yields(job, f)
    ensures WellShaped(f) && Bounded(f, job.g.total)
  {
    FinalFields(job.img, job.g, job.note, job.front, f);
    forall i | 0 <= i < |f.shdrs| && f.shdrs[i].shtype != SHT_NOBITS
      ensures f.shdrs[i].offset + f.shdrs[i].size <= job.g.total
    {
      FinalShdr(job, f, i);
      FinalSectionBounds(job, f, i);
    }
  }

  /** What a parser makes of a written image: its dynamic array ends at the first null. */
  function Reparsed(f: Image): Image
  {
    f.(dynamic := if f.DynIdx().Some? then ThroughNull(f.dynamic + Nulls(Padding(f))) else [])
  }

  lemma OutputParses(job: Job, w: Written)
    requires FileReady(job) && Output(job, w) && NamesFixed(job.img) && NoteReady(job) && ParserShaped(job.img)
    requires PlainCounts(w.f) && Headers(w.f) == Ok(w.headers)
    ensures Parse(w.out) == Ok(Reparsed(w.f))
  {
    FinalParseable(job, w.f);
    FinalBounded(job, w.f);
    assert HoldsAll(w.out, w.f);
    ParseWritten(w.out, w.f, Padding(w.f));
  }

  /** Parsing an appended file gives back the image that was written. */
  lemma AppendParses(img: Image, flags: seq<bool>, cut: nat, page: nat, original: seq<byte>, f: Image, out: seq<byte>)
    requires Appends(img, flags, cut, page, original, f, out) && ParserShaped(img) && PlainCounts(f)
    ensures Parse(out) == Ok(Reparsed(f))
  {
    var job, w := AppendOutput(img, flags, cut, page, original, f, out);
    WithTablesShaped(img, job.g);
    OutputParses(job, w);
  }

  lemma WithTablesShaped(img: Image, g: Geometry)
    requires ParserShaped(img)
    ensures ParserShaped(WithTables(img, g))
  {
    SameDynIdx(img, WithTables(img, g));
  }

  lemma ShiftedShaped(img: Image, shift: nat)
    requires ParserShaped(img)
    ensures ParserShaped(Shifted(img, shift))
  {
    SameDynIdx(img, Shifted(img, shift));
  }

  /** Parsing a prepended file gives back the image that was written. */
  lemma PrependParses(img: Image, flags: seq<bool>, page: nat, keepTail: bool, original: seq<byte>, shift: nat,
                      f: Image, out: seq<byte>)
    requires Prepends(img, flags, page, keepTail, original, shift, f, out) && ParserShaped(img) && PlainCounts(f)
    ensures Parse(out) == Ok(Reparsed(f))
  {
    var job, w := PrependOutput(img, flags, page, keepTail, original, shift, f, out);
    PrependRegionOk(img, flags, |original|, page, keepTail);
    ShiftedShaped(img, shift);
    WithTablesShaped(Shifted(img, shift), job.g);
    OutputParses(job, w);
  }

  /** Appending to a file without sections writes a table offset whose count the
      parser then looks for in a section 0 past the end of the file. */
  lemma AppendSectionlessUnreadable(img: Image, flags: seq<bool>, cut: nat, page: nat, original: seq<byte>, f: Image,
                                    out: seq<byte>)
    requires Appends(img, flags, cut, page, original, f, out) && IdentOk(img.ehdr.ident, img.enc)
    requires img.shdrs == [] && |f.phdrs| < PN_XNUM && img.ehdr.shstrndx < SHN_LORESERVE
    ensures Parse(out).Err?
  {
    var job, w := AppendOutput(img, flags, cut, page, original, f, out);
    FinalFields(job.img, job.g, job.note, job.front, f);
    assert HoldsAll(out, f);
    EmptyRegion(img, flags, cut, page);
    SectionlessUnreadable(out, f);
  }

  lemma EmptyRegion(img: Image, flags: seq<bool>, cut: nat, page: nat)
    requires AppendReady(img, flags, cut, page) && img.shdrs == []
    ensures var g := AppendGeometry(img, flags, cut, page); 0 < g.shoff && g.shoff + 1 == g.total
  {
    assert DataFlags(img, flags) == [] && ExecFlags(img, flags) == [];
    assert RoundUp(0, DynSize(img.enc.class_)) == 0;
    AppendRegionOk(img, flags, cut, page);
    RoundUpFacts((|img.phdrs| + 1) * PhdrSize(img.enc.class_) + img.ehdr.ehsize, DynSize(img.enc.class_));
  }

  // ---- Loads stay in address order ----

  ghost predicate ByAddress(loads: seq<Phdr>)
  {
    forall i, j :: 0 <= i < j < |loads| ==> loads[i].vaddr <= loads[j].vaddr
  }

  lemma ByAddressConcat(a: seq<Phdr>, b: seq<Phdr>)
    requires ByAddress(a) && ByAddress(b)
    requires forall p, q :: p in a && q in b ==> p.vaddr <= q.vaddr
    ensures ByAddress(a + b)
  {
    var s := a + b;
    forall i, j | 0 <= i < j < |s|
      ensures s[i].vaddr <= s[j].vaddr
    {
      if i < |a| <= j {
        assert s[i] in a && s[j] == b[j - |a|] && s[j] in b;
      } else if |a| <= i {
        assert s[i] == b[i - |a|] && s[j] == b[j - |a|];
      }
    }
  }

  lemma NewLoadsByAddress(r: Region, at: Site)
    requires r.dataLen <= r.len
    ensures ByAddress(NewLoads(r, at))
  {
  }

  /** New loads and old ones are on different sides. */
  lemma NewLoadsAside(job: Job, p: Phdr, q: Phdr)
    requires MemSite(job) && p in Loads(job.img.phdrs) && q in NewLoads(job.g.region, job.g.at)
    ensures if job.front then q.vaddr <= p.vaddr else p.vaddr <= q.vaddr
  {
  }

  /** Both layouts keep the loads ascending by address in the table: an appended
      region's come last, a prepended one's first. */
  lemma LoadsStayAscending(job: Job, f: Image)
    requires NoteReady(job) && MemSite(job) && Yields(job, f) && ByAddress(Loads(job.img.phdrs))
    ensures ByAddress(Loads(f.phdrs))
  {
    var loads, news := Loads(job.img.phdrs), NewLoads(job.g.region, job.g.at);
    FinalLoads(job, f);
    NewLoadsByAddress(job.g.region, job.g.at);
    forall p, q | p in loads && q in news
      ensures if job.front then q.vaddr <= p.vaddr else p.vaddr <= q.vaddr
    {
      NewLoadsAside(job, p, q);
    }
    if job.front {
      ByAddressConcat(news, loads);
    } else {
      ByAddressConcat(loads, news);
    }
  }

  // ---- The ld-cache note in the prepend layout ----

  /** In a prepend the ld-cache `PT_NOTE` follows its moved section exactly when it
      precedes the first load in the table: its index is taken before the new
      loads are rotated in front of that load. */
  lemma PrependNoteFollows(job: Job, f: Image, k: nat, s: nat)
    requires FileReady(job) && Yields(job, f) && NamesFixed(job.img) && job.front && job.note == Some(k)
    requires k < |job.img.phdrs| && job.img.phdrs[k].ptype == PT_NOTE
    requires job.img.FindSection(LDCACHE) == Some(s) && s < |job.flags| && job.flags[s]
    requires job.g.at.off + job.g.region.len <= job.img.phdrs[k].offset
    requires SectionLen(job.img, s) > 0
    ensures s < |f.shdrs| && f.FindSection(LDCACHE) == Some(s)
    ensures var x := NewIndex(job.img, job.g, true, k);
            x < |f.phdrs| && (Frames(f.phdrs[x], ExtentOf(f.shdrs[s]))
                              <==> k < FirstLoad(job.img.phdrs + NewLoads(job.g.region, job.g.at)))
  {
    var x := NewIndex(job.img, job.g, true, k);
    SameNamesFinal(job, f);
    SameFind(job.img, f, LDCACHE);
    FinalShdr(job, f, s);
    MovedShdr(job, IndexOf(job.g.region.sections, s));
    PushedEntries(job.img, job.g, true);
    FinalFields(job.img, job.g, job.note, job.front, f);
    PushedShape(job.img, job.g, true);
    var p := Pushed(job.img, job.g, true);
    SameFind(job.img, p, LDCACHE);
    assert p.phdrs[x] == job.img.phdrs[k];
    SyncedNote(p, k, x, s, PhdrVaddr(job.g));
    FramesOnlyIf(job.img.phdrs[k], f.phdrs[x], ExtentOf(f.shdrs[s]), x == k);
  }

  /** Syncing moves a note's segment only at the remembered index. */
  lemma SyncedNote(p: Image, k: nat, x: nat, s: nat, phdrVaddr: nat)
    requires x < |p.phdrs| && p.phdrs[x].ptype == PT_NOTE && p.FindSection(LDCACHE) == Some(s)
    ensures SyncedPhdr(p, Some(k), phdrVaddr, x)
            == if x == k then SetSegment(p.phdrs[x], ExtentOf(p.shdrs[s])) else p.phdrs[x]
  {
  }

  lemma FramesOnlyIf(before: Phdr, p: Phdr, x: Extent, moved: bool)
    requires p == if moved then SetSegment(before, x) else before
    requires before.offset != x.offset
    ensures Frames(p, x) <==> moved
  {
  }

  // ---- The overlay ----

  /** With `keep_tail`, everything past what the headers `parsed` from the input
      describe is still the end of the output. */
  lemma PrependKeepsOverlay(img: Image, flags: seq<bool>, page: nat, original: seq<byte>, shift: nat, f: Image,
                            out: seq<byte>, parsed: Image)
    requires Prepends(img, flags, page, true, original, shift, f, out) && |flags| == |img.shdrs|
    requires DescribedEnd(parsed) <= |original|
    requires forall j: nat {:trigger Kept(img, flags, j)} :: Kept(img, flags, j) ==> img.shdrs[j] in parsed.shdrs
    ensures |out| == |original| + shift
    ensures out[DescribedEnd(parsed) + shift..] == original[DescribedEnd(parsed)..]
  {
    DescribedEnds(img, flags, parsed);
    PrependKeepsTail(img, flags, page, original, shift, f, out, DescribedEnd(parsed));
  }

  lemma DescribedEnds(img: Image, flags: seq<bool>, parsed: Image)
    requires |flags| == |img.shdrs|
    requires forall j: nat {:trigger Kept(img, flags, j)} :: Kept(img, flags, j) ==> img.shdrs[j] in parsed.shdrs
    ensures SectionsEndBy(img, flags, DescribedEnd(parsed))
  {
  }

  // ---- Which sections stay ----

  /** Every section left in place has its final size, as the writer demands, if and
      only if the guard that leaves empty sections alone leaves none that changed. */
  lemma KeptSizesMatch(img: Image, start: Option<nat>)
    requires WellShaped(img)
    ensures var flags := RelocationFlags(img, GrownSections(img), start);
            (forall i: nat :: Kept(img, flags, i) ==> SectionLen(img, i) == img.shdrs[i].size)
            <==> forall i: nat :: i < |img.shdrs| && img.data[i] == [] ==> !Resized(img, i)
  {
    IndicesFacts(seq(|img.shdrs|, j requires 0 <= j < |img.shdrs| => Resized(img, j)));
    var flags := RelocationFlags(img, GrownSections(img), start);
    forall i: nat | i < |img.shdrs| && img.data[i] == [] ensures !flags[i] {
      assert flags[i] == Relocates(img, GrownSections(img), start, i);
    }
    forall i: nat | Kept(img, flags, i) && img.data[i] != [] ensures !Resized(img, i) {
      assert flags[i] == Relocates(img, GrownSections(img), start, i);
    }
  }

  // ---- The debug map ----

  /** `DT_MIPS_RLD_MAP_REL` leads from the tag's own slot to `.rld_map`, in the
      class's address arithmetic. */
  lemma RldMapReached(img: Image, j: nat, s: nat)
    requires img.FindSection(RLD_MAP) == Some(s)
    ensures var limit, slot := Limit(img.enc.class_), SectionAddr(img, img.DynIdx()) + j * DynSize(img.enc.class_);
            (slot + RldMapRel(img, j)) % limit == img.shdrs[s].addr % limit
  {
    var limit, slot := Limit(img.enc.class_), SectionAddr(img, img.DynIdx()) + j * DynSize(img.enc.class_);
    Pow256Widths();
    assert RldMapRel(img, j) == (img.shdrs[s].addr - slot) % limit;
    WrapBack(img.enc.class_, slot, img.shdrs[s].addr);
  }

  lemma WrapBack(c: Class, slot: nat, r: nat)
    ensures (slot + (r - slot) % Limit(c)) % Limit(c) == r % Limit(c)
  {
    Pow256Widths();
    if c.Elf64? {
      Wrap64(slot, r);
    } else {
      Wrap32(slot, r);
    }
  }

  lemma Wrap32(slot: nat, r: nat)
    ensures (slot + (r - slot) % 0x1_0000_0000) % 0x1_0000_0000 == r % 0x1_0000_0000
  {
  }

  lemma Wrap64(slot: nat, r: nat)
    ensures (slot + (r - slot) % 0x1_0000_0000_0000_0000) % 0x1_0000_0000_0000_0000 == r % 0x1_0000_0000_0000_0000
  {
  }

  /** In the final image that tag is computed from the final addresses. */
  lemma FinalRldMap(job: Job, f: Image, j: nat)
    requires Yields(job, f) && NamesFixed(job.img) && j < |job.img.dynamic|
             && job.img.dynamic[j].tag == DT_MIPS_RLD_MAP_REL
    ensures j < |f.dynamic| && f.dynamic[j] == job.img.dynamic[j].(val := RldMapRel(f, j))
  {
    PushedShape(job.img, job.g, job.front);
    FinalFields(job.img, job.g, job.note, job.front, f);
    SameNamesFinal(job, f);
    SameRldMap(Pushed(job.img, job.g, job.front), f, j);
  }

  /** Entry `j`'s own slot in memory, plus its value, is the address of `.rld_map`, in 64 or
      32 bits. */
  ghost predicate LeadsToMap(f: Image, j: nat)
    requires j < |f.dynamic|
  {
    match f.FindSection(Ascii(".rld_map"))
    case None => f.dynamic[j].val == 0
    case Some(s) =>
      var at := match f.DynIdx() case None => 0 case Some(d) => f.shdrs[d].addr;
      if f.enc.class_.Elf64? then
        (at + j * 16 + f.dynamic[j].val) % 0x1_0000_0000_0000_0000 == f.shdrs[s].addr % 0x1_0000_0000_0000_0000
      else (at + j * 8 + f.dynamic[j].val) % 0x1_0000_0000 == f.shdrs[s].addr % 0x1_0000_0000
  }

  lemma LeadsThere(f: Image, j: nat)
    requires j < |f.dynamic| && f.dynamic[j].val == RldMapRel(f, j)
    ensures LeadsToMap(f, j)
  {
    Pow256Widths();
    if f.FindSection(RLD_MAP).Some? {
      RldMapReached(f, j, f.FindSection(RLD_MAP).value);
    }
  }

  /** After either layout `DT_MIPS_RLD_MAP_REL` leads to the map where it now is. */
  lemma MapFollows(job: Job, f: Image, j: nat)
    requires Yields(job, f) && NamesFixed(job.img) && j < |job.img.dynamic| && job.img.dynamic[j].tag == 0x7000_0035
    ensures j < |f.dynamic| && f.dynamic[j].tag == 0x7000_0035 && LeadsToMap(f, j)
  {
    FinalRldMap(job, f, j);
    LeadsThere(f, j);
  }

  /** The distance depends only on names, addresses and the class. */
  lemma SameRldMap(p: Image, f: Image, j: nat)
    requires SameNames(p, f) && f.enc == p.enc && f.shdrs == p.shdrs
    ensures RldMapRel(f, j) == RldMapRel(p, j)
  {
    SameFind(p, f, RLD_MAP);
    SameDynIdx(p, f);
  }
}
