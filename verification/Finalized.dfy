/** What a finalized file means to a loader (`finalize` in src/layout.rs), whichever
    way it was written: read back, it maps the program that the input did. */
module Finalized {
  import opened Bytes
  import opened Ir
  import opened Codec
  import opened Serialize
  import opened Layout
  import opened Shape
  import opened Placed
  import opened Verify
  import opened Append
  import opened Prepend
  import opened Loader
  import opened Memory
  import opened AppendTheorems
  import opened PrependTheorems
  import opened Parser
  import opened RoundTrip
  import opened Outcome
  import opened Relayout
  import opened Paths

  // ---- The in-place rewrite ----

  /** The in-place path writes `f` as `out`. */
  ghost predicate InPlace(v: Image, original: seq<byte>, f: Image, out: seq<byte>)
  {
    WellShaped(v) && SyncedDynamic(v.(dynamic := RldFixed(v))) == Ok(f) && InPlaceResult(v, original) == Ok(out)
  }

  lemma InPlaceFacts(v: Image, original: seq<byte>, f: Image, out: seq<byte>)
    requires InPlace(v, original, f, out)
    ensures WellShaped(f) && f == v.(dynamic := f.dynamic, data := f.data) && |out| == |original|
    ensures Headers(f).Ok? && SizesMatch(f) && MemoryDisjoint(Loads(v.phdrs))
    ensures WriteSpec(f, original, 0, |original|) == Ok(out)
  {
    var w := v.(dynamic := RldFixed(v));
    SyncedShape(w, f);
    CheckedWrite(f, original, out);
  }

  lemma SyncedShape(w: Image, f: Image)
    requires WellShaped(w) && SyncedDynamic(w) == Ok(f)
    ensures WellShaped(f) && f == w.(data := f.data)
  {
  }

  /** An image that was checked and written. */
  lemma CheckedWrite(f: Image, original: seq<byte>, out: seq<byte>)
    requires WellShaped(f) && Verify.Run(f, |original|).Ok? && WriteSpec(f, original, 0, |original|) == Ok(out)
    ensures Headers(f).Ok? && SizesMatch(f) && MemoryDisjoint(Loads(f.phdrs)) && |out| == |original|
  {
  }

  /** Every header or section that covers file position `i` has the input's byte there. */
  ghost predicate Agree(spans: seq<Span>, original: seq<byte>, i: nat)
  {
    i < |original| && forall s :: s in spans && s.Covers(i) ==> s.bytes[i - s.at] == original[i]
  }

  /** Such a position keeps its byte. */
  lemma AgreedByte(spans: seq<Span>, original: seq<byte>, i: nat)
    requires Agree(spans, original, i)
    ensures Render(Delta(spans, original, 0), original, 0, |original|)[i] == original[i]
  {
    var delta := Delta(spans, original, 0);
    forall s | s in delta && s.Covers(i)
      ensures s.bytes[i - s.at] == original[i]
    {
      DeltaMembers(spans, original, 0, s);
    }
  }

  /** An address of a load reads the same byte when its file position holds the same. */
  lemma SameMemory(out: seq<byte>, original: seq<byte>, phdrs: seq<Phdr>, p: Phdr, a: nat)
    requires MemoryDisjoint(Loads(phdrs)) && p in Loads(phdrs) && InMemory(p, a)
    requires a - p.vaddr < p.filesz ==>
               FileIndex(p, a) < |out| && FileIndex(p, a) < |original|
                 && out[FileIndex(p, a)] == original[FileIndex(p, a)]
    ensures MemAt(out, phdrs, a) == MemAt(original, phdrs, a)
  {
    MemOf(out, Loads(phdrs), p, a);
    MemOf(original, Loads(phdrs), p, a);
  }

  lemma WrittenIs(f: Image, original: seq<byte>, out: seq<byte>)
    requires WellShaped(f) && WriteSpec(f, original, 0, |original|) == Ok(out)
    ensures Headers(f).Ok?
    ensures var delta := Delta(Regions(f), original, 0);
            out == Render(delta, original, 0, |original|) && PairwiseApart(delta) && Inside(delta, |original|)
  {
  }

  /** The in-place rewrite preserves the loaded program: an address whose file byte no
      header and no section changes reads as before. */
  lemma InPlacePreserves(v: Image, original: seq<byte>, f: Image, out: seq<byte>, p: Phdr, a: nat)
    requires InPlace(v, original, f, out) && p in Loads(v.phdrs) && InMemory(p, a)
    requires WellShaped(f) && Headers(f).Ok?
             && (a - p.vaddr < p.filesz ==> Agree(Regions(f), original, FileIndex(p, a)))
    ensures MemAt(out, f.phdrs, a) == MemAt(original, v.phdrs, a)
  {
    InPlaceFacts(v, original, f, out);
    WrittenIs(f, original, out);
    if a - p.vaddr < p.filesz {
      AgreedByte(Regions(f), original, FileIndex(p, a));
    }
    SameMemory(out, original, v.phdrs, p, a);
  }

  /** A changed section's bytes are in the file at its place. */
  lemma ChangedHeld(f: Image, original: seq<byte>, out: seq<byte>, s: Span)
    requires WellShaped(f) && WriteSpec(f, original, 0, |original|) == Ok(out)
    requires s in SectionSpans(f) && Changed(s, original, 0)
    ensures Holds(out, s)
  {
    WrittenIs(f, original, out);
    var delta := Delta(Regions(f), original, 0);
    DeltaMembers(Regions(f), original, 0, s);
    RenderIsRendered(delta, original, 0, |original|);
  }

  lemma HeldReads(out: seq<byte>, phdrs: seq<Phdr>, p: Phdr, s: Span)
    requires MemoryDisjoint(Loads(phdrs)) && p in Loads(phdrs) && p.filesz <= p.memsz && FileRangeIn(p, s.at, s.End())
    requires Holds(out, s)
    ensures Reads(out, phdrs, p.vaddr + (s.at - p.offset), s.bytes)
  {
    forall x | 0 <= x < |s.bytes|
      ensures MemAt(out, phdrs, p.vaddr + (s.at - p.offset) + x) == Some(s.bytes[x])
    {
      HeldByte(out, s, x);
      MemOf(out, Loads(phdrs), p, p.vaddr + (s.at - p.offset) + x);
    }
  }

  /** A section the rewrite changes is read with its new bytes. */
  lemma InPlaceRewrites(v: Image, original: seq<byte>, f: Image, out: seq<byte>, p: Phdr, s: Span)
    requires InPlace(v, original, f, out) && WellShaped(f) && s in SectionSpans(f) && Changed(s, original, 0)
    requires p in Loads(v.phdrs) && p.filesz <= p.memsz && FileRangeIn(p, s.at, s.End())
    ensures Reads(out, f.phdrs, p.vaddr + (s.at - p.offset), s.bytes)
  {
    InPlaceFacts(v, original, f, out);
    ChangedHeld(f, original, out, s);
    HeldReads(out, f.phdrs, p, s);
  }

  /** In place only `DT_MIPS_RLD_MAP_REL` may change, and it leads to the map. */
  lemma InPlaceTags(v: Image, f: Image, j: nat)
    requires WellShaped(v) && SyncedDynamic(v.(dynamic := RldFixed(v))) == Ok(f) && NamesFixed(v) && j < |v.dynamic|
    ensures |f.dynamic| == |v.dynamic| && f.dynamic[j].tag == v.dynamic[j].tag
    ensures if v.dynamic[j].tag == 0x7000_0035 then LeadsToMap(f, j) else f.dynamic[j] == v.dynamic[j]
  {
    var w := v.(dynamic := RldFixed(v));
    SyncedShape(w, f);
    OthersKept(w, f);
    SameDynIdx(v, w);
    SameDynIdx(v, f);
    if v.dynamic[j].tag == 0x7000_0035 {
      assert SameNames(v, f);
      SameRldMap(v, f, j);
      LeadsThere(f, j);
    }
  }

  /** What the in-place path needs for its output to be read back: no two parts of the
      file touch, as in the file that was parsed. */
  ghost predicate InPlaceReady(v: Image, original: seq<byte>, f: Image)
  {
    && ParserShaped(v) && PlainCounts(v)
    && WellShaped(f) && Headers(f).Ok? && PairwiseApart(Regions(f)) && Inside(Regions(f), |original|)
  }

  lemma SyncedAgain(w: Image, f: Image)
    requires WellShaped(w) && SyncedDynamic(w) == Ok(f) && ParserShaped(w)
    requires w.DynIdx().Some? ==> f.DynIdx() == w.DynIdx()
    ensures w.DynIdx().Some? ==>
              var d := w.DynIdx().value;
              WellShaped(f) && f.shdrs[d].shtype != SHT_NOBITS && PaddedDynamic(f, f.shdrs[d].size) == Ok(f.data[d])
              && f.shdrs[d].size % DynSize(f.enc.class_) == 0 && TagsFit(f.enc.class_, f.dynamic)
  {
  }

  lemma RldShaped(v: Image)
    requires ParserShaped(v)
    ensures ParserShaped(v.(dynamic := RldFixed(v))) && v.(dynamic := RldFixed(v)).DynIdx() == v.DynIdx()
  {
    SameDynIdx(v, v.(dynamic := RldFixed(v)));
  }

  lemma InPlaceSynced(v: Image, original: seq<byte>, f: Image, out: seq<byte>)
    requires InPlace(v, original, f, out) && ParserShaped(v) && WellShaped(f)
    ensures DynamicSynced(f, Padding(f))
  {
    InPlaceFacts(v, original, f, out);
    SameDynIdx(v, f);
    RldShaped(v);
    SyncedAgain(v.(dynamic := RldFixed(v)), f);
    if v.DynIdx().Some? {
      SyncedIs(f, v.DynIdx().value);
    }
  }

  lemma InsideParts(a: seq<Span>, b: seq<Span>, total: nat)
    requires Inside(a + b, total)
    ensures Inside(a, total) && Inside(b, total)
  {
  }

  lemma SectionInside(f: Image, i: nat, total: nat)
    requires WellShaped(f) && SizesMatch(f) && Inside(SectionSpans(f), total) && i < |f.shdrs|
             && f.shdrs[i].shtype != SHT_NOBITS
    ensures f.shdrs[i].offset + f.shdrs[i].size <= total
  {
    var s := SectionSpans(f)[i];
    assert s in SectionSpans(f) && s == Span(f.shdrs[i].offset, f.data[i]);
  }

  lemma InsideBounded(f: Image, total: nat)
    requires WellShaped(f) && Headers(f).Ok? && SizesMatch(f) && Inside(Regions(f), total)
    ensures Bounded(f, total)
  {
    HeaderLengths(f);
    var h := Headers(f).value;
    InsideParts(h, SectionSpans(f), total);
    assert h[0] in h && h[1] in h && h[2] in h;
    forall i | 0 <= i < |f.shdrs| && f.shdrs[i].shtype != SHT_NOBITS
      ensures f.shdrs[i].offset + f.shdrs[i].size <= total
    {
      SectionInside(f, i, total);
    }
  }

  lemma RegionsHeld(f: Image, original: seq<byte>, out: seq<byte>)
    requires WellShaped(f) && Headers(f).Ok? && SizesMatch(f) && WriteSpec(f, original, 0, |original|) == Ok(out)
    requires PairwiseApart(Regions(f)) && Inside(Regions(f), |original|)
    ensures HoldsAll(out, f)
  {
    WriteRegions(f, original, 0, |original|);
  }

  /** The rewrite leaves every section but the dynamic one as it is. */
  lemma OthersKept(w: Image, f: Image)
    requires WellShaped(w) && SyncedDynamic(w) == Ok(f)
    ensures |f.data| == |w.data| && forall i :: 0 <= i < |w.data| && w.DynIdx() != Some(i) ==> f.data[i] == w.data[i]
  {
  }

  lemma InPlaceParseable(v: Image, original: seq<byte>, f: Image, out: seq<byte>)
    requires InPlace(v, original, f, out) && InPlaceReady(v, original, f)
    ensures Parseable(f, Padding(f))
  {
    InPlaceFacts(v, original, f, out);
    InPlaceSynced(v, original, f, out);
    RldShaped(v);
    OthersKept(v.(dynamic := RldFixed(v)), f);
    NobitsEmpty(v, f);
    PackParseable(v, f);
  }

  lemma NobitsEmpty(v: Image, f: Image)
    requires ParserShaped(v) && WellShaped(f) && f.shdrs == v.shdrs && |f.data| == |v.data|
    requires forall i :: 0 <= i < |v.data| && v.DynIdx() != Some(i) ==> f.data[i] == v.data[i]
    ensures forall i :: 0 <= i < |f.shdrs| && f.shdrs[i].shtype == SHT_NOBITS ==> f.data[i] == []
  {
  }

  lemma PackParseable(v: Image, f: Image)
    requires WellShaped(f) && f == v.(dynamic := f.dynamic, data := f.data) && ParserShaped(v) && PlainCounts(v)
    requires Headers(f).Ok? && SizesMatch(f) && DynamicSynced(f, Padding(f))
    requires forall i :: 0 <= i < |f.shdrs| && f.shdrs[i].shtype == SHT_NOBITS ==> f.data[i] == []
    ensures Parseable(f, Padding(f))
  {
  }

  /** Reading the rewritten file gives back the image that was written. */
  lemma InPlaceParses(v: Image, original: seq<byte>, f: Image, out: seq<byte>)
    requires InPlace(v, original, f, out) && InPlaceReady(v, original, f)
    ensures Parse(out) == Ok(Reparsed(f))
  {
    InPlaceParseable(v, original, f, out);
    InPlaceFacts(v, original, f, out);
    InsideBounded(f, |out|);
    RegionsHeld(f, original, out);
    ParseWritten(out, f, Padding(f));
  }

  // ---- Each path, from file to file ----

  /** The loader finds the same byte at `a` in the written file as in the input, each
      mapped as its own headers say. */
  ghost predicate SameProgram(original: seq<byte>, o: Image, out: seq<byte>, a: nat)
  {
    Parse(out).Ok? && MemAt(out, Parse(out).value.phdrs, a) == MemAt(original, o.phdrs, a)
  }

  /** `o` is the parsed input: edits left its loads alone, and they do not overlap. */
  ghost predicate Source(o: Image, v: Image)
  {
    Loads(o.phdrs) == Loads(v.phdrs) && MemoryDisjoint(Loads(v.phdrs))
  }

  lemma RemovedLoads(phdrs: seq<Phdr>, x: nat, p: Phdr)
    requires x < |phdrs| && p in Loads(Remove(phdrs, x))
    ensures p in Loads(phdrs)
  {
    LoadsMembers(Remove(phdrs, x), p);
    LoadsMembers(phdrs, p);
  }

  /** Dropping a previous region adds no load. */
  lemma DroppedLoads(v: Image, reclaim: bool, p: Phdr)
    requires p in Loads(DropPrior(v, reclaim).phdrs)
    ensures p in Loads(v.phdrs)
  {
    if reclaim && PriorLoad(v).Some? {
      var img1 := v.(phdrs := Remove(v.phdrs, PriorLoad(v).value));
      if StubLoad(img1).Some? {
        RemovedLoads(img1.phdrs, StubLoad(img1).value, p);
      }
      RemovedLoads(v.phdrs, PriorLoad(v).value, p);
    }
  }

  /** What the input's loader read at an address of a load that was kept. */
  lemma SourceByte(original: seq<byte>, o: Image, v: Image, reclaim: bool, p: Phdr, a: nat)
    requires Source(o, v) && p in Loads(DropPrior(v, reclaim).phdrs) && InMemory(p, a)
    ensures MemAt(original, o.phdrs, a) == LoadByte(original, p, a)
  {
    DroppedLoads(v, reclaim, p);
    MemOf(original, Loads(v.phdrs), p, a);
  }

  lemma InPlaceProgram(v: Image, original: seq<byte>, f: Image, out: seq<byte>, o: Image, p: Phdr, a: nat)
    requires InPlace(v, original, f, out) && InPlaceReady(v, original, f) && Source(o, v)
    requires p in Loads(v.phdrs) && InMemory(p, a)
    requires a - p.vaddr < p.filesz ==> Agree(Regions(f), original, FileIndex(p, a))
    ensures SameProgram(original, o, out, a)
  {
    InPlacePreserves(v, original, f, out, p, a);
    InPlaceParses(v, original, f, out);
  }

  lemma AppendProgram(v: Image, reclaim: bool, flags: seq<bool>, cut: nat, page: nat, original: seq<byte>, f: Image,
                      out: seq<byte>, o: Image, p: Phdr, a: nat)
    requires var d := DropPrior(v, reclaim);
             && Appends(d, flags, cut, page, original, f, out) && cut <= |original| && ParserShaped(d) && PlainCounts(f)
             && p in Loads(d.phdrs) && InMemory(p, a) && |flags| == |d.shdrs|
             && (a - p.vaddr < p.filesz ==> AppendKeeps(d, flags, f, original, FileIndex(p, a)))
    requires Source(o, v)
    ensures SameProgram(original, o, out, a)
  {
    var d := DropPrior(v, reclaim);
    AppendKeepsByte(d, flags, cut, page, original, f, out, p, a);
    AppendParses(d, flags, cut, page, original, f, out);
    SourceByte(original, o, v, reclaim, p, a);
  }

  lemma PrependProgram(v: Image, flags: seq<bool>, page: nat, keepTail: bool, original: seq<byte>, shift: nat, f: Image,
                       out: seq<byte>, o: Image, p: Phdr, a: nat)
    requires var d := DropPrior(v, true);
             && Prepends(d, flags, page, keepTail, original, shift, f, out) && ParserShaped(d) && PlainCounts(f)
             && p in Loads(d.phdrs) && InMemory(p, a) && |flags| == |d.shdrs|
             && (a - p.vaddr < p.filesz ==> PrependKeeps(d, flags, f, original, FileIndex(p, a)))
    requires Source(o, v)
    ensures SameProgram(original, o, out, a)
  {
    var d := DropPrior(v, true);
    PrependKeepsByte(d, flags, page, keepTail, original, shift, f, out, p, a);
    PrependParses(d, flags, page, keepTail, original, shift, f, out);
    SourceByte(original, o, v, true, p, a);
  }

  // ---- `finalize` as a whole ----

  /** The sections a layout moves. */
  function MovedFlags(v: Image, reclaim: bool): (flags: seq<bool>)
    requires WellShaped(v)
    ensures |flags| == |DropPrior(v, reclaim).shdrs|
  {
    RelocationFlags(DropPrior(v, reclaim), GrownSections(v), RegionStart(v, reclaim))
  }

  /** The image the path writes is `f`, from an input that meets the path's conditions. */
  ghost predicate Finalizes(v: Image, original: seq<byte>, page: nat, noClobber: bool, f: Image)
    requires WellShaped(v) && page > 0
  {
    match PathOf(v, original, page)
    case Failing(_) => false
    case Rewriting => SyncedDynamic(v.(dynamic := RldFixed(v))) == Ok(f) && ParserShaped(v)
    case Appending =>
      var d, flags, cut := DropPrior(v, !noClobber), MovedFlags(v, !noClobber),
        Cut(RegionStart(v, !noClobber), original);
      && AppendReady(d, flags, cut, page) && cut <= |original| && ParserShaped(d)
      && Appended(d, flags, cut, page) == Ok(f) && PlainCounts(f)
    case Prepending(keepTail, _) =>
      var d, flags := DropPrior(v, true), MovedFlags(v, true);
      && PrependReady(d, flags, |original|, page, keepTail) && ParserShaped(d)
      && Prepended(d, flags, |original|, page, keepTail) == Ok(f) && PlainCounts(f)
  }

  /** What an in-place rewrite needs of the input file and the edits: no two parts of
      the file share a byte, its counts are plain ones, and edits keep every place. */
  ghost predicate InPlaceSound(original: seq<byte>, o: Image, v: Image)
  {
    && PartsApart(Parts(o)) && KeepsPlaces(o, v) && PlainCounts(o)
    && |original| >= (if o.enc.class_.Elf64? then 64 else 52) && StoredCount(original, o.enc) != 0xffff
  }

  /** From such an input the in-place path leads to an image none of whose parts touch. */
  lemma RewritingReady(original: seq<byte>, o: Image, v: Image, page: nat, f: Image, out: seq<byte>)
    requires Parse(original) == Ok(o) && InPlaceSound(original, o, v) && page > 0
    requires WellShaped(v) && ParserShaped(v) && PathOf(v, original, page) == Rewriting
    requires InPlace(v, original, f, out)
    ensures InPlaceReady(v, original, f)
  {
    InPlaceFacts(v, original, f, out);
    var raw := RawCount(original, o);
    RewritesIff(original, o, v, page);
    NothingGrown(v);
    RegionsApart(original, o, v, f);
    NothingAdded(o, v);
  }

  /** The loads of the input that the path keeps. */
  ghost function KeptLoads(v: Image, original: seq<byte>, page: nat, noClobber: bool): seq<Phdr>
    requires WellShaped(v) && page > 0
  {
    match PathOf(v, original, page)
    case Appending => Loads(DropPrior(v, !noClobber).phdrs)
    case Prepending(_, _) => Loads(DropPrior(v, true).phdrs)
    case _ => Loads(v.phdrs)
  }

  /** Nothing the path writes over file position `i` of the input changes its byte. */
  ghost predicate KeepsByte(v: Image, original: seq<byte>, page: nat, noClobber: bool, f: Image, i: nat)
    requires WellShaped(v) && page > 0
  {
    match PathOf(v, original, page)
    case Failing(_) => false
    case Rewriting => WellShaped(f) && Headers(f).Ok? && Agree(Regions(f), original, i)
    case Appending => AppendKeeps(DropPrior(v, !noClobber), MovedFlags(v, !noClobber), f, original, i)
    case Prepending(_, _) => PrependKeeps(DropPrior(v, true), MovedFlags(v, true), f, original, i)
  }

  /** The file is the one the path writes. */
  lemma FileOfPath(v: Image, original: seq<byte>, page: nat, noClobber: bool, out: seq<byte>)
    requires WellShaped(v) && page > 0 && FinalizedFile(v, original, page, noClobber) == Ok(out)
    ensures match PathOf(v, original, page)
            case Failing(_) => false
            case Rewriting => InPlaceResult(v, original) == Ok(out)
            case Appending => AppendResult(v, GrownSections(v), page, !noClobber, original) == Ok(out)
            case Prepending(keepTail, b) =>
              b == out && PrependResult(v, GrownSections(v), page, keepTail, original) == Ok(Some(out))
  {
  }

  lemma AppendingPreserves(v: Image, original: seq<byte>, page: nat, noClobber: bool, f: Image, out: seq<byte>,
                           o: Image, p: Phdr, a: nat)
    requires WellShaped(v) && page > 0 && AppendResult(v, GrownSections(v), page, !noClobber, original) == Ok(out)
    requires PathOf(v, original, page) == Appending && Finalizes(v, original, page, noClobber, f) && Source(o, v)
    requires p in KeptLoads(v, original, page, noClobber) && InMemory(p, a)
    requires a - p.vaddr < p.filesz ==> KeepsByte(v, original, page, noClobber, f, FileIndex(p, a))
    ensures SameProgram(original, o, out, a)
  {
    var cut := Cut(RegionStart(v, !noClobber), original);
    assert Appends(DropPrior(v, !noClobber), MovedFlags(v, !noClobber), cut, page, original, f, out);
    AppendProgram(v, !noClobber, MovedFlags(v, !noClobber), cut, page, original, f, out, o, p, a);
  }

  lemma PrependingPrepends(v: Image, original: seq<byte>, page: nat, keepTail: bool, noClobber: bool, f: Image,
                           out: seq<byte>)
    requires WellShaped(v) && page > 0 && PrependResult(v, GrownSections(v), page, keepTail, original) == Ok(Some(out))
    requires PathOf(v, original, page) == Prepending(keepTail, out) && Finalizes(v, original, page, noClobber, f)
    ensures var d, flags := DropPrior(v, true), MovedFlags(v, true);
            && CanPrepend(d, flags, page, keepTail)
            && Prepends(d, flags, page, keepTail, original, PrependShift(d, flags, page, keepTail), f, out)
  {
    PrependingFinal(v, original, page, keepTail, noClobber, f, out);
    var g, shift := PrependResultPrepends(v, GrownSections(v), page, keepTail, original, out);
  }

  lemma PrependingFinal(v: Image, original: seq<byte>, page: nat, keepTail: bool, noClobber: bool, f: Image,
                        out: seq<byte>)
    requires WellShaped(v) && page > 0
    requires PathOf(v, original, page) == Prepending(keepTail, out) && Finalizes(v, original, page, noClobber, f)
    ensures var d, flags := DropPrior(v, true), MovedFlags(v, true);
            && PrependReady(d, flags, |original|, page, keepTail)
            && Prepended(d, flags, |original|, page, keepTail) == Ok(f)
  {
  }

  lemma PrependingPreserves(v: Image, original: seq<byte>, page: nat, keepTail: bool, noClobber: bool, f: Image,
                            out: seq<byte>, o: Image, p: Phdr, a: nat)
    requires WellShaped(v) && page > 0 && PrependResult(v, GrownSections(v), page, keepTail, original) == Ok(Some(out))
    requires PathOf(v, original, page) == Prepending(keepTail, out) && Finalizes(v, original, page, noClobber, f)
             && Source(o, v)
    requires p in KeptLoads(v, original, page, noClobber) && InMemory(p, a)
    requires a - p.vaddr < p.filesz ==> KeepsByte(v, original, page, noClobber, f, FileIndex(p, a))
    ensures SameProgram(original, o, out, a)
  {
    var shift := PrependShift(DropPrior(v, true), MovedFlags(v, true), page, keepTail);
    PrependingPrepends(v, original, page, keepTail, noClobber, f, out);
    PrependProgram(v, MovedFlags(v, true), page, keepTail, original, shift, f, out, o, p, a);
  }

  lemma RewritingPreserves(v: Image, original: seq<byte>, page: nat, noClobber: bool, f: Image, out: seq<byte>,
                           o: Image, p: Phdr, a: nat)
    requires WellShaped(v) && page > 0 && InPlaceResult(v, original) == Ok(out)
    requires PathOf(v, original, page) == Rewriting && Finalizes(v, original, page, noClobber, f) && Source(o, v)
    requires Parse(original) == Ok(o) && InPlaceSound(original, o, v)
    requires p in KeptLoads(v, original, page, noClobber) && InMemory(p, a)
    requires a - p.vaddr < p.filesz ==> KeepsByte(v, original, page, noClobber, f, FileIndex(p, a))
    ensures SameProgram(original, o, out, a)
  {
    RewritingReady(original, o, v, page, f, out);
    InPlaceProgram(v, original, f, out, o, p, a);
  }

  /** Whichever way a file is written, a loader that reads the new file by its own
      headers finds, at every address of a kept load that no rewritten byte backs, what
      it found in the input. */
  lemma FinalizePreserves(v: Image, original: seq<byte>, page: nat, noClobber: bool, f: Image, out: seq<byte>, o: Image,
                          p: Phdr, a: nat)
    requires WellShaped(v) && page > 0 && FinalizedFile(v, original, page, noClobber) == Ok(out)
    requires Finalizes(v, original, page, noClobber, f) && Parse(original) == Ok(o) && Source(o, v)
    requires PathOf(v, original, page) == Rewriting ==> InPlaceSound(original, o, v)
    requires p in KeptLoads(v, original, page, noClobber) && InMemory(p, a)
    requires a - p.vaddr < p.filesz ==> KeepsByte(v, original, page, noClobber, f, FileIndex(p, a))
    ensures SameProgram(original, o, out, a)
  {
    FileOfPath(v, original, page, noClobber, out);
    match PathOf(v, original, page) {
      case Rewriting => RewritingPreserves(v, original, page, noClobber, f, out, o, p, a);
      case Appending => AppendingPreserves(v, original, page, noClobber, f, out, o, p, a);
      case Prepending(keepTail, _) => PrependingPreserves(v, original, page, keepTail, noClobber, f, out, o, p, a);
    }
  }
}
