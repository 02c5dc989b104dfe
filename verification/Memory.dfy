/** The program a loader builds from the output file: kept addresses read the
    input's bytes, moved sections read their contents at their new addresses. */
module Memory {
  import opened Bytes
  import opened Ir
  import opened Serialize
  import opened Layout
  import opened RegionFacts
  import opened Shape
  import opened Placed
  import opened Verify
  import opened Accepted
  import opened Dynamic
  import opened Loader
  import Shift

  /** A written output: the final image, its encoded headers, the input and how
      far it moved up, and the bytes. */
  datatype Written = Written(f: Image, headers: seq<Span>, original: seq<byte>, shift: nat, out: seq<byte>)

  /** The output holds the headers and sections of the run's final image over the moved-up input. */
  ghost predicate Output(job: Job, w: Written)
  {
    && Yields(job, w.f) && WellShaped(w.f)
    && job.g.region.dataLen <= job.g.region.len && TablesAt(job, w.headers)
    && |w.out| == job.g.total
    && Rendered(w.out, w.headers + SectionSpans(w.f), w.original, w.shift)
  }

  /** Output position `i` belongs to the kept section `j`. */
  ghost predicate InKept(job: Job, j: nat, i: nat)
    requires |job.flags| == |job.img.shdrs|
  {
    Kept(job.img, job.flags, j) && job.img.shdrs[j].offset <= i < job.img.shdrs[j].offset + job.img.shdrs[j].size
  }

  lemma SpanHeld(job: Job, w: Written, i: nat)
    requires Output(job, w) && i < |w.f.shdrs|
    ensures Holds(w.out, SectionSpan(w.f, i))
  {
    var s := SectionSpans(w.f)[i];
    assert s in SectionSpans(w.f);
    assert s in w.headers + SectionSpans(w.f);
  }

  lemma HeldByte(out: seq<byte>, s: Span, x: nat)
    requires Holds(out, s) && x < |s.bytes|
    ensures s.at + x < |out| && out[s.at + x] == s.bytes[x]
  {
    assert out[s.at..s.End()][x] == out[s.at + x];
  }

  lemma KeptSpan(job: Job, f: Image, j: nat)
    requires FileReady(job) && Yields(job, f) && WellShaped(f) && Kept(job.img, job.flags, j)
    ensures j < |f.shdrs| == |f.data| && SectionSpan(f, j) == Span(job.img.shdrs[j].offset, f.data[j])
    ensures |f.data[j]| == job.img.shdrs[j].size
  {
    FinalFields(job.img, job.g, job.note, job.front, f);
    FinalSizes(job, f);
    KeptShdr(job, j);
  }

  /** A kept section's bytes are in the output at its place. */
  lemma KeptSectionByte(job: Job, w: Written, j: nat, i: nat)
    requires FileReady(job) && Output(job, w) && InKept(job, j, i)
    ensures j < |w.f.data| && i - job.img.shdrs[j].offset < |w.f.data[j]| && i < |w.out|
    ensures w.out[i] == w.f.data[j][i - job.img.shdrs[j].offset]
  {
    KeptSpan(job, w.f, j);
    SpanHeld(job, w, j);
    HeldByte(w.out, SectionSpan(w.f, j), i - job.img.shdrs[j].offset);
  }

  /** Which regions can cover a kept position: only kept sections. */
  lemma CoveredByKept(job: Job, w: Written, i: nat, s: Span)
    requires FileReady(job) && Yields(job, w.f) && WellShaped(w.f) && TablesAt(job, w.headers)
    requires job.lo <= i < job.hi && s in w.headers + SectionSpans(w.f) && s.Covers(i)
    ensures exists j: nat :: InKept(job, j, i)
  {
    FinalFields(job.img, job.g, job.note, job.front, w.f);
    NotInTables(job, w.headers, i, s);
    assert s in SectionSpans(w.f);
    var j :| 0 <= j < |SectionSpans(w.f)| && SectionSpans(w.f)[j] == s;
    SpanBounds(job, w.f, j);
    assert InKept(job, j, i);
  }

  lemma NotInTables(job: Job, h: seq<Span>, i: nat, s: Span)
    requires FileReady(job) && TablesAt(job, h) && job.lo <= i < job.hi && s.Covers(i)
    ensures s !in h
  {
    assert forall t :: t in h ==> t == h[0] || t == h[1] || t == h[2];
  }

  /** A kept position outside every kept section still holds the input's byte. */
  lemma KeptGapByte(job: Job, w: Written, i: nat)
    requires FileReady(job) && Output(job, w)
    requires job.lo <= i < job.hi && w.shift <= i < w.shift + |w.original|
    requires InGap(job, i)
    ensures i < |w.out| && w.out[i] == w.original[i - w.shift]
  {
    GapUncovered(job, w, i);
  }

  lemma GapUncovered(job: Job, w: Written, i: nat)
    requires FileReady(job) && Yields(job, w.f) && WellShaped(w.f) && TablesAt(job, w.headers)
    requires job.lo <= i < job.hi && InGap(job, i)
    ensures !Covered(w.headers + SectionSpans(w.f), i)
  {
    if Covered(w.headers + SectionSpans(w.f), i) {
      var s :| s in w.headers + SectionSpans(w.f) && s.Covers(i);
      CoveredByKept(job, w, i, s);
    }
  }

  /** A kept load still decides the memory at its addresses. */
  lemma KeptLoadReads(job: Job, f: Image, out: seq<byte>, p: Phdr, a: nat)
    requires Yields(job, f) && SegmentsReady(job) && MemSite(job)
    requires p in Loads(job.img.phdrs) && InMemory(p, a)
    ensures MemAt(out, f.phdrs, a) == LoadByte(out, p, a)
  {
    FinalDisjoint(job, f);
    JoinedMembers(job, f);
    InputProgram(out, f.phdrs, p, a);
  }

  /** The load a moved section lives in, with the section at the same distance
      from the load's start in file and memory. */
  lemma MovedHome(job: Job, f: Image, i: nat) returns (p: Phdr)
    requires FileReady(job) && Yields(job, f) && WellShaped(f) && SegmentsReady(job) && MemSite(job)
    requires i < |job.flags| && job.flags[i] && i < |f.shdrs|
    ensures p in Loads(f.phdrs) && p.filesz == p.memsz
    ensures p.vaddr <= f.shdrs[i].addr && f.shdrs[i].addr + f.shdrs[i].size <= p.vaddr + p.memsz
    ensures f.shdrs[i].addr - p.vaddr == f.shdrs[i].offset - p.offset
    ensures HasFlag(p.flags, PF_X) == Executable(job.img.shdrs[i])
            && HasFlag(p.flags, PF_W) == !Executable(job.img.shdrs[i])
    ensures SectionSpan(f, i) == Span(f.shdrs[i].offset, f.data[i]) && |f.data[i]| == f.shdrs[i].size
  {
    FinalShdr(job, f, i);
    FinalSizes(job, f);
    var k := IndexOf(job.g.region.sections, i);
    HomeCovers(job, k);
    JoinedMembers(job, f);
    p := Home(job, k);
  }

  /** A span inside one load's file range is read at the matching address. */
  lemma LoadedSpan(out: seq<byte>, phdrs: seq<Phdr>, p: Phdr, s: Span, addr: nat)
    requires MemoryDisjoint(Loads(phdrs)) && p in Loads(phdrs) && p.filesz == p.memsz
    requires p.vaddr <= addr && addr + |s.bytes| <= p.vaddr + p.memsz && addr - p.vaddr == s.at - p.offset
    requires Holds(out, s)
    ensures Reads(out, phdrs, addr, s.bytes)
  {
    forall x | 0 <= x < |s.bytes|
      ensures MemAt(out, phdrs, addr + x) == Some(s.bytes[x])
    {
      HeldByte(out, s, x);
      MemOf(out, Loads(phdrs), p, addr + x);
    }
  }

  /** A moved section is found at its new address with its final contents. */
  lemma MovedSectionReads(job: Job, w: Written, i: nat)
    requires FileReady(job) && Output(job, w) && SegmentsReady(job) && MemSite(job)
    requires i < |job.flags| && job.flags[i]
    ensures i < |w.f.shdrs| == |w.f.data| && Reads(w.out, w.f.phdrs, w.f.shdrs[i].addr, w.f.data[i])
  {
    FinalFields(job.img, job.g, job.note, job.front, w.f);
    SpanHeld(job, w, i);
    HeldSectionReads(job, w.f, w.out, i);
  }

  lemma HeldSectionReads(job: Job, f: Image, out: seq<byte>, i: nat)
    requires FileReady(job) && Yields(job, f) && WellShaped(f) && SegmentsReady(job) && MemSite(job)
    requires i < |job.flags| && job.flags[i] && i < |f.shdrs|
    requires Holds(out, SectionSpan(f, i))
    ensures Reads(out, f.phdrs, f.shdrs[i].addr, f.data[i])
  {
    var p := MovedHome(job, f, i);
    FinalDisjoint(job, f);
    LoadedSpan(out, f.phdrs, p, Span(f.shdrs[i].offset, f.data[i]), f.shdrs[i].addr);
  }

  /** Position `i` was not rewritten in place: a kept section covering it has the
      input's byte there. */
  ghost predicate Untouched(job: Job, w: Written, i: nat)
    requires |job.flags| == |job.img.shdrs| && w.shift <= i < w.shift + |w.original|
  {
    forall j: nat {:trigger InKept(job, j, i)} :: InKept(job, j, i) ==>
      j < |w.f.data| && i - job.img.shdrs[j].offset < |w.f.data[j]|
      && w.f.data[j][i - job.img.shdrs[j].offset] == w.original[i - w.shift]
  }

  /** No kept section covers the position. */
  ghost predicate InGap(job: Job, i: nat)
    requires |job.flags| == |job.img.shdrs|
  {
    !exists j: nat :: InKept(job, j, i)
  }

  /** Kept sections hold their final bytes at their places. */
  ghost predicate KeptSectionsHeld(job: Job, w: Written)
    requires |job.flags| == |job.img.shdrs|
  {
    forall j: nat, i: nat {:trigger InKept(job, j, i)} :: InKept(job, j, i) ==>
      && j < |w.f.data| && i - job.img.shdrs[j].offset < |w.f.data[j]| && i < |w.out|
      && w.out[i] == w.f.data[j][i - job.img.shdrs[j].offset]
  }

  /** Kept positions outside every kept section hold the input's bytes. */
  ghost predicate GapsHeld(job: Job, w: Written)
    requires |job.flags| == |job.img.shdrs|
  {
    forall i: nat {:trigger InGap(job, i)} ::
      job.lo <= i < job.hi && w.shift <= i < w.shift + |w.original| && InGap(job, i) ==>
      i < |w.out| && w.out[i] == w.original[i - w.shift]
  }

  ghost predicate KeptBytes(job: Job, w: Written)
    requires |job.flags| == |job.img.shdrs|
  {
    KeptSectionsHeld(job, w) && GapsHeld(job, w)
  }

  lemma OutputKeepsSections(job: Job, w: Written)
    requires FileReady(job) && Output(job, w)
    ensures KeptSectionsHeld(job, w)
  {
    forall j: nat, i: nat | InKept(job, j, i)
      ensures && j < |w.f.data| && i - job.img.shdrs[j].offset < |w.f.data[j]| && i < |w.out|
              && w.out[i] == w.f.data[j][i - job.img.shdrs[j].offset]
    {
      KeptSectionByte(job, w, j, i);
    }
  }

  lemma OutputKeepsGaps(job: Job, w: Written)
    requires FileReady(job) && Output(job, w)
    ensures GapsHeld(job, w)
  {
    forall i: nat | job.lo <= i < job.hi && w.shift <= i < w.shift + |w.original| && InGap(job, i)
      ensures i < |w.out| && w.out[i] == w.original[i - w.shift]
    {
      KeptGapByte(job, w, i);
    }
  }

  /** The output's kept range is the final sections over the input. */
  lemma OutputKeepsBytes(job: Job, w: Written)
    requires FileReady(job) && Output(job, w)
    ensures KeptBytes(job, w)
  {
    OutputKeepsSections(job, w);
    OutputKeepsGaps(job, w);
  }

  /** A position not rewritten in place holds the input's byte. */
  lemma UntouchedByte(job: Job, w: Written, i: nat)
    requires |job.flags| == |job.img.shdrs| && KeptBytes(job, w)
    requires job.lo <= i < job.hi && w.shift <= i < w.shift + |w.original| && Untouched(job, w, i)
    ensures i < |w.out| && w.out[i] == w.original[i - w.shift]
  {
    if j: nat :| InKept(job, j, i) {
      assert w.out[i] == w.f.data[j][i - job.img.shdrs[j].offset];
    } else {
      assert InGap(job, i);
    }
  }

  /** Where an address of a load lies in the file. */
  function FileIndex(p: Phdr, a: nat): nat
    requires InMemory(p, a)
  {
    p.offset + (a - p.vaddr)
  }

  /** Conditions under which a kept load's address must read the input's byte:
      outside the file header and every section rewritten in place. */
  ghost predicate KeptAddress(job: Job, w: Written, p: Phdr, a: nat)
    requires |job.flags| == |job.img.shdrs|
  {
    && job.hi <= w.shift + |w.original| && w.shift <= p.offset && p.offset + p.filesz <= job.hi
    && p in Loads(job.img.phdrs) && InMemory(p, a)
    && (a - p.vaddr < p.filesz ==> job.lo <= FileIndex(p, a) && Untouched(job, w, FileIndex(p, a)))
  }

  /** An address of a kept load reads the byte the input's load put there, unless
      its file position is in the file header or a section rewritten in place. */
  lemma KeptProgram(job: Job, w: Written, p: Phdr, a: nat)
    requires Settled(job, w) && KeptAddress(job, w, p, a)
    ensures MemAt(w.out, w.f.phdrs, a) == LoadByte(w.original, p.(offset := p.offset - w.shift), a)
  {
    if a - p.vaddr < p.filesz {
      UntouchedByte(job, w, FileIndex(p, a));
    }
    SameLoadByte(w, p, a);
    KeptLoadReads(job, w.f, w.out, p, a);
  }

  lemma SameLoadByte(w: Written, p: Phdr, a: nat)
    requires InMemory(p, a) && w.shift <= p.offset
    requires a - p.vaddr < p.filesz ==> w.shift <= FileIndex(p, a) < w.shift + |w.original|
    requires a - p.vaddr < p.filesz ==>
               FileIndex(p, a) < |w.out| && w.out[FileIndex(p, a)] == w.original[FileIndex(p, a) - w.shift]
    ensures LoadByte(w.out, p, a) == LoadByte(w.original, p.(offset := p.offset - w.shift), a)
  {
  }

  /** What the loader read there in the input. */
  lemma InputProgram(original: seq<byte>, phdrs: seq<Phdr>, p: Phdr, a: nat)
    requires MemoryDisjoint(Loads(phdrs)) && p in Loads(phdrs) && InMemory(p, a)
    ensures MemAt(original, phdrs, a) == LoadByte(original, p, a)
  {
    MemOf(original, Loads(phdrs), p, a);
  }

  /** A section rewritten in place is read with its new bytes at its old address. */
  lemma RewrittenInPlace(job: Job, w: Written, p: Phdr, a: nat, j: nat)
    requires Settled(job, w)
    requires p in Loads(job.img.phdrs) && InMemory(p, a) && a - p.vaddr < p.filesz && InKept(job, j, FileIndex(p, a))
    ensures j < |w.f.data| && FileIndex(p, a) - job.img.shdrs[j].offset < |w.f.data[j]|
    ensures MemAt(w.out, w.f.phdrs, a) == Some(w.f.data[j][FileIndex(p, a) - job.img.shdrs[j].offset])
  {
    KeptByteAt(job, w, j, FileIndex(p, a));
    KeptLoadReads(job, w.f, w.out, p, a);
    FileByte(w.out, p, a);
  }

  lemma KeptByteAt(job: Job, w: Written, j: nat, i: nat)
    requires |job.flags| == |job.img.shdrs| && KeptSectionsHeld(job, w) && InKept(job, j, i)
    ensures j < |w.f.data| && i - job.img.shdrs[j].offset < |w.f.data[j]| && i < |w.out|
    ensures w.out[i] == w.f.data[j][i - job.img.shdrs[j].offset]
  {
  }

  lemma FileByte(out: seq<byte>, p: Phdr, a: nat)
    requires InMemory(p, a) && a - p.vaddr < p.filesz && FileIndex(p, a) < |out|
    ensures LoadByte(out, p, a) == Some(out[FileIndex(p, a)])
  {
  }

  // ---- Address-valued dynamic tags ----

  /** The tags whose value is an address, by number. */
  function RebasedTags(): set<i64>
  {
    {3, 4, 5, 6, 7, 12, 13, 17, 23, 25, 26, 32, 36, 0x6fff_fef5, 0x6fff_fff0, 0x6fff_fffc, 0x6fff_fffe, 0x7000_0036}
  }

  lemma TagsRebased(tag: i64)
    ensures tag in MOVED_TAGS <==> tag in RebasedTags()
  {
  }

  /** Of the other tags only `DT_STRSZ` (10) and `DT_MIPS_RLD_MAP_REL` may change. */
  lemma OtherTagKept(job: Job, f: Image, j: nat)
    requires Yields(job, f) && NamesFixed(job.img) && j < |job.img.dynamic|
    requires job.img.dynamic[j].tag !in RebasedTags() && job.img.dynamic[j].tag !in {10, 0x7000_0035}
    ensures |f.dynamic| == |job.img.dynamic| && f.dynamic[j] == job.img.dynamic[j]
  {
    TagsRebased(job.img.dynamic[j].tag);
    FinalDynamicEntry(job, f, j);
  }

  /** A tag into a moved section is rebased at the same inner offset, where the
      section's bytes are; any other tag keeps its value. */
  lemma TagFollowsSection(job: Job, w: Written, j: nat)
    requires FileReady(job) && SegmentsReady(job) && MemSite(job) && NamesFixed(job.img)
    requires OldRangesDisjoint(job.img, job.g.region) && Output(job, w)
    requires j < |job.img.dynamic| && job.img.dynamic[j].tag in RebasedTags()
    ensures j < |w.f.dynamic| && w.f.dynamic[j].tag == job.img.dynamic[j].tag
    ensures Missed(job, job.img.dynamic[j].val) ==> w.f.dynamic[j].val == job.img.dynamic[j].val
    ensures forall k :: 0 <= k < |job.g.region.sections| && HitBy(job.img, job.g.region, job.img.dynamic[j].val, k) ==>
              var i := job.g.region.sections[k];
              && i < |w.f.shdrs| == |w.f.data|
              && w.f.dynamic[j].val == w.f.shdrs[i].addr + (job.img.dynamic[j].val - job.img.shdrs[i].addr)
              && Reads(w.out, w.f.phdrs, w.f.shdrs[i].addr, w.f.data[i])
  {
    var r, n, v := job.g.region, |job.g.region.sections|, job.img.dynamic[j].val;
    TagsRebased(job.img.dynamic[j].tag);
    FinalDynamicEntry(job, w.f, j);
    if Missed(job, v) {
      RebaseMiss(job.img, r, job.g.at.vaddr, n, v);
    }
    forall k | 0 <= k < n && HitBy(job.img, r, v, k)
      ensures var i := r.sections[k];
              && i < |w.f.shdrs| == |w.f.data|
              && w.f.dynamic[j].val == w.f.shdrs[i].addr + (v - job.img.shdrs[i].addr)
              && Reads(w.out, w.f.phdrs, w.f.shdrs[i].addr, w.f.data[i])
    {
      MovedShdr(job, k);
      FinalShdr(job, w.f, r.sections[k]);
      IndexOfDistinct(r.sections, k);
      RebaseHit(job.img, r, job.g.at.vaddr, n, v, k);
      MovedSectionReads(job, w, r.sections[k]);
    }
  }

  // ---- In terms of the input ----

  /** What the memory theorems need of a run: its output's bytes, its loads. */
  ghost predicate Settled(job: Job, w: Written)
  {
    && |job.flags| == |job.img.shdrs| && KeptBytes(job, w)
    && Yields(job, w.f) && SegmentsReady(job) && MemSite(job)
  }

  lemma OutputSettles(job: Job, w: Written)
    requires FileReady(job) && Output(job, w) && SegmentsReady(job) && MemSite(job)
    ensures Settled(job, w)
  {
    OutputKeepsBytes(job, w);
  }

  /** The run's image is `img` with every file offset moved up by the shift. */
  ghost predicate MovedUp(job: Job, w: Written, img: Image)
  {
    && |job.flags| == |img.shdrs|
    && job.img.phdrs == ShiftedPhdrs(img.phdrs, w.shift) && job.img.shdrs == ShiftedShdrs(img.shdrs, w.shift)
    && w.shift <= job.lo && job.hi <= w.shift + |w.original|
  }

  /** Input position `i` lies in the kept range and no kept section changes its byte. */
  ghost predicate Preserved(job: Job, w: Written, img: Image, i: nat)
    requires |job.flags| == |img.shdrs|
  {
    && job.lo <= i + w.shift && i < |w.original|
    && forall j: nat {:trigger Kept(img, job.flags, j)} ::
         Kept(img, job.flags, j) && img.shdrs[j].offset <= i < img.shdrs[j].offset + img.shdrs[j].size ==>
           j < |w.f.data| && i - img.shdrs[j].offset < |w.f.data[j]|
           && w.f.data[j][i - img.shdrs[j].offset] == w.original[i]
  }

  lemma PreservedUntouched(job: Job, w: Written, img: Image, i: nat)
    requires MovedUp(job, w, img) && Preserved(job, w, img, i)
    ensures |job.flags| == |job.img.shdrs| && Untouched(job, w, i + w.shift)
  {
    forall j: nat | InKept(job, j, i + w.shift)
      ensures j < |w.f.data| && i + w.shift - job.img.shdrs[j].offset < |w.f.data[j]|
      ensures w.f.data[j][i + w.shift - job.img.shdrs[j].offset] == w.original[i]
    {
      assert Kept(img, job.flags, j);
    }
  }

  /** A preserved input byte is found exactly `shift` higher in the output. */
  lemma PreservedByteMoves(job: Job, w: Written, img: Image, i: nat)
    requires MovedUp(job, w, img) && |job.flags| == |job.img.shdrs| && KeptBytes(job, w)
    requires Preserved(job, w, img, i) && i + w.shift < job.hi
    ensures i + w.shift < |w.out| && w.out[i + w.shift] == w.original[i]
  {
    PreservedUntouched(job, w, img, i);
    UntouchedByte(job, w, i + w.shift);
  }

  /** A preserved input address, as an address of the moved-up load. */
  lemma PreservedKept(job: Job, w: Written, img: Image, p: Phdr, a: nat)
    requires MovedUp(job, w, img) && SegmentsReady(job) && |job.flags| == |job.img.shdrs|
    requires p in Loads(img.phdrs) && InMemory(p, a)
    requires a - p.vaddr < p.filesz ==> Preserved(job, w, img, FileIndex(p, a))
    ensures KeptAddress(job, w, Shift.Up(p, w.shift), a)
  {
    var q := Shift.Up(p, w.shift);
    Shift.LoadsShifted(img.phdrs, w.shift);
    Shift.UpMember(Loads(img.phdrs), w.shift, p);
    KeptLoadBound(job, q);
    if a - p.vaddr < p.filesz {
      PreservedUntouched(job, w, img, FileIndex(p, a));
    }
  }

  /** An address of an input load whose file byte is preserved reads the same byte. */
  lemma PreservedAddressReads(job: Job, w: Written, img: Image, p: Phdr, a: nat)
    requires MovedUp(job, w, img) && Settled(job, w)
    requires p in Loads(img.phdrs) && InMemory(p, a)
    requires a - p.vaddr < p.filesz ==> Preserved(job, w, img, FileIndex(p, a))
    ensures MemAt(w.out, w.f.phdrs, a) == LoadByte(w.original, p, a)
  {
    var q := Shift.Up(p, w.shift);
    PreservedKept(job, w, img, p, a);
    KeptProgram(job, w, q, a);
    assert q.(offset := q.offset - w.shift) == p;
  }
}
