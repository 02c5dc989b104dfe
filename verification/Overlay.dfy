/** The padding byte of the append layout and the overlay test of the next run
    (src/layout.rs). */
module Overlay {
  import opened Bytes
  import opened Ir
  import opened Serialize
  import opened Layout
  import opened Shape
  import opened Placed
  import opened Verify
  import opened Accepted
  import opened Append
  import opened Memory
  import opened AppendTheorems
  import opened Parser
  import opened RoundTrip
  import opened Outcome

  /** The same run with the file cut right behind its region. */
  function Trimmed(job: Job): Job
  {
    job.(g := job.g.(total := job.g.at.off + job.g.region.len))
  }

  /** In the append layout the region is the end of everything but one byte. */
  ghost predicate RegionLast(job: Job)
  {
    && job.hi <= job.g.at.off && job.g.region.dataLen <= job.g.region.len && job.head <= job.g.region.dataLen
    && job.g.at.filesz == job.g.region.dataLen && job.g.total == job.g.at.off + job.g.region.len + 1
    && ShtEnd(job.img, job.g) <= job.g.at.off + job.head
    && (job.g.region.loads == 1 ==> job.g.region.dataLen == job.g.region.len)
  }

  lemma TrimmedReady(job: Job)
    requires FileReady(job) && MemSite(job) && RegionLast(job)
    ensures FileReady(Trimmed(job)) && MemSite(Trimmed(job))
  {
  }

  lemma TrimmedSegments(job: Job)
    requires SegmentsReady(job)
    ensures SegmentsReady(Trimmed(job))
  {
  }

  /** Where the file ends plays no part in what is pushed. */
  lemma TrimmedPushed(img: Image, g: Geometry, front: bool, total: nat)
    requires Arrangeable(img, g)
    ensures Pushed(img, g.(total := total), front) == Pushed(img, g, front)
    ensures PhdrVaddr(g.(total := total)) == PhdrVaddr(g)
  {
  }

  lemma TrimmedYields(job: Job, f: Image)
    requires Yields(job, f)
    ensures Yields(Trimmed(job), f)
  {
    TrimmedPushed(job.img, job.g, job.front, job.g.at.off + job.g.region.len);
    SameYields(job, Trimmed(job), f);
  }

  lemma SameYields(a: Job, b: Job, f: Image)
    requires Yields(a, f) && b.img == a.img && b.note == a.note && b.g.region == a.g.region && b.g.at == a.g.at
    requires Arrangeable(b.img, b.g) && Pushed(b.img, b.g, b.front) == Pushed(a.img, a.g, a.front)
    requires PhdrVaddr(b.g) == PhdrVaddr(a.g)
    ensures Yields(b, f)
  {
  }

  /** Everything the final headers describe ends with the region at the latest. */
  lemma DescribedInRegion(job: Job, f: Image)
    requires FileReady(job) && Yields(job, f) && SegmentsReady(job) && MemSite(job) && NamesFixed(job.img)
             && RegionLast(job)
    ensures FileBounds(f, job.g.at.off + job.g.region.len)
  {
    TrimmedReady(job);
    TrimmedYields(job, f);
    TrimmedSegments(job);
    FinalFileBounds(Trimmed(job), f);
  }

  lemma {:induction false} LastPhdrAtMost(phdrs: seq<Phdr>, from: nat, t: nat)
    requires from <= t && forall p :: p in phdrs ==> p.offset + p.filesz <= t
    ensures LastPhdrByte(phdrs, from) <= t
  {
    if phdrs != [] {
      LastPhdrAtMost(phdrs[..|phdrs| - 1], from, t);
    }
  }

  lemma {:induction false} LastShdrAtMost(shdrs: seq<Shdr>, from: nat, t: nat)
    requires from <= t && forall s :: s in shdrs && s.shtype != SHT_NOBITS ==> s.offset + s.size <= t
    ensures LastShdrByte(shdrs, from) <= t
  {
    if shdrs != [] {
      LastShdrAtMost(shdrs[..|shdrs| - 1], from, t);
    }
  }

  lemma EndIs(f: Image, t: nat, p: Phdr)
    requires f.ehdr.phoff + |f.phdrs| * f.ehdr.phentsize <= t && f.ehdr.shoff + |f.shdrs| * f.ehdr.shentsize <= t
    requires forall q :: q in f.phdrs ==> q.offset + q.filesz <= t
    requires forall s :: s in f.shdrs && s.shtype != SHT_NOBITS ==> s.offset + s.size <= t
    requires p in f.phdrs && p.offset + p.filesz == t
    ensures DescribedEnd(f) == t
  {
    var pht, sht := f.ehdr.phoff + |f.phdrs| * f.ehdr.phentsize, f.ehdr.shoff + |f.shdrs| * f.ehdr.shentsize;
    LastShdrAtMost(f.shdrs, if pht < sht then sht else pht, t);
    LastPhdrAtMost(f.phdrs, LastShdrByte(f.shdrs, if pht < sht then sht else pht), t);
  }

  /** The described end is where the region ends: one of its loads ends there. */
  lemma DescribedEndIs(job: Job, f: Image)
    requires FileReady(job) && Yields(job, f) && SegmentsReady(job) && MemSite(job) && NamesFixed(job.img)
             && RegionLast(job)
    ensures DescribedEnd(f) == job.g.at.off + job.g.region.len
  {
    DescribedInRegion(job, f);
    TablesEnd(job, f);
    var p := LastLoadEnds(job, f);
    EndIs(f, job.g.at.off + job.g.region.len, p);
  }

  lemma TablesEnd(job: Job, f: Image)
    requires FileReady(job) && Yields(job, f) && RegionLast(job)
    ensures f.ehdr.phoff + |f.phdrs| * f.ehdr.phentsize <= job.g.at.off + job.g.region.len
    ensures f.ehdr.shoff + |f.shdrs| * f.ehdr.shentsize <= job.g.at.off + job.g.region.len
  {
    FinalFields(job.img, job.g, job.note, job.front, f);
  }

  lemma LastLoadEnds(job: Job, f: Image) returns (p: Phdr)
    requires FileReady(job) && Yields(job, f) && SegmentsReady(job) && RegionLast(job)
    ensures p in f.phdrs && p.offset + p.filesz == job.g.at.off + job.g.region.len
  {
    var news := NewLoads(job.g.region, job.g.at);
    p := news[|news| - 1];
    assert p in news;
    JoinedMembers(job, f);
    LoadsMembers(f.phdrs, p);
  }

  lemma PadPastTables(job: Job, headers: seq<Span>, s: Span)
    requires FileReady(job) && TablesAt(job, headers) && RegionLast(job) && s in headers
    ensures !s.Covers(job.g.at.off + job.g.region.len)
  {
    assert s == headers[0] || s == headers[1] || s == headers[2];
  }

  lemma PadPastSections(job: Job, f: Image, i: nat)
    requires FileReady(job) && Yields(job, f) && RegionLast(job) && i < |job.img.shdrs|
    ensures WellShaped(f) && i < |f.shdrs| && !SectionSpan(f, i).Covers(job.g.at.off + job.g.region.len)
  {
    SpanBounds(job, f, i);
  }

  /** The byte behind the region is in no header, table or section. */
  lemma PadUncovered(job: Job, w: Written, s: Span)
    requires FileReady(job) && Yields(job, w.f) && WellShaped(w.f) && TablesAt(job, w.headers) && RegionLast(job)
    requires s in w.headers + SectionSpans(w.f)
    ensures !s.Covers(job.g.at.off + job.g.region.len)
  {
    if s in w.headers {
      PadPastTables(job, w.headers, s);
    } else {
      var i :| 0 <= i < |SectionSpans(w.f)| && SectionSpans(w.f)[i] == s;
      FinalFields(job.img, job.g, job.note, job.front, w.f);
      PadPastSections(job, w.f, i);
    }
  }

  /** The padding byte is what the input has there, and zero past its end. */
  lemma PadByte(job: Job, w: Written, end: nat)
    requires FileReady(job) && Output(job, w) && RegionLast(job) && end == job.g.at.off + job.g.region.len
    ensures |w.out| == end + 1 && w.out[end] == Backdrop(w.original, w.shift, end)
  {
    forall s | s in w.headers + SectionSpans(w.f)
      ensures !s.Covers(end)
    {
      PadUncovered(job, w, s);
    }
    assert !Covered(w.headers + SectionSpans(w.f), end);
  }

  lemma AppendRegionLast(img: Image, flags: seq<bool>, cut: nat, page: nat)
    requires AppendReady(img, flags, cut, page)
    ensures RegionLast(AppendJob(img, flags, cut, page))
  {
    var job := AppendJob(img, flags, cut, page);
    AppendRegionOk(img, flags, cut, page);
    AppendOffsetFacts(img, cut, page);
    AppendTables(img, job.g);
  }

  /** Where the appended region will end: a caller knows it before the run. */
  function RegionEnd(img: Image, flags: seq<bool>, cut: nat, page: nat): nat
    requires WellShaped(img) && |flags| == |img.shdrs|
  {
    AppendOffset(img, cut, page) + AppendRegion(img, flags, page).len
  }

  lemma AppendDescribed(img: Image, flags: seq<bool>, cut: nat, page: nat, f: Image)
    requires AppendReady(img, flags, cut, page) && Appended(img, flags, cut, page) == Ok(f)
    ensures DescribedEnd(f) == RegionEnd(img, flags, cut, page)
  {
    AppendIsReady(img, flags, cut, page);
    AppendedYields(img, flags, cut, page);
    AppendRegionLast(img, flags, cut, page);
    DescribedEndIs(AppendJob(img, flags, cut, page), f);
  }

  lemma RegionEnds(img: Image, flags: seq<bool>, cut: nat, page: nat)
    requires WellShaped(img) && |flags| == |img.shdrs|
    ensures var g := AppendJob(img, flags, cut, page).g; g.at.off + g.region.len == RegionEnd(img, flags, cut, page)
  {
  }

  lemma AppendPad(img: Image, flags: seq<bool>, cut: nat, page: nat, original: seq<byte>, f: Image, out: seq<byte>)
    requires Appends(img, flags, cut, page, original, f, out)
    ensures var end := RegionEnd(img, flags, cut, page); |out| == end + 1 && out[end] == Backdrop(original, 0, end)
  {
    var job, w := AppendOutput(img, flags, cut, page, original, f, out);
    AppendRegionLast(img, flags, cut, page);
    RegionEnds(img, flags, cut, page);
    PadByte(job, w, RegionEnd(img, flags, cut, page));
  }

  /** An appended file is one byte longer than what it describes; that byte is the input's. */
  lemma AppendEnd(img: Image, flags: seq<bool>, cut: nat, page: nat, original: seq<byte>, f: Image, out: seq<byte>)
    requires Appends(img, flags, cut, page, original, f, out)
    ensures |out| == DescribedEnd(f) + 1 && out[|out| - 1] == Backdrop(original, 0, |out| - 1)
  {
    AppendDescribed(img, flags, cut, page, f);
    AppendPad(img, flags, cut, page, original, f, out);
  }

  lemma SameEnd(f: Image)
    ensures DescribedEnd(Reparsed(f)) == DescribedEnd(f)
  {
  }

  /** An appended file has an overlay in the eyes of the next run exactly when the
      new region ends before the input does and the input has a non-zero byte there,
      which becomes the padding byte. */
  lemma AppendOverlay(img: Image, flags: seq<bool>, cut: nat, page: nat, original: seq<byte>, f: Image, out: seq<byte>)
    requires Appends(img, flags, cut, page, original, f, out) && ParserShaped(img) && PlainCounts(f)
    ensures var end := RegionEnd(img, flags, cut, page);
            HasOverlay(out) == Ok(end < |original| && original[end] != 0)
  {
    AppendEnd(img, flags, cut, page, original, f, out);
    AppendParses(img, flags, cut, page, original, f, out);
    SameEnd(f);
    OverlayIsLast(out, original, Reparsed(f));
    AppendPad(img, flags, cut, page, original, f, out);
  }

  lemma OverlayIsLast(out: seq<byte>, original: seq<byte>, f: Image)
    requires Parse(out) == Ok(f) && |out| == DescribedEnd(f) + 1
    requires out[|out| - 1] == Backdrop(original, 0, |out| - 1)
    ensures HasOverlay(out) == Ok(|out| - 1 < |original| && original[|out| - 1] != 0)
  {
    OnlyLast(out, DescribedEnd(f));
  }

  lemma OnlyLast(out: seq<byte>, end: nat)
    requires |out| == end + 1
    ensures NonZeroFrom(out, end) <==> out[end] != 0
  {
  }

  /** Without reclaiming the padding byte lies past the input, so no overlay appears. */
  lemma AppendKeepsAppending(img: Image, flags: seq<bool>, page: nat, original: seq<byte>, f: Image, out: seq<byte>)
    requires Appends(img, flags, |original|, page, original, f, out) && ParserShaped(img) && PlainCounts(f)
    ensures HasOverlay(out) == Ok(false)
  {
    AppendOverlay(img, flags, |original|, page, original, f, out);
    AppendOffsetFacts(img, |original|, page);
    var job, w := AppendOutput(img, flags, |original|, page, original, f, out);
    AppendRegionLast(img, flags, |original|, page);
  }
}
