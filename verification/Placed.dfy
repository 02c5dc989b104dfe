/** When a layout's pieces collide with nothing: the file side of both layouts. */
module Placed {
  import opened Bytes
  import opened Ir
  import opened Codec
  import opened Serialize
  import opened Layout
  import opened RegionFacts
  import opened Shape

  /** One layout run: the image with its tables' offsets set, where its region
      goes, the ld-cache note's segment, whether the region goes in front, which
      sections move, the header room at the region's start, and the range of the
      output file that kept sections occupy. */
  datatype Job = Job(
    img: Image, g: Geometry, note: Option<nat>, front: bool, flags: seq<bool>, head: nat, lo: nat, hi: nat)

  /** `f` is the final image of the run. */
  ghost predicate Yields(job: Job, f: Image)
  {
    ArrangedFrom(job.img, job.g, job.note, job.front, f)
  }

  /** A section with file bytes that stays where it is. */
  ghost predicate Kept(img: Image, flags: seq<bool>, i: nat)
    requires |flags| == |img.shdrs|
  {
    i < |img.shdrs| && !flags[i] && img.shdrs[i].shtype != SHT_NOBITS
  }

  predicate RangesApart(s: Shdr, t: Shdr)
  {
    s.size == 0 || t.size == 0 || s.offset + s.size <= t.offset || t.offset + t.size <= s.offset
  }

  /** Kept sections have their final size, lie in `[lo, hi)` of the output file,
      and do not overlap each other. */
  ghost predicate KeptSections(img: Image, flags: seq<bool>, lo: nat, hi: nat)
    requires WellShaped(img) && |flags| == |img.shdrs|
  {
    && (forall i :: 0 <= i < |flags| && flags[i] ==> img.shdrs[i].shtype != SHT_NOBITS)
    && (forall i: nat :: Kept(img, flags, i) ==>
          && SectionLen(img, i) == img.shdrs[i].size
          && img.shdrs[i].offset + img.shdrs[i].size <= hi
          && (img.shdrs[i].size > 0 ==> lo <= img.shdrs[i].offset))
    && (forall i: nat, j: nat :: i < j && Kept(img, flags, i) && Kept(img, flags, j) ==>
        RangesApart(img.shdrs[i], img.shdrs[j]))
  }

  /** The header sizes the file header announces are those of its class. */
  predicate ClassSizes(img: Image)
  {
    && img.ehdr.ehsize == EhdrSize(img.enc.class_)
    && img.ehdr.phentsize == PhdrSize(img.enc.class_)
    && img.ehdr.shentsize == ShdrSize(img.enc.class_)
  }

  function NewPhnum(img: Image, g: Geometry): nat
    requires g.region.dataLen <= g.region.len
  {
    |img.phdrs| + |NewLoads(g.region, g.at)|
  }

  function PhtEnd(img: Image, g: Geometry): nat
    requires g.region.dataLen <= g.region.len
  {
    g.phoff + NewPhnum(img, g) * PhdrSize(img.enc.class_)
  }

  function ShtEnd(img: Image, g: Geometry): nat
  {
    g.shoff + |img.shdrs| * ShdrSize(img.enc.class_)
  }

  /** Kept bytes, header tables and region share no file position, and all fit
      in the file. `head` is the room for headers at the region's start. */
  ghost predicate FileSite(img: Image, g: Geometry, head: nat, lo: nat, hi: nat)
  {
    && g.region.dataLen <= g.region.len
    && img.ehdr.phoff == g.phoff && img.ehdr.shoff == g.shoff
    && EhdrSize(img.enc.class_) <= lo
    && EhdrSize(img.enc.class_) <= g.phoff
    && g.at.off <= g.phoff && PhtEnd(img, g) <= g.at.off + head
    && (hi <= g.at.off || g.at.off + g.region.len <= lo)
    && ((PhtEnd(img, g) <= g.shoff && ShtEnd(img, g) <= g.at.off + head)
        || (hi <= g.shoff && g.at.off + g.region.len <= g.shoff))
    && hi <= g.total && g.at.off + g.region.len <= g.total && ShtEnd(img, g) <= g.total
  }

  /** Everything about the file side that a final image needs. */
  ghost predicate FileReady(job: Job)
  {
    && WellShaped(job.img) && |job.flags| == |job.img.shdrs|
    && RegionOk(job.img, job.g.region, job.flags, job.head, job.g.at.page)
    && KeptSections(job.img, job.flags, job.lo, job.hi)
    && ClassSizes(job.img)
    && FileSite(job.img, job.g, job.head, job.lo, job.hi)
  }

  lemma MovedShdr(job: Job, k: nat)
    requires |job.flags| == |job.img.shdrs| && RegionOk(job.img, job.g.region, job.flags, job.head, job.g.at.page)
             && k < |job.g.region.sections|
    ensures var i, rel := job.g.region.sections[k], job.g.region.offsets[k];
            && job.flags[i]
            && PlacedShdr(job.img, job.g.region, job.g.at.off, job.g.at.vaddr, i)
               == job.img.shdrs[i].(offset := job.g.at.off + rel, addr := job.g.at.vaddr + rel,
                                    size := SectionLen(job.img, i))
            && job.head <= rel && RelEnd(job.img, job.g.region, k) <= job.g.region.len
  {
    IndexOfDistinct(job.g.region.sections, k);
    assert job.g.region.sections[k] in job.g.region.sections;
    assert SectionPlaced(job.img, job.g.region, k, job.head);
  }

  lemma KeptShdr(job: Job, i: nat)
    requires |job.flags| == |job.img.shdrs| && RegionOk(job.img, job.g.region, job.flags, job.head, job.g.at.page)
             && i < |job.img.shdrs| && !job.flags[i]
    ensures PlacedShdr(job.img, job.g.region, job.g.at.off, job.g.at.vaddr, i) == job.img.shdrs[i]
  {
  }

  /** The final image's sections have the sizes their headers state. */
  lemma FinalSizes(job: Job, f: Image)
    requires FileReady(job) && Yields(job, f)
    ensures WellShaped(f) && SizesMatch(f)
  {
    FinalFields(job.img, job.g, job.note, job.front, f);
    forall i | 0 <= i < |f.shdrs| && f.shdrs[i].shtype != SHT_NOBITS
      ensures |f.data[i]| == f.shdrs[i].size
    {
      if job.flags[i] {
        var k := IndexOf(job.g.region.sections, i);
        MovedShdr(job, k);
      } else {
        KeptShdr(job, i);
        assert Kept(job.img, job.flags, i);
      }
      if job.img.DynIdx() == Some(i) {
        FinalDynamicData(job.img, job.g, job.note, job.front, f, i);
      }
    }
  }

  /** A moved section's span lies in the region past the header space; a kept
      one's in the kept range. */
  lemma SpanBounds(job: Job, f: Image, i: nat)
    requires FileReady(job) && Yields(job, f)
    requires i < |job.img.shdrs|
    ensures WellShaped(f) && i < |f.shdrs|
    ensures var s := SectionSpan(f, i);
            if job.flags[i] then
              && i in job.g.region.sections
              && var k := IndexOf(job.g.region.sections, i);
              && s.at == job.g.at.off + job.g.region.offsets[k]
              && s.End() == job.g.at.off + RelEnd(job.img, job.g.region, k)
              && job.g.at.off + job.head <= s.at && s.End() <= job.g.at.off + job.g.region.len
            else if job.img.shdrs[i].shtype == SHT_NOBITS then s.bytes == []
            else
              && s.at == job.img.shdrs[i].offset && s.End() == s.at + job.img.shdrs[i].size && s.End() <= job.hi
              && (s.bytes != [] ==> job.lo <= s.at)
  {
    FinalFields(job.img, job.g, job.note, job.front, f);
    FinalSizes(job, f);
    if job.flags[i] {
      MovedShdr(job, IndexOf(job.g.region.sections, i));
    } else {
      KeptShdr(job, i);
      if job.img.shdrs[i].shtype != SHT_NOBITS {
        assert Kept(job.img, job.flags, i);
      }
    }
  }

  lemma SectionsApart(job: Job, f: Image, i: nat, j: nat)
    requires FileReady(job) && Yields(job, f)
    requires i < j < |job.img.shdrs|
    ensures WellShaped(f) && j < |f.shdrs| && Apart(SectionSpan(f, i), SectionSpan(f, j))
  {
    SpanBounds(job, f, i);
    SpanBounds(job, f, j);
    if job.flags[i] && job.flags[j] {
      var k, l := IndexOf(job.g.region.sections, i), IndexOf(job.g.region.sections, j);
      assert k < l ==> RelEnd(job.img, job.g.region, k) <= job.g.region.offsets[l];
      assert l < k ==> RelEnd(job.img, job.g.region, l) <= job.g.region.offsets[k];
    } else if Kept(job.img, job.flags, i) && Kept(job.img, job.flags, j) {
      assert RangesApart(job.img.shdrs[i], job.img.shdrs[j]);
    }
  }

  /** The encoded tables have the lengths the layout reserved. */
  lemma HeaderLengths(f: Image)
    requires WellShaped(f) && Headers(f).Ok?
    ensures var h := Headers(f).value;
            && h[0].at == 0 && h[0].End() == EhdrSize(f.enc.class_)
            && h[1].at == f.ehdr.phoff && h[1].End() == f.ehdr.phoff + |f.phdrs| * PhdrSize(f.enc.class_)
            && h[2].at == f.ehdr.shoff && h[2].End() == f.ehdr.shoff + |f.shdrs| * ShdrSize(f.enc.class_)
  {
    ConcatLength(WrittenPhdrs(f.enc, f.phdrs), PhdrSize(f.enc.class_));
    ConcatLength(WrittenShdrs(f.enc, f.shdrs), ShdrSize(f.enc.class_));
  }

  /** The header blocks lie where the layout put the tables. */
  ghost predicate TablesAt(job: Job, h: seq<Span>)
    requires job.g.region.dataLen <= job.g.region.len
  {
    && |h| == 3
    && h[0].at == 0 && h[0].End() == EhdrSize(job.img.enc.class_)
    && h[1].at == job.g.phoff && h[1].End() == PhtEnd(job.img, job.g)
    && h[2].at == job.g.shoff && h[2].End() == ShtEnd(job.img, job.g)
  }

  lemma FinalTables(job: Job, f: Image)
    requires FileReady(job) && Yields(job, f)
    requires WellShaped(f) && Headers(f).Ok?
    ensures TablesAt(job, Headers(f).value)
  {
    FinalFields(job.img, job.g, job.note, job.front, f);
    HeaderLengths(f);
  }

  lemma FinalSections(job: Job, f: Image, h: seq<Span>)
    requires FileReady(job) && Yields(job, f)
    requires WellShaped(f) && TablesAt(job, h)
    ensures PairwiseApart(SectionSpans(f))
    ensures forall x, i :: 0 <= x < |h| && 0 <= i < |SectionSpans(f)| ==> Apart(h[x], SectionSpans(f)[i])
    ensures forall s :: s in SectionSpans(f) ==> s.End() <= job.g.total
  {
    FinalFields(job.img, job.g, job.note, job.front, f);
    var sections := SectionSpans(f);
    forall x, i | 0 <= x < |h| && 0 <= i < |sections|
      ensures Apart(h[x], sections[i])
    {
      SpanBounds(job, f, i);
      assert x == 0 || x == 1 || x == 2;
    }
    forall i | 0 <= i < |sections|
      ensures sections[i].End() <= job.g.total
    {
      SpanBounds(job, f, i);
    }
    forall i, j | 0 <= i < j < |sections|
      ensures Apart(sections[i], sections[j])
    {
      SectionsApart(job, f, i, j);
    }
  }

  /** No two regions of a final image touch, and all are inside the file. */
  lemma FinalRegions(job: Job, f: Image)
    requires FileReady(job) && Yields(job, f)
    requires WellShaped(f) && Headers(f).Ok?
    ensures PairwiseApart(Regions(f)) && Inside(Regions(f), job.g.total)
  {
    FinalTables(job, f);
    RegionsFromParts(job, f, Headers(f).value);
  }

  lemma RegionsFromParts(job: Job, f: Image, h: seq<Span>)
    requires FileReady(job) && Yields(job, f)
    requires WellShaped(f) && TablesAt(job, h)
    ensures PairwiseApart(h + SectionSpans(f)) && Inside(h + SectionSpans(f), job.g.total)
  {
    HeadersApart(job, h);
    FinalSections(job, f, h);
    ConcatApart(h, SectionSpans(f));
    assert forall s :: s in h ==> s == h[0] || s == h[1] || s == h[2];
  }

  lemma HeadersApart(job: Job, h: seq<Span>)
    requires FileReady(job) && TablesAt(job, h)
    ensures PairwiseApart(h)
    ensures forall x :: 0 <= x < 3 ==> h[x].End() <= job.g.total
  {
    assert Apart(h[0], h[1]) && Apart(h[0], h[2]) && Apart(h[1], h[2]);
    forall x, y | 0 <= x < y < |h|
      ensures Apart(h[x], h[y])
    {
      assert x == 0 || x == 1;
    }
  }

  lemma ConcatApart(a: seq<Span>, b: seq<Span>)
    requires PairwiseApart(a) && PairwiseApart(b)
    requires forall x, i :: 0 <= x < |a| && 0 <= i < |b| ==> Apart(a[x], b[i])
    ensures PairwiseApart(a + b)
  {
    var s := a + b;
    forall x, y | 0 <= x < y < |s|
      ensures Apart(s[x], s[y])
    {
      if y < |a| {
      } else if x < |a| {
        assert s[y] == b[y - |a|];
      } else {
        assert s[x] == b[x - |a|] && s[y] == b[y - |a|];
      }
    }
  }

  /** The writer cannot fail on a final image whose headers encode; what it
      writes holds every header and section, and the input everywhere else. */
  lemma FinalWrites(job: Job, f: Image, original: seq<byte>, shift: nat)
    requires FileReady(job) && Yields(job, f)
    ensures WellShaped(f)
    ensures WriteSpec(f, original, shift, job.g.total).Ok? <==> Headers(f).Ok?
    ensures Headers(f).Ok? ==> Rendered(WriteSpec(f, original, shift, job.g.total).value, Regions(f), original, shift)
  {
    FinalSizes(job, f);
    if Headers(f).Ok? {
      FinalRegions(job, f);
      WriteRegions(f, original, shift, job.g.total);
    }
  }
}
