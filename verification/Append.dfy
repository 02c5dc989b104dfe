/** The append layout (`relayout` in src/layout.rs): its arithmetic puts the new
    region clear of everything, so its final image is accepted and writable. */
module Append {
  import opened Ir
  import opened Codec
  import opened Align
  import opened Serialize
  import opened Layout
  import opened RegionFacts
  import opened Shape
  import opened Placed
  import opened Segments
  import opened Verify
  import opened Accepted
  import opened Dynamic

  /** What any layout needs of its input, whatever place the region gets, but for
      where the ld-cache note's segment stands. */
  ghost predicate InputSound(job: Job)
  {
    && WellShaped(job.img) && |job.flags| == |job.img.shdrs|
    && KeptSections(job.img, job.flags, job.lo, job.hi)
    && ClassSizes(job.img) && NamesFixed(job.img)
    && SegmentsBounded(job)
    && (forall p :: p in job.img.phdrs ==> ValidAlign(p.align))
    && (forall p :: p in Loads(job.img.phdrs) ==> LoadOk(p))
    && MemoryDisjoint(Loads(job.img.phdrs))
    && SectionLinks(job.img) && InterpReady(job) && EntryReady(job) && DynReady(job)
  }

  ghost predicate InputReady(job: Job)
  {
    InputSound(job) && NoteReady(job)
  }

  /** The append layout of `img` as a run: kept content ends at `cut`. */
  function AppendJob(img: Image, flags: seq<bool>, cut: nat, page: nat): Job
    requires WellShaped(img) && |flags| == |img.shdrs|
  {
    var g := AppendGeometry(img, flags, cut, page);
    Job(WithTables(img, g), g, LdcacheNote(img), false, flags,
        AppendPhtSize(img, g.region.loads) + ShtSize(img), EhdrSize(img.enc.class_), cut)
  }

  /** The conditions on the input under which appending is sound: kept content
      before `cut`, the base address aligned, and the lowest-offset load at the
      base, so that `base + offset` is the address of any file offset. */
  ghost predicate AppendReady(img: Image, flags: seq<bool>, cut: nat, page: nat)
  {
    && WellShaped(img) && |flags| == |img.shdrs|
    && PowerOfTwo(page)
    && EhdrSize(img.enc.class_) <= cut
    && var loads := Loads(img.phdrs);
    && loads != []
    && MinVaddr(loads) % MaxAlign(img.phdrs, page) == 0
    && (FindPhdr(img.phdrs, PT_PHDR).Some? ==> MinOffset(loads).vaddr == MinVaddr(loads) + MinOffset(loads).offset)
    && InputReady(AppendJob(img, flags, cut, page))
  }

  /** The region goes to the first aligned offset that is past the kept content and whose
      address is past every segment. */
  lemma AppendOffsetLeast(img: Image, cut: nat, page: nat, base: nat, align: nat, o: nat)
    requires page > 0 && base == BaseVaddr(Loads(img.phdrs)) && align == MaxAlign(img.phdrs, page) && base % align == 0
    ensures var off := AppendOffset(img, cut, page);
            && off % align == 0 && cut <= off && MaxEnd(img.phdrs) <= base + off
            && (o % align == 0 && cut <= o && MaxEnd(img.phdrs) <= base + o ==> off <= o)
  {
    var end := MaxEnd(img.phdrs);
    RoundUpFacts(end, align);
    RoundUpFacts(Max(cut, if RoundUp(end, align) < base then 0 else RoundUp(end, align) - base), align);
    if o % align == 0 && cut <= o && end <= base + o {
      DividesBoth(base, o, align);
      RoundUpLeast(end, align, base + o);
      RoundUpLeast(Max(cut, if RoundUp(end, align) < base then 0 else RoundUp(end, align) - base), align, o);
    }
  }

  lemma DividesBoth(a: nat, b: nat, d: nat)
    requires d > 0 && a % d == 0 && b % d == 0
    ensures (a + b) % d == 0
  {
    DivModFacts(a, d);
    DivModFacts(b, d);
    ModOfMultiple(a / d + b / d, d);
    assert a + b == (a / d + b / d) * d;
  }

  lemma RoundUpLeast(v: nat, align: nat, o: nat)
    requires align > 0 && o % align == 0 && v <= o
    ensures RoundUp(v, align) <= o
  {
    RoundUpFacts(v, align);
    if o < RoundUp(v, align) {
      DivModFacts(o, align);
      DivModFacts(RoundUp(v, align), align);
      var i, j := o / align, RoundUp(v, align) / align;
      if i < j {
        MulMono(i + 1, j, align);
      } else {
        MulMono(j, i, align);
      }
    }
  }

  // ---- Arithmetic ----

  lemma {:induction false} MaxAlignPower(phdrs: seq<Phdr>, page: nat)
    requires PowerOfTwo(page) && forall p :: p in phdrs ==> ValidAlign(p.align)
    ensures PowerOfTwo(MaxAlign(phdrs, page)) && MaxAlign(phdrs, page) % page == 0
  {
    if phdrs != [] {
      var init, q := phdrs[..|phdrs| - 1], phdrs[|phdrs| - 1];
      MaxAlignPower(init, page);
      assert q in phdrs;
      MaxPower(MaxAlign(init, page), q.align);
      DividesTrans(page, MaxAlign(init, page), MaxAlign(phdrs, page));
    } else {
      PowersDivide(page, page);
    }
  }

  lemma {:induction false} MaxEndBounds(phdrs: seq<Phdr>, p: Phdr)
    requires p in phdrs
    ensures p.vaddr + p.memsz <= MaxEnd(phdrs)
  {
    var init := phdrs[..|phdrs| - 1];
    if p in init {
      MaxEndBounds(init, p);
    } else {
      assert p == phdrs[|phdrs| - 1];
    }
  }

  lemma {:induction false} MinVaddrBounds(loads: seq<Phdr>, p: Phdr)
    requires p in loads
    ensures MinVaddr(loads) <= p.vaddr
  {
    if |loads| > 1 {
      var init := loads[..|loads| - 1];
      if p in init {
        MinVaddrBounds(init, p);
      } else {
        assert p == loads[|loads| - 1];
      }
    }
  }

  /** Sections that differ at most in file offset plan the same region. */
  ghost predicate SameSections(a: Image, b: Image)
  {
    && a.enc == b.enc && a.dynamic == b.dynamic && a.data == b.data && |a.shdrs| == |b.shdrs|
    && forall i :: 0 <= i < |a.shdrs| ==> a.shdrs[i] == b.shdrs[i].(offset := a.shdrs[i].offset)
  }

  lemma SameSectionLen(a: Image, b: Image, i: nat)
    requires SameSections(a, b) && WellShaped(a) && WellShaped(b) && i < |a.shdrs|
    ensures SectionLen(a, i) == SectionLen(b, i)
    ensures SecAlign(a, i) == SecAlign(b, i)
  {
    SameDynIdx(a, b);
  }

  lemma SameRegionOk(a: Image, b: Image, r: Region, flags: seq<bool>, head: nat, page: nat)
    requires SameSections(a, b) && WellShaped(b) && |flags| == |a.shdrs|
    requires RegionOk(a, r, flags, head, page)
    ensures RegionOk(b, r, flags, head, page)
  {
    forall k | 0 <= k < |r.sections|
      ensures SectionPlaced(b, r, k, head) && RelEnd(b, r, k) == RelEnd(a, r, k)
    {
      assert SectionPlaced(a, r, k, head);
      SameSectionLen(a, b, r.sections[k]);
    }
  }

  lemma WithTablesRegionOk(img: Image, g: Geometry, r: Region, flags: seq<bool>, head: nat, page: nat)
    requires |flags| == |img.shdrs| && RegionOk(img, r, flags, head, page)
    ensures RegionOk(WithTables(img, g), r, flags, head, page)
  {
    SameRegionOk(img, WithTables(img, g), r, flags, head, page);
  }

  /** What the append arithmetic fixes about a geometry, its region aside. */
  ghost predicate AppendShaped(img: Image, g: Geometry, cut: nat, page: nat)
  {
    var off := AppendOffset(img, cut, page);
    && g.region.dataLen <= g.region.len && (g.region.loads == 1 || g.region.loads == 2)
    && g.at == Site(off, BaseVaddr(Loads(img.phdrs)) + off, g.region.dataLen, MaxAlign(img.phdrs, page), page)
    && g.phoff == off && g.shoff == off + AppendPhtSize(img, g.region.loads)
    && g.total == off + g.region.len + 1
    && AppendPhtSize(img, g.region.loads) + ShtSize(img) <= g.region.dataLen
  }

  lemma AppendRegionOk(img: Image, flags: seq<bool>, cut: nat, page: nat)
    requires WellShaped(img) && |flags| == |img.shdrs|
    ensures var job := AppendJob(img, flags, cut, page);
            && RegionOk(job.img, job.g.region, flags, job.head, page)
            && AppendShaped(img, job.g, cut, page)
            && job.img == WithTables(img, job.g)
            && job.head == AppendPhtSize(img, job.g.region.loads) + ShtSize(img)
  {
    var job := AppendJob(img, flags, cut, page);
    AppendJobPlan(img, flags, cut, page);
    AppendIsShaped(img, flags, cut, page);
  }

  lemma AppendJobPlan(img: Image, flags: seq<bool>, cut: nat, page: nat)
    requires WellShaped(img) && |flags| == |img.shdrs|
    ensures var job := AppendJob(img, flags, cut, page); RegionOk(job.img, job.g.region, flags, job.head, page)
  {
    var head: nat -> nat := n => AppendPhtSize(img, n) + ShtSize(img);
    var job := AppendJob(img, flags, cut, page);
    HeadPlan(img, flags, page, head);
    assert job.head == head(job.g.region.loads);
    JobRegionOk(img, img, flags, head, page, job);
  }

  lemma HeadPlan(img: Image, flags: seq<bool>, page: nat, head: nat -> nat)
    requires WellShaped(img) && |flags| == |img.shdrs|
    requires forall n: nat :: head(n) == AppendPhtSize(img, n) + ShtSize(img)
    ensures AppendRegion(img, flags, page) == Plan(img, flags, head(1), head(2), page)
  {
  }

  /** What holds of a layout's input, region and site is all it needs. */
  lemma ReadyFrom(job: Job)
    requires InputReady(job) && RegionOk(job.img, job.g.region, job.flags, job.head, job.g.at.page)
    requires FileSite(job.img, job.g, job.head, job.lo, job.hi) && MemSite(job) && AnchorReady(job)
    ensures Ready(job)
  {
  }

  /** A job whose region is planned behind the header room its loads need. */
  lemma JobRegionOk(img: Image, base: Image, flags: seq<bool>, head: nat -> nat, page: nat, job: Job)
    requires WellShaped(img) && |flags| == |img.shdrs|
    requires WellShaped(base) && SameSections(img, base) && job.img == WithTables(base, job.g)
    requires job.g.region == Plan(img, flags, head(1), head(2), page) && job.head == head(job.g.region.loads)
    ensures RegionOk(job.img, job.g.region, flags, job.head, page)
  {
    PlanHead(img, flags, head, page);
    SameRegionOk(img, base, job.g.region, flags, job.head, page);
    WithTablesRegionOk(base, job.g, job.g.region, flags, job.head, page);
  }

  lemma AppendIsShaped(img: Image, flags: seq<bool>, cut: nat, page: nat)
    requires WellShaped(img) && |flags| == |img.shdrs|
    ensures AppendShaped(img, AppendGeometry(img, flags, cut, page), cut, page)
  {
    PlanOk(img, flags, AppendPhtSize(img, 1) + ShtSize(img), AppendPhtSize(img, 2) + ShtSize(img), page);
  }

  /** The chosen offset: aligned, past the kept content, its address past every segment. */
  lemma AppendOffsetFacts(img: Image, cut: nat, page: nat)
    requires PowerOfTwo(page) && forall p :: p in img.phdrs ==> ValidAlign(p.align)
    requires Loads(img.phdrs) != [] && MinVaddr(Loads(img.phdrs)) % MaxAlign(img.phdrs, page) == 0
    ensures var align, off := MaxAlign(img.phdrs, page), AppendOffset(img, cut, page);
            var vaddr := BaseVaddr(Loads(img.phdrs)) + off;
            && cut <= off && MaxEnd(img.phdrs) <= vaddr
            && PowerOfTwo(align)
            && off % align == 0 && vaddr % align == 0 && off % page == 0 && vaddr % page == 0
  {
    var align, base := MaxAlign(img.phdrs, page), BaseVaddr(Loads(img.phdrs));
    var off := AppendOffset(img, cut, page);
    var startPage := RoundUp(MaxEnd(img.phdrs), align);
    MaxAlignPower(img.phdrs, page);
    RoundUpFacts(MaxEnd(img.phdrs), align);
    RoundUpFacts(Max(cut, if startPage < base then 0 else startPage - base), align);
    AddMultiples(base, off, align);
    DividesTrans(page, align, off);
    DividesTrans(page, align, base + off);
  }

  /** Tables, region and kept content are clear of each other in the file. */
  lemma AppendFileSite(img: Image, g: Geometry, cut: nat, page: nat)
    requires AppendShaped(img, g, cut, page) && ClassSizes(img)
    requires EhdrSize(img.enc.class_) <= cut <= AppendOffset(img, cut, page)
    ensures FileSite(WithTables(img, g), g, AppendPhtSize(img, g.region.loads) + ShtSize(img),
                     EhdrSize(img.enc.class_), cut)
  {
    AppendTables(img, g);
  }

  /** Both tables fit the room the layout gives them. */
  lemma AppendTables(img: Image, g: Geometry)
    requires g.region.dataLen <= g.region.len && (g.region.loads == 1 || g.region.loads == 2)
    ensures PhtEnd(WithTables(img, g), g) <= g.phoff + AppendPhtSize(img, g.region.loads)
    ensures ShtEnd(WithTables(img, g), g) <= g.shoff + ShtSize(img)
  {
    assert NewPhnum(WithTables(img, g), g) == |img.phdrs| + g.region.loads;
    RoundUpFacts((|img.phdrs| + g.region.loads) * PhdrSize(img.enc.class_) + img.ehdr.ehsize, DynSize(img.enc.class_));
    RoundUpFacts(|img.shdrs| * ShdrSize(img.enc.class_), DynSize(img.enc.class_));
  }

  /** The region lies above every load, at an address congruent to its offset. */
  lemma AppendMemSite(img: Image, g: Geometry, cut: nat, page: nat, job: Job)
    requires AppendShaped(img, g, cut, page) && PowerOfTwo(page)
    requires Loads(img.phdrs) != [] && MinVaddr(Loads(img.phdrs)) % MaxAlign(img.phdrs, page) == 0
    requires forall p :: p in img.phdrs ==> ValidAlign(p.align)
    requires forall p :: p in Loads(img.phdrs) ==> LoadOk(p)
    requires MemoryDisjoint(Loads(img.phdrs))
    requires job.g == g && job.img == WithTables(img, g) && !job.front
    ensures MemSite(job)
  {
    AppendOffsetFacts(img, cut, page);
    forall p | p in Loads(img.phdrs)
      ensures p.vaddr + p.memsz <= g.at.vaddr
    {
      LoadsMembers(img.phdrs, p);
      MaxEndBounds(img.phdrs, p);
    }
  }

  lemma AppendAnchor(img: Image, g: Geometry, cut: nat, page: nat, job: Job)
    requires AppendShaped(img, g, cut, page) && cut <= AppendOffset(img, cut, page)
    requires job.g == g && job.img == WithTables(img, g) && !job.front && job.hi == cut && SegmentsReady(job)
    requires Loads(img.phdrs) != []
    requires FindPhdr(img.phdrs, PT_PHDR).Some? ==>
               MinOffset(Loads(img.phdrs)).vaddr == MinVaddr(Loads(img.phdrs)) + MinOffset(Loads(img.phdrs)).offset
    ensures AnchorReady(job)
  {
    KeptLoadBound(job, MinOffset(Loads(img.phdrs)));
  }

  /** Appending meets every condition of a layout. */
  lemma AppendIsReady(img: Image, flags: seq<bool>, cut: nat, page: nat)
    requires AppendReady(img, flags, cut, page)
    ensures Ready(AppendJob(img, flags, cut, page))
  {
    var job := AppendJob(img, flags, cut, page);
    AppendRegionOk(img, flags, cut, page);
    AppendOffsetFacts(img, cut, page);
    AppendFileSite(img, job.g, cut, page);
    AppendMemSite(img, job.g, cut, page, job);
    AppendAnchor(img, job.g, cut, page, job);
  }
}
