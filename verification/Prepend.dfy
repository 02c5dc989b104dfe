/** The prepend layout (`relayout_shift` in src/layout.rs): the whole input moves
    up by whole segments and the new region goes below it, in file and memory. */
module Prepend {
  import opened Bytes
  import opened Ir
  import opened Codec
  import opened Align
  import opened Serialize
  import opened Layout
  import opened RegionFacts
  import opened Shape
  import opened Placed
  import opened Segments
  import opened Verify
  import opened Accepted
  import opened Dynamic
  import opened Append
  import opened Shift

  /** The input of a prepend, its content anywhere in `[0, origLen)`, before it moves. */
  function PrependInput(img: Image, flags: seq<bool>, origLen: nat, page: nat, keepTail: bool): Job
    requires WellShaped(img) && |flags| == |img.shdrs| && page > 0 && CanPrepend(img, flags, page, keepTail)
  {
    var g := PrependGeometry(img, flags, origLen, page, keepTail);
    Job(WithTables(img, g), g, LdcacheNote(img), true, flags, PrependHead(img, g.region.loads, keepTail), 0, origLen)
  }

  /** The prepend layout of `img` as a run, its input moved up by the shift. */
  function PrependJob(img: Image, flags: seq<bool>, origLen: nat, page: nat, keepTail: bool): Job
    requires WellShaped(img) && |flags| == |img.shdrs| && page > 0 && CanPrepend(img, flags, page, keepTail)
  {
    ShiftedJob(PrependInput(img, flags, origLen, page, keepTail), PrependShift(img, flags, page, keepTail))
  }

  /** The conditions on the input under which prepending is sound, wherever the
      ld-cache note's segment stands. */
  ghost predicate PrependSound(img: Image, flags: seq<bool>, origLen: nat, page: nat, keepTail: bool)
  {
    && WellShaped(img) && |flags| == |img.shdrs|
    && PowerOfTwo(page)
    && CanPrepend(img, flags, page, keepTail)
    && InputSound(PrependInput(img, flags, origLen, page, keepTail))
  }

  /** The same, and the note's extent does not go into a load: its segment precedes the
      first load, or the entry one or two places before it, which its index names once
      the new loads are rotated in, is no load. */
  ghost predicate PrependReady(img: Image, flags: seq<bool>, origLen: nat, page: nat, keepTail: bool)
  {
    PrependSound(img, flags, origLen, page, keepTail) && NoteReady(PrependInput(img, flags, origLen, page, keepTail))
  }

  /** `b` is the lowest address of a load, `a` the largest alignment, at least a page. */
  ghost predicate LowestAddress(img: Image, b: nat)
  {
    && (exists p :: p in img.phdrs && p.ptype == 1 && p.vaddr == b)
    && forall p :: p in img.phdrs && p.ptype == 1 ==> b <= p.vaddr
  }

  ghost predicate LargestAlign(img: Image, page: nat, a: nat)
  {
    && (a == page || exists p :: p in img.phdrs && p.ptype == 1 && p.align == a)
    && page <= a && forall p :: p in img.phdrs && p.ptype == 1 ==> p.align <= a
  }

  lemma {:induction false} MinOfLoads(loads: seq<Phdr>)
    requires loads != []
    ensures exists p :: p in loads && p.vaddr == MinVaddr(loads)
    ensures forall p :: p in loads ==> MinVaddr(loads) <= p.vaddr
  {
    if |loads| > 1 {
      MinOfLoads(loads[..|loads| - 1]);
    } else {
      assert loads[0] in loads;
    }
  }

  lemma {:induction false} MaxOfAligns(phdrs: seq<Phdr>, page: nat)
    ensures MaxAlign(phdrs, page) == page || exists p :: p in phdrs && p.align == MaxAlign(phdrs, page)
    ensures forall p :: p in phdrs ==> p.align <= MaxAlign(phdrs, page)
  {
    if phdrs != [] {
      MaxOfAligns(phdrs[..|phdrs| - 1], page);
      assert phdrs == phdrs[..|phdrs| - 1] + [phdrs[|phdrs| - 1]];
    }
  }

  /** Rounded up to a divisor of `b`, a length below `b` stays below it. */
  lemma RoundBelow(len: nat, a: nat, b: nat)
    requires a > 0 && b % a == 0
    ensures RoundUp(len, a) <= b <==> len <= b
  {
    RoundUpFacts(len, a);
    if len <= b < RoundUp(len, a) {
      DivModFacts(b, a);
      DivModFacts(RoundUp(len, a), a);
      StepApart(b / a, RoundUp(len, a) / a, a);
    }
  }

  lemma StepApart(i: nat, j: nat, a: nat)
    requires a > 0 && i * a < j * a
    ensures i * a + a <= j * a
  {
    if j <= i {
      MulMono(j, i, a);
    } else {
      MulMono(i + 1, j, a);
    }
  }

  /** The prepend layout applies exactly when the lowest load is aligned as the loads ask
      and the region fits below it. */
  lemma RoomIff(img: Image, flags: seq<bool>, page: nat, keepTail: bool, b: nat, a: nat)
    requires WellShaped(img) && |flags| == |img.shdrs| && page > 0
    requires LowestAddress(img, b) && LargestAlign(img, page, a)
    ensures CanPrepend(img, flags, page, keepTail) <==> b % a == 0 && PrependRegion(img, flags, page, keepTail).len <= b
  {
    var loads := Loads(img.phdrs);
    forall p ensures p in loads <==> p in img.phdrs && p.ptype == 1 {
      LoadsMembers(img.phdrs, p);
    }
    var q :| q in img.phdrs && q.ptype == 1 && q.vaddr == b;
    assert q in loads;
    MinOfLoads(loads);
    MaxOfAligns(loads, page);
    assert MinVaddr(loads) == b && MaxAlign(loads, page) == a;
    if b % a == 0 {
      RoundBelow(PrependRegion(img, flags, page, keepTail).len, a, b);
    }
  }

  /** What the prepend arithmetic fixes about a geometry, its region aside. */
  ghost predicate PrependShaped(img: Image, g: Geometry, shift: nat, origLen: nat, page: nat, keepTail: bool)
  {
    var loads := Loads(img.phdrs);
    var r, secAlign := g.region, DynSize(img.enc.class_);
    && loads != [] && page > 0
    && r.dataLen <= r.len && (r.loads == 1 || r.loads == 2) && (r.loads == 1 ==> r.dataLen == r.len)
    && PrependHead(img, r.loads, keepTail) <= r.dataLen
    && shift == RoundUp(r.len, MaxAlign(loads, page)) && shift <= MinVaddr(loads)
    && MinVaddr(loads) % MaxAlign(loads, page) == 0
    && g.at == Site(0, MinVaddr(loads) - shift, if r.loads == 1 then shift else r.dataLen, MaxAlign(loads, page), page)
    && g.phoff == img.ehdr.ehsize
    && g.shoff == RoundUp(if keepTail then PrependPhtSize(img, r.loads) else origLen + shift, secAlign)
    && g.total == (if keepTail then origLen + shift else g.shoff + |img.shdrs| * ShdrSize(img.enc.class_))
  }

  lemma PrependRegionOk(img: Image, flags: seq<bool>, origLen: nat, page: nat, keepTail: bool)
    requires WellShaped(img) && |flags| == |img.shdrs| && page > 0 && CanPrepend(img, flags, page, keepTail)
    ensures var job := PrependJob(img, flags, origLen, page, keepTail);
            var shift := PrependShift(img, flags, page, keepTail);
            && RegionOk(job.img, job.g.region, flags, job.head, page)
            && PrependShaped(img, job.g, shift, origLen, page, keepTail)
            && job.img == WithTables(Shifted(img, shift), job.g)
            && job.head == PrependHead(img, job.g.region.loads, keepTail)
  {
    PrependJobPlan(img, flags, origLen, page, keepTail);
    PrependIsShaped(img, flags, origLen, page, keepTail);
    PrependJobIs(img, flags, origLen, page, keepTail);
  }

  lemma PrependJobPlan(img: Image, flags: seq<bool>, origLen: nat, page: nat, keepTail: bool)
    requires WellShaped(img) && |flags| == |img.shdrs| && page > 0 && CanPrepend(img, flags, page, keepTail)
    ensures var job := PrependJob(img, flags, origLen, page, keepTail);
            RegionOk(job.img, job.g.region, flags, job.head, page)
  {
    var head: nat -> nat := n => PrependHead(img, n, keepTail);
    var job, shift := PrependJob(img, flags, origLen, page, keepTail), PrependShift(img, flags, page, keepTail);
    HeadPlan(img, flags, page, keepTail, head);
    ShiftedNames(img, shift);
    assert job.head == head(job.g.region.loads);
    JobRegionOk(img, Shifted(img, shift), flags, head, page, job);
  }

  lemma HeadPlan(img: Image, flags: seq<bool>, page: nat, keepTail: bool, head: nat -> nat)
    requires WellShaped(img) && |flags| == |img.shdrs| && forall n: nat :: head(n) == PrependHead(img, n, keepTail)
    ensures PrependRegion(img, flags, page, keepTail) == Plan(img, flags, head(1), head(2), page)
  {
  }

  lemma PrependRegionFits(img: Image, flags: seq<bool>, page: nat, keepTail: bool)
    requires WellShaped(img) && |flags| == |img.shdrs|
    ensures var r := PrependRegion(img, flags, page, keepTail);
            && (r.loads == 1 || r.loads == 2) && (r.loads == 1 ==> r.dataLen == r.len)
            && PrependHead(img, r.loads, keepTail) <= r.dataLen <= r.len
  {
    var head: nat -> nat := n => PrependHead(img, n, keepTail);
    HeadPlan(img, flags, page, keepTail, head);
    PlanHead(img, flags, head, page);
    var n := PrependRegion(img, flags, page, keepTail).loads;
    assert head(n) == PrependHead(img, n, keepTail);
  }

  lemma PrependIsShaped(img: Image, flags: seq<bool>, origLen: nat, page: nat, keepTail: bool)
    requires WellShaped(img) && |flags| == |img.shdrs| && page > 0 && CanPrepend(img, flags, page, keepTail)
    ensures PrependShaped(img, PrependGeometry(img, flags, origLen, page, keepTail),
                          PrependShift(img, flags, page, keepTail), origLen, page, keepTail)
  {
    PrependRegionFits(img, flags, page, keepTail);
  }

  lemma PrependJobIs(img: Image, flags: seq<bool>, origLen: nat, page: nat, keepTail: bool)
    requires WellShaped(img) && |flags| == |img.shdrs| && page > 0 && CanPrepend(img, flags, page, keepTail)
    ensures var job := PrependJob(img, flags, origLen, page, keepTail);
            && job.g == PrependGeometry(img, flags, origLen, page, keepTail)
            && job.img == WithTables(Shifted(img, PrependShift(img, flags, page, keepTail)), job.g)
            && job.head == PrependHead(img, job.g.region.loads, keepTail)
  {
  }

  /** Moving up changes no section's name. */
  lemma PrependFinds(img: Image, flags: seq<bool>, origLen: nat, page: nat, keepTail: bool, name: seq<byte>)
    requires WellShaped(img) && |flags| == |img.shdrs| && page > 0 && CanPrepend(img, flags, page, keepTail)
    ensures PrependJob(img, flags, origLen, page, keepTail).img.FindSection(name) == img.FindSection(name)
  {
    SameFind(img, PrependJob(img, flags, origLen, page, keepTail).img, name);
  }

  /** The shift covers the region and is a whole number of every load's alignment. */
  lemma PrependShiftFacts(img: Image, g: Geometry, shift: nat, origLen: nat, page: nat, keepTail: bool)
    requires PrependShaped(img, g, shift, origLen, page, keepTail)
    requires PowerOfTwo(page) && forall p :: p in img.phdrs ==> ValidAlign(p.align)
    ensures g.region.len <= shift && shift % page == 0
    ensures PowerOfTwo(g.at.align) && shift % g.at.align == 0
    ensures g.at.vaddr % g.at.align == 0 && g.at.vaddr % page == 0
    ensures forall p :: p in Loads(img.phdrs) && p.align > 1 ==> shift % p.align == 0
  {
    var loads, align := Loads(img.phdrs), MaxAlign(Loads(img.phdrs), page);
    forall p | p in loads ensures ValidAlign(p.align) {
      LoadsMembers(img.phdrs, p);
    }
    MaxAlignPower(loads, page);
    RoundUpFacts(g.region.len, align);
    DividesTrans(page, align, shift);
    SubMultiples(MinVaddr(loads), shift, align);
    DividesTrans(page, align, g.at.vaddr);
    forall p | p in loads && p.align > 1
      ensures shift % p.align == 0
    {
      MaxAlignAbove(loads, page, p);
      LoadsMembers(img.phdrs, p);
      PowersDivide(p.align, align);
      DividesTrans(p.align, align, shift);
    }
  }

  lemma SubMultiples(v: nat, m: nat, d: nat)
    requires d > 0 && m <= v && v % d == 0 && m % d == 0
    ensures (v - m) % d == 0
  {
    AddMultiples(v - m, m, d);
  }

  lemma {:induction false} MaxAlignAbove(phdrs: seq<Phdr>, page: nat, p: Phdr)
    requires p in phdrs
    ensures p.align <= MaxAlign(phdrs, page)
  {
    var init := phdrs[..|phdrs| - 1];
    if p in init {
      MaxAlignAbove(init, page, p);
    } else {
      assert p == phdrs[|phdrs| - 1];
    }
  }

  lemma RoundUpGrows(v: nat, align: nat)
    ensures v <= RoundUp(v, align)
  {
    RoundUpFacts(v, align);
  }

  /** The program header table fits the room reserved for it. */
  lemma PrependPht(img: Image, b: Image, g: Geometry, keepTail: bool)
    requires g.region.dataLen <= g.region.len && (g.region.loads == 1 || g.region.loads == 2)
    requires |b.phdrs| == |img.phdrs| && b.enc == img.enc && g.phoff == img.ehdr.ehsize
    ensures PhtEnd(b, g) == PrependPhtSize(img, g.region.loads) <= PrependHead(img, g.region.loads, keepTail)
    ensures img.ehdr.ehsize <= PrependHead(img, g.region.loads, keepTail)
  {
    RoundUpGrows(PrependPhtSize(img, g.region.loads), DynSize(img.enc.class_));
  }

  /** With `keep_tail` the section header table follows it in the region. */
  lemma PrependSht(img: Image, b: Image, g: Geometry)
    requires |b.shdrs| == |img.shdrs| && b.enc == img.enc
    requires g.shoff == RoundUp(PrependPhtSize(img, g.region.loads), DynSize(img.enc.class_))
    ensures PrependPhtSize(img, g.region.loads) <= g.shoff && ShtEnd(b, g) <= PrependHead(img, g.region.loads, true)
  {
    RoundUpGrows(PrependPhtSize(img, g.region.loads), DynSize(img.enc.class_));
    RoundUpGrows(|img.shdrs| * ShdrSize(img.enc.class_), DynSize(img.enc.class_));
  }

  /** Region below, input above, section headers in the region or at the end. */
  lemma PrependFileSite(img: Image, g: Geometry, shift: nat, origLen: nat, page: nat, keepTail: bool)
    requires PrependShaped(img, g, shift, origLen, page, keepTail) && ClassSizes(img) && g.region.len <= shift
    ensures FileSite(WithTables(Shifted(img, shift), g), g, PrependHead(img, g.region.loads, keepTail), shift,
                     shift + origLen)
  {
    var b := Shifted(img, shift);
    PrependPht(img, b, g, keepTail);
    if keepTail {
      PrependSht(img, b, g);
    } else {
      RoundUpGrows(origLen + shift, DynSize(img.enc.class_));
    }
  }

  lemma PrependMemSite(img: Image, g: Geometry, shift: nat, origLen: nat, page: nat, keepTail: bool, job: Job)
    requires PrependShaped(img, g, shift, origLen, page, keepTail) && PowerOfTwo(page)
    requires forall p :: p in img.phdrs ==> ValidAlign(p.align)
    requires forall p :: p in job.img.phdrs ==> ValidAlign(p.align)
    requires forall p :: p in Loads(job.img.phdrs) ==> LoadOk(p)
    requires MemoryDisjoint(Loads(job.img.phdrs))
    requires job.g == g && job.front && job.img.phdrs == ShiftedPhdrs(img.phdrs, shift)
    ensures MemSite(job)
  {
    PrependShiftFacts(img, g, shift, origLen, page, keepTail);
    RoundUpFacts(origLen + shift, DynSize(img.enc.class_));
    RegionBelow(img, g, shift, origLen, page, keepTail);
  }

  /** The region ends below every load that moved up. */
  lemma RegionBelow(img: Image, g: Geometry, shift: nat, origLen: nat, page: nat, keepTail: bool)
    requires PrependShaped(img, g, shift, origLen, page, keepTail) && g.region.len <= shift
    ensures forall p :: p in Loads(ShiftedPhdrs(img.phdrs, shift)) ==>
              g.at.vaddr + Max(g.at.filesz, g.region.len) <= p.vaddr
  {
    LoadsShifted(img.phdrs, shift);
    forall i | 0 <= i < |Loads(img.phdrs)|
      ensures g.at.vaddr + Max(g.at.filesz, g.region.len) <= ShiftedPhdrs(Loads(img.phdrs), shift)[i].vaddr
    {
      MinVaddrBounds(Loads(img.phdrs), Loads(img.phdrs)[i]);
    }
  }

  /** Prepending meets every condition of a layout. */
  lemma PrependIsReady(img: Image, flags: seq<bool>, origLen: nat, page: nat, keepTail: bool)
    requires PrependReady(img, flags, origLen, page, keepTail)
    ensures Ready(PrependJob(img, flags, origLen, page, keepTail))
  {
    var input, job := PrependInput(img, flags, origLen, page, keepTail),
      PrependJob(img, flags, origLen, page, keepTail);
    var shift := PrependShift(img, flags, page, keepTail);
    PrependRegionOk(img, flags, origLen, page, keepTail);
    PrependMoves(img, input, shift, origLen, page, keepTail, job);
  }

  lemma PrependMoves(img: Image, input: Job, shift: nat, origLen: nat, page: nat, keepTail: bool, job: Job)
    requires InputReady(input) && input.img == WithTables(img, input.g) && job == ShiftedJob(input, shift)
    requires job.front && job.lo == shift && job.hi == origLen + shift && PowerOfTwo(page)
    requires RegionOk(job.img, job.g.region, job.flags, job.head, page)
    requires PrependShaped(img, job.g, shift, origLen, page, keepTail)
             && job.img == WithTables(Shifted(img, shift), job.g)
    requires job.head == PrependHead(img, job.g.region.loads, keepTail)
    ensures Ready(job)
  {
    PrependShiftFacts(img, job.g, shift, origLen, page, keepTail);
    ShiftedInput(input, shift);
    PrependSites(img, shift, origLen, page, keepTail, job);
    ReadyFrom(job);
  }

  /** The region's place in the file and in memory, once the input has moved up. */
  lemma PrependSites(img: Image, shift: nat, origLen: nat, page: nat, keepTail: bool, job: Job)
    requires PrependShaped(img, job.g, shift, origLen, page, keepTail) && PowerOfTwo(page) && ClassSizes(img)
    requires forall p :: p in img.phdrs ==> ValidAlign(p.align)
    requires InputSound(job) && job.front && job.img == WithTables(Shifted(img, shift), job.g)
    requires job.head == PrependHead(img, job.g.region.loads, keepTail) && job.lo == shift && job.hi == origLen + shift
    ensures FileSite(job.img, job.g, job.head, job.lo, job.hi) && MemSite(job) && job.g.at.page == page
  {
    PrependShiftFacts(img, job.g, shift, origLen, page, keepTail);
    PrependFileSite(img, job.g, shift, origLen, page, keepTail);
    PrependMemSite(img, job.g, shift, origLen, page, keepTail, job);
  }
}
