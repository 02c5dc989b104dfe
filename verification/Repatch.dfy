/** Patching one file again and again with the append layout (src/layout.rs): its
    loads never pile up, and none of the original ones is lost. */
module Repatch {
  import opened Bytes
  import opened Ir
  import opened Serialize
  import opened Layout
  import opened Shape
  import opened Placed
  import opened Segments
  import opened Dynamic
  import Append
  import opened Reclaim
  import opened Parser
  import opened RoundTrip
  import opened Outcome
  import Relayout

  // ---- Over any number of runs ----

  /** One reclaiming append of an edited image whose file is `len` bytes long. */
  datatype Run = Run(before: Image, len: nat, page: nat, after: Image) {
    function Base(): Image
    {
      DropPrior(before, true)
    }

    function CutAt(): nat
    {
      match RegionStart(before, true) case None => len case Some(start) => start
    }

    /** The sections that move: those an edit resized, and those of the dropped region. */
    function Flags(): (flags: seq<bool>)
      requires WellShaped(before)
      ensures |flags| == |Base().shdrs|
    {
      RelocationFlags(Base(), GrownSections(before), RegionStart(before, true))
    }

    function Site(): Job
      requires WellShaped(before)
    {
      Append.AppendJob(Base(), Flags(), CutAt(), page)
    }
  }

  /** Edits resize no code but the stub's, and an installed stub has bytes. */
  ghost predicate CodeFixed(v: Image, page: nat)
    requires WellShaped(v)
  {
    && (forall i: nat :: i < |v.shdrs| && Executable(v.shdrs[i]) && (Resized(v, i) || v.DynIdx() == Some(i)) ==>
          v.FindSection(STUB) == Some(i))
    && match v.FindSection(STUB)
       case None => true
       case Some(s) =>
         && v.data[s] != [] && v.shdrs[s].shtype != SHT_NOBITS && v.DynIdx() != Some(s)
         && page > 0 && page % SecAlign(v, s) == 0
  }

  ghost predicate IsRun(r: Run)
  {
    && WellShaped(r.before)
    && Append.AppendReady(r.Base(), r.Flags(), r.CutAt(), r.page)
    && NoLoadAt(r.Site()) && CodeFixed(r.before, r.page)
    && Appended(r.Base(), r.Flags(), r.CutAt(), r.page) == Ok(r.after)
  }

  ghost predicate RunAt(rs: seq<Run>, k: nat)
    requires k < |rs|
  {
    IsRun(rs[k])
  }

  /** Run `k` starts from an edit of what the run before left, the first from an edit of `first`. */
  ghost predicate FollowsAt(first: Image, rs: seq<Run>, k: nat)
    requires k < |rs|
  {
    Edited(if k == 0 then first else rs[k - 1].after, rs[k].before)
  }

  /** Relayouts of one file in a row, from `first` on, with edits before each. */
  ghost predicate Chain(first: Image, rs: seq<Run>)
  {
    forall k: nat :: k < |rs| ==> RunAt(rs, k) && FollowsAt(first, rs, k)
  }

  lemma MovesIff(r: Run, i: nat)
    requires WellShaped(r.before) && i < |r.before.shdrs|
    ensures r.Flags()[i] <==> && r.before.shdrs[i].shtype != SHT_NOBITS && r.before.data[i] != []
                              && (Resized(r.before, i)
                                  || (RegionStart(r.before, true).Some?
                                      && r.before.shdrs[i].offset >= RegionStart(r.before, true).value))
  {
    var v := r.before;
    IndicesFacts(seq(|v.shdrs|, j requires 0 <= j < |v.shdrs| => Resized(v, j)));
  }

  /** Where a run leaves a section. */
  lemma PlacedAt(job: Job, f: Image, i: nat)
    requires AppendRun(job, f) && i < |job.img.shdrs|
    ensures i < |f.shdrs| && f.ehdr.phoff == job.g.at.off > 0
    ensures f.shdrs[i].flags == job.img.shdrs[i].flags && f.FindSection(STUB) == job.img.FindSection(STUB)
    ensures if job.flags[i] then f.shdrs[i].offset >= f.ehdr.phoff else f.shdrs[i] == job.img.shdrs[i]
  {
    Reclaim.RunFacts(job, f);
    FinalFields(job.img, job.g, job.note, job.front, f);
    SameFind(job.img, f, STUB);
    if job.flags[i] {
      MovedShdr(job, IndexOf(job.g.region.sections, i));
    } else {
      KeptShdr(job, i);
    }
  }

  /** A run starts from the sections of the edited image. */
  lemma RunBase(r: Run)
    requires WellShaped(r.before)
    ensures var job := r.Site();
            && job.flags == r.Flags() && job.hi == r.CutAt() && job.img.shdrs == r.before.shdrs
              && job.img.data == r.before.data
            && job.img.dynamic == r.before.dynamic && job.img.enc == r.before.enc
            && job.img.FindSection(STUB) == r.before.FindSection(STUB)
  {
    SameFind(r.before, r.Site().img, STUB);
  }

  lemma IsAppendRun(r: Run)
    requires IsRun(r)
    ensures AppendRun(r.Site(), r.after) && r.Site().img.phdrs == r.Base().phdrs
  {
    AppendIsRun(r.Base(), r.Flags(), r.CutAt(), r.page);
  }

  // ---- The only code that moves is the stub ----

  /** Code found in the region to be dropped is the stub's, or was resized. */
  ghost predicate RegionCode(v: Image)
    requires WellShaped(v)
  {
    RegionStart(v, true).Some? ==>
      forall i: nat ::
        i < |v.shdrs| && Executable(v.shdrs[i]) && v.data[i] != [] && v.shdrs[i].offset >= v.ehdr.phoff ==>
          v.FindSection(STUB) == Some(i) || Resized(v, i) || v.DynIdx() == Some(i) || v.shdrs[i].shtype == SHT_NOBITS
  }

  lemma CodeMoves(r: Run)
    requires IsRun(r) && RegionCode(r.before)
    ensures CodeIsStub(r.Base(), r.Flags(), r.page)
  {
    FixedCode(r);
  }

  lemma FixedCode(r: Run)
    requires WellShaped(r.before) && CodeFixed(r.before, r.page) && RegionCode(r.before)
    ensures CodeIsStub(r.Base(), r.Flags(), r.page)
  {
    SameNamed(r.before, r.Base());
    forall i: nat | i < |r.before.shdrs| && r.Flags()[i] && Executable(r.before.shdrs[i])
      ensures r.before.FindSection(STUB) == Some(i)
    {
      MovesIff(r, i);
    }
  }

  lemma TableAbove(job: Job, f: Image)
    requires AppendRun(job, f)
    ensures f.ehdr.phoff == job.g.at.off > 0
  {
    Reclaim.RunFacts(job, f);
  }

  lemma KeptEnds(job: Job, i: nat)
    requires Ready(job) && i < |job.img.shdrs| && !job.flags[i] && job.img.shdrs[i].shtype != SHT_NOBITS
    ensures job.img.shdrs[i].offset + job.img.shdrs[i].size <= job.hi
  {
    assert Kept(job.img, job.flags, i);
  }

  /** A moved section lies in the region, any other one before it. */
  ghost predicate PlacedBy(base: Image, flags: seq<bool>, f: Image, i: nat)
    requires |flags| == |base.shdrs|
  {
    i < |flags| && i < |f.shdrs| && f.shdrs[i].flags == base.shdrs[i].flags
    && (flags[i] ==> f.shdrs[i].offset >= f.ehdr.phoff)
    && (!flags[i] && f.shdrs[i].shtype != SHT_NOBITS ==> f.shdrs[i].offset + f.shdrs[i].size <= f.ehdr.phoff)
  }

  /** Where a run leaves the sections of the image it started from. */
  lemma RunSection(r: Run, i: nat)
    requires IsRun(r) && i < |r.after.shdrs|
    ensures PlacedBy(r.Base(), r.Flags(), r.after, i)
  {
    IsAppendRun(r);
    RunBase(r);
    var job := r.Site();
    FinalFields(job.img, job.g, job.note, job.front, r.after);
    PlacedAt(job, r.after, i);
    if !r.Flags()[i] && r.before.shdrs[i].shtype != SHT_NOBITS {
      KeptEnds(job, i);
    }
  }

  lemma RunStub(r: Run)
    requires IsRun(r)
    ensures r.after.FindSection(STUB) == r.Base().FindSection(STUB) && r.after.ehdr.phoff > 0
  {
    IsAppendRun(r);
    TableAbove(r.Site(), r.after);
    var job := r.Site();
    FinalFields(job.img, job.g, job.note, job.front, r.after);
    SameFind(job.img, r.after, STUB);
    SameFind(r.Base(), job.img, STUB);
  }

  /** A section without file bytes that has bytes now was resized. */
  lemma FilledResized(v: Image, i: nat)
    requires WellShaped(v) && i < |v.shdrs| && v.data[i] != [] && v.shdrs[i].size == 0
             && v.shdrs[i].shtype != SHT_NOBITS
    ensures Resized(v, i) || v.DynIdx() == Some(i)
  {
  }

  /** Code that moved is the stub's; code that did not lies before the region. */
  lemma RegionCodeAt(base: Image, flags: seq<bool>, page: nat, f: Image, v: Image, i: nat)
    requires |flags| == |base.shdrs| && CodeIsStub(base, flags, page) && Edited(f, v) && WellShaped(v)
    requires PlacedBy(base, flags, f, i) && f.FindSection(STUB) == base.FindSection(STUB)
    requires i < |v.shdrs| && Executable(v.shdrs[i]) && v.data[i] != [] && v.shdrs[i].offset >= v.ehdr.phoff
    requires v.shdrs[i].shtype != SHT_NOBITS
    ensures v.FindSection(STUB) == Some(i) || Resized(v, i) || v.DynIdx() == Some(i)
  {
    assert SamePlace(f.shdrs[i], v.shdrs[i]);
    if flags[i] {
      EditedStub(f, v);
    } else {
      FilledResized(v, i);
    }
  }

  lemma RegionCodeOf(base: Image, flags: seq<bool>, page: nat, f: Image, v: Image)
    requires |flags| == |base.shdrs| && CodeIsStub(base, flags, page) && Edited(f, v) && WellShaped(v)
    requires f.ehdr.phoff > 0 && f.FindSection(STUB) == base.FindSection(STUB)
    requires forall i: nat :: i < |f.shdrs| ==> PlacedBy(base, flags, f, i)
    ensures RegionCode(v)
  {
    forall i: nat | i < |v.shdrs| && Executable(v.shdrs[i]) && v.data[i] != [] && v.shdrs[i].offset >= v.ehdr.phoff
                    && v.shdrs[i].shtype != SHT_NOBITS
      ensures v.FindSection(STUB) == Some(i) || Resized(v, i) || v.DynIdx() == Some(i)
    {
      assert i < |f.shdrs|;
      RegionCodeAt(base, flags, page, f, v, i);
    }
  }

  lemma RegionCodeAfter(r: Run, v: Image)
    requires IsRun(r) && CodeIsStub(r.Base(), r.Flags(), r.page) && Edited(r.after, v) && WellShaped(v)
    ensures RegionCode(v)
  {
    RunStub(r);
    forall i: nat | i < |r.after.shdrs|
      ensures PlacedBy(r.Base(), r.Flags(), r.after, i)
    {
      RunSection(r, i);
    }
    RegionCodeOf(r.Base(), r.Flags(), r.page, r.after, v);
  }

  /** Edits of a file no run has patched leave it without a region. */
  lemma NoPrior(first: Image, v: Image)
    requires PriorLoad(first).None? && Edited(first, v)
    ensures PriorLoad(v).None? && Loads(v.phdrs) == Loads(first.phdrs)
  {
    ExtendsLoads(first.phdrs, [], v.phdrs);
    var bs := Priors(first);
    forall i | 0 <= i < |v.phdrs|
      ensures v.phdrs[i].ptype == PT_LOAD ==> v.phdrs[i].offset != v.ehdr.phoff
    {
      if i < |first.phdrs| {
        assert SameLoad(first.phdrs[i], v.phdrs[i]);
        assert !bs[i];
      }
    }
  }

  lemma NextCode(r: Run, next: Run)
    requires IsRun(r) && IsRun(next) && CodeIsStub(r.Base(), r.Flags(), r.page) && Edited(r.after, next.before)
    ensures CodeIsStub(next.Base(), next.Flags(), next.page)
  {
    RegionCodeAfter(r, next.before);
    CodeMoves(next);
  }

  lemma FirstCode(first: Image, r: Run)
    requires IsRun(r) && Edited(first, r.before) && PriorLoad(first).None?
    ensures CodeIsStub(r.Base(), r.Flags(), r.page)
  {
    NoPrior(first, r.before);
    CodeMoves(r);
  }

  ghost predicate CodeAt(rs: seq<Run>, k: nat)
    requires k < |rs|
  {
    IsRun(rs[k]) && CodeIsStub(rs[k].Base(), rs[k].Flags(), rs[k].page)
  }

  ghost predicate CodeUpTo(rs: seq<Run>, k: nat)
    requires k < |rs|
  {
    forall j: nat :: j <= k ==> CodeAt(rs, j)
  }

  lemma CodeFirst(first: Image, rs: seq<Run>)
    requires rs != [] && Chain(first, rs) && PriorLoad(first).None?
    ensures CodeUpTo(rs, 0)
  {
    assert RunAt(rs, 0) && FollowsAt(first, rs, 0);
    FirstCode(first, rs[0]);
    assert CodeAt(rs, 0);
  }

  lemma CodeNext(first: Image, rs: seq<Run>, k: nat)
    requires 0 < k < |rs| && CodeUpTo(rs, k - 1) && Chain(first, rs)
    ensures CodeUpTo(rs, k)
  {
    assert RunAt(rs, k) && FollowsAt(first, rs, k) && CodeAt(rs, k - 1);
    NextCode(rs[k - 1], rs[k]);
    assert CodeAt(rs, k);
  }

  lemma {:induction false} CodeStays(first: Image, rs: seq<Run>, k: nat)
    requires Chain(first, rs) && k < |rs| && PriorLoad(first).None?
    ensures CodeUpTo(rs, k)
  {
    if k == 0 {
      CodeFirst(first, rs);
    } else {
      CodeStays(first, rs, k - 1);
      CodeNext(first, rs, k);
    }
  }

  /** Every run of a chain moves no code but the stub. */
  lemma ChainCode(first: Image, rs: seq<Run>, k: nat)
    requires Chain(first, rs) && k < |rs| && PriorLoad(first).None?
    ensures IsRun(rs[k]) && CodeIsStub(rs[k].Base(), rs[k].Flags(), rs[k].page)
  {
    CodeStays(first, rs, k);
    assert CodeAt(rs, k);
  }

  // ---- The loads of every run ----

  lemma RunStarts(r: Run)
    requires IsRun(r) && CodeIsStub(r.Base(), r.Flags(), r.page)
    ensures AppendRun(r.Site(), r.after) && StubStarts(r.Site(), r.after) && r.Site().img.phdrs == r.Base().phdrs
  {
    IsAppendRun(r);
    AppendStarts(r.Base(), r.Flags(), r.CutAt(), r.page);
  }

  /** What a run leaves: the loads it started from, then its region's. */
  lemma RunLoads(r: Run)
    requires IsRun(r)
    ensures r.Site().g.region.dataLen <= r.Site().g.region.len
    ensures Loads(r.after.phdrs) == Loads(r.Base().phdrs) + NewLoads(r.Site().g.region, r.Site().g.at)
  {
    IsAppendRun(r);
    FinalLoads(r.Site(), r.after);
  }

  /** The edited image a run starts from has no load placed as a stub it does not move. */
  ghost predicate AllClear(rs: seq<Run>, k: nat)
  {
    forall j :: 0 < j <= k && j < |rs| ==> StubClear(rs[j].before)
  }

  /** The next run starts from the loads this one started from. */
  lemma NextBase(r: Run, next: Run)
    requires IsRun(r) && IsRun(next) && CodeIsStub(r.Base(), r.Flags(), r.page)
    requires Edited(r.after, next.before) && StubClear(next.before)
    ensures Loads(next.Base().phdrs) == Loads(r.Base().phdrs)
  {
    RunStarts(r);
    ReclaimDropsRegion(r.Site(), r.after, next.before);
  }

  ghost predicate BaseAt(first: Image, rs: seq<Run>, k: nat)
    requires k < |rs|
  {
    IsRun(rs[k]) && Loads(rs[k].Base().phdrs) == Loads(first.phdrs)
  }

  lemma BaseFirst(first: Image, rs: seq<Run>)
    requires rs != [] && Chain(first, rs) && PriorLoad(first).None?
    ensures BaseAt(first, rs, 0)
  {
    assert RunAt(rs, 0) && FollowsAt(first, rs, 0);
    NoPrior(first, rs[0].before);
  }

  lemma BaseNext(first: Image, rs: seq<Run>, k: nat)
    requires 0 < k < |rs| && BaseAt(first, rs, k - 1) && CodeUpTo(rs, k - 1) && Chain(first, rs)
    requires StubClear(rs[k].before)
    ensures BaseAt(first, rs, k)
  {
    assert RunAt(rs, k) && FollowsAt(first, rs, k) && CodeAt(rs, k - 1);
    NextBase(rs[k - 1], rs[k]);
  }

  /** Every run starts from the original loads. */
  lemma {:induction false} BaseStays(first: Image, rs: seq<Run>, k: nat)
    requires Chain(first, rs) && k < |rs| && PriorLoad(first).None? && AllClear(rs, k)
    ensures BaseAt(first, rs, k)
  {
    if k == 0 {
      BaseFirst(first, rs);
    } else {
      BaseStays(first, rs, k - 1);
      CodeStays(first, rs, k - 1);
      BaseNext(first, rs, k);
    }
  }

  /** However often a file is relaid out, it has its original loads and those of
      the current region, provided no original load is placed as the stub. */
  lemma LoadsNeverPileUp(first: Image, rs: seq<Run>, k: nat)
    requires Chain(first, rs) && k < |rs| && PriorLoad(first).None? && AllClear(rs, k)
    ensures IsRun(rs[k]) && rs[k].Site().g.region.dataLen <= rs[k].Site().g.region.len
    ensures Loads(rs[k].after.phdrs) == Loads(first.phdrs) + NewLoads(rs[k].Site().g.region, rs[k].Site().g.at)
    ensures |Loads(rs[k].after.phdrs)| == |Loads(first.phdrs)| + if rs[k].Site().g.region.loads == 2 then 2 else 1
  {
    BaseStays(first, rs, k);
    assert BaseAt(first, rs, k);
    RunLoads(rs[k]);
  }

  // ---- A program that starts without a stub ----

  /** A stub of the edited image moves in the coming run. */
  ghost predicate StubMoves(r: Run)
    requires WellShaped(r.before)
  {
    r.before.FindSection(STUB).Some? ==> r.Flags()[r.before.FindSection(STUB).value]
  }

  /** A stub just added, or left in the region by the run before, moves. */
  lemma NextStubMoves(f: Image, r: Run)
    requires IsRun(r) && Edited(f, r.before)
    requires f.FindSection(STUB).Some? ==>
               RegionStart(r.before, true) == Some(f.ehdr.phoff)
                 && f.shdrs[f.FindSection(STUB).value].offset >= f.ehdr.phoff
    ensures StubMoves(r)
  {
    EditedStub(f, r.before);
    if r.before.FindSection(STUB).Some? {
      MovesIff(r, r.before.FindSection(STUB).value);
    }
  }

  /** A run that moves its stub leaves it in the region. */
  lemma StubInRegion(r: Run)
    requires IsRun(r) && StubMoves(r)
    ensures r.after.FindSection(STUB).Some? ==>
              r.after.shdrs[r.after.FindSection(STUB).value].offset >= r.after.ehdr.phoff > 0
  {
    IsAppendRun(r);
    RunBase(r);
    if r.before.FindSection(STUB).Some? {
      PlacedAt(r.Site(), r.after, r.before.FindSection(STUB).value);
    } else {
      FinalFields(r.Site().img, r.Site().g, r.Site().note, r.Site().front, r.after);
      SameFind(r.Site().img, r.after, STUB);
    }
  }

  /** No executable load of the program is placed at zero, as a new stub section is. */
  predicate NoCodeAtZero(loads: seq<Phdr>)
  {
    forall p :: p in loads ==> !(HasFlag(p.flags, PF_X) && p.offset == 0 && p.vaddr == 0)
  }

  lemma NoneAtZero(job: Job, f: Image, v: Image)
    requires AppendRun(job, f) && Edited(f, v) && NoCodeAtZero(Loads(job.img.phdrs))
    ensures NoCodeAtZero(Loads(v.phdrs))
  {
    TableAbove(job, f);
    AllLoads(job, f, v);
    forall p | p in Loads(v.phdrs)
      ensures p in Loads(job.img.phdrs) || p.offset > 0
    {
      assert p in Loads(job.img.phdrs) || p in NewLoads(job.g.region, job.g.at);
    }
  }

  lemma ClearAfter(r: Run, v: Image)
    requires IsRun(r) && StubMoves(r) && Edited(r.after, v) && NoCodeAtZero(Loads(r.Base().phdrs))
    ensures StubClear(v)
  {
    IsAppendRun(r);
    StubInRegion(r);
    EditedStub(r.after, v);
    NoneAtZero(r.Site(), r.after, v);
  }

  lemma ClearStep(r: Run, next: Run)
    requires IsRun(r) && IsRun(next) && StubMoves(r) && Edited(r.after, next.before)
             && NoCodeAtZero(Loads(r.Base().phdrs))
    ensures StubClear(next.before) && StubMoves(next)
  {
    ClearAfter(r, next.before);
    IsAppendRun(r);
    StubInRegion(r);
    PriorIsDataLoad(r.Site(), r.after, next.before);
    NextStubMoves(r.after, next);
  }

  ghost predicate ClearAt(rs: seq<Run>, k: nat)
    requires k < |rs|
  {
    AllClear(rs, k) && IsRun(rs[k]) && StubMoves(rs[k])
  }

  lemma ClearFirst(first: Image, rs: seq<Run>)
    requires rs != [] && Chain(first, rs) && PriorLoad(first).None? && first.FindSection(STUB).None?
    ensures ClearAt(rs, 0)
  {
    assert RunAt(rs, 0) && FollowsAt(first, rs, 0);
    NextStubMoves(first, rs[0]);
  }

  lemma ClearNext(first: Image, rs: seq<Run>, k: nat)
    requires 0 < k < |rs| && ClearAt(rs, k - 1) && BaseAt(first, rs, k - 1) && Chain(first, rs)
    requires NoCodeAtZero(Loads(first.phdrs))
    ensures ClearAt(rs, k)
  {
    assert RunAt(rs, k) && FollowsAt(first, rs, k);
    ClearStep(rs[k - 1], rs[k]);
  }

  lemma {:induction false} ClearStays(first: Image, rs: seq<Run>, k: nat)
    requires Chain(first, rs) && k < |rs| && PriorLoad(first).None?
    requires first.FindSection(STUB).None? && NoCodeAtZero(Loads(first.phdrs))
    ensures ClearAt(rs, k)
  {
    if k == 0 {
      ClearFirst(first, rs);
    } else {
      ClearStays(first, rs, k - 1);
      ClearOnly(rs, k - 1);
      BaseStays(first, rs, k - 1);
      ClearNext(first, rs, k);
    }
  }

  lemma ClearOnly(rs: seq<Run>, k: nat)
    requires k < |rs| && ClearAt(rs, k)
    ensures AllClear(rs, k)
  {
  }

  /** A program without a stub and without code placed at zero never gains or loses
      a load by being patched, whatever stubs and notes are installed in between. */
  lemma UnstubbedNeverPileUp(first: Image, rs: seq<Run>, k: nat)
    requires Chain(first, rs) && k < |rs| && PriorLoad(first).None?
    requires first.FindSection(STUB).None? && NoCodeAtZero(Loads(first.phdrs))
    ensures IsRun(rs[k]) && rs[k].Site().g.region.dataLen <= rs[k].Site().g.region.len
    ensures Loads(rs[k].after.phdrs) == Loads(first.phdrs) + NewLoads(rs[k].Site().g.region, rs[k].Site().g.at)
  {
    ClearStays(first, rs, k);
    ClearOnly(rs, k);
    LoadsNeverPileUp(first, rs, k);
  }

  // ---- The files of a chain ----

  /** The append path wrote `out` over `original`, an input its theorems cover. */
  ghost predicate Patches(r: Run, original: seq<byte>, out: seq<byte>)
  {
    && IsRun(r) && r.len == |original|
    && Relayout.AppendResult(r.before, GrownSections(r.before), r.page, true, original) == Ok(out)
    && ParserShaped(r.Base()) && PlainCounts(r.after)
  }

  /** File `k` is parsed, edited and patched into the next. */
  ghost predicate PatchedAt(files: seq<seq<byte>>, rs: seq<Run>, k: nat)
    requires k < |rs| && |files| == |rs| + 1
  {
    Patches(rs[k], files[k], files[k + 1]) && Parse(files[k]).Ok? && Edited(Parse(files[k]).value, rs[k].before)
  }

  /** Each file is parsed, edited and patched into the next. */
  ghost predicate PatchedFiles(files: seq<seq<byte>>, rs: seq<Run>)
  {
    |files| == |rs| + 1 && forall k: nat :: k < |rs| ==> PatchedAt(files, rs, k)
  }

  lemma OnePatch(o: Image, r: Run, file: seq<byte>, out: seq<byte>)
    requires Patches(r, file, out) && Parse(file) == Ok(o) && Edited(o, r.before)
    ensures PatchedFiles([file, out], [r])
  {
    forall k: nat | k < 1 ensures PatchedAt([file, out], [r], k) {
      assert k == 0;
    }
  }

  /** Patches at the same places. */
  lemma SamePatch(files: seq<seq<byte>>, rs: seq<Run>, k: nat, fs: seq<seq<byte>>, qs: seq<Run>, j: nat)
    requires PatchedFiles(files, rs) && k < |rs| && j < |qs| && |fs| == |qs| + 1
    requires rs[k] == qs[j] && files[k] == fs[j] && files[k + 1] == fs[j + 1]
    ensures PatchedAt(fs, qs, j)
  {
    assert PatchedAt(files, rs, k);
  }

  lemma LaterPatch(file: seq<byte>, r: Run, files: seq<seq<byte>>, rs: seq<Run>, k: nat)
    requires PatchedFiles(files, rs) && 0 < k <= |rs|
    ensures PatchedAt([file] + files, [r] + rs, k)
  {
    var fs, qs := [file] + files, [r] + rs;
    assert rs[k - 1] == qs[k] && files[k - 1] == fs[k] && files[k] == fs[k + 1];
    SamePatch(files, rs, k - 1, fs, qs, k);
  }

  lemma FirstPatch(file: seq<byte>, r: Run, files: seq<seq<byte>>, rs: seq<Run>)
    requires |files| == |rs| + 1 && PatchedFiles([file, files[0]], [r])
    ensures PatchedAt([file] + files, [r] + rs, 0)
  {
    SamePatch([file, files[0]], [r], 0, [file] + files, [r] + rs, 0);
  }

  /** A patch in front of files that start with the one it writes. */
  lemma PatchedCons(file: seq<byte>, r: Run, files: seq<seq<byte>>, rs: seq<Run>)
    requires PatchedFiles(files, rs) && PatchedFiles([file, files[0]], [r])
    ensures PatchedFiles([file] + files, [r] + rs)
  {
    FirstPatch(file, r, files, rs);
    forall k: nat | 0 < k <= |rs| ensures PatchedAt([file] + files, [r] + rs, k) {
      LaterPatch(file, r, files, rs, k);
    }
  }

  /** What the next run reads is what this one wrote. */
  lemma PatchParses(r: Run, original: seq<byte>, out: seq<byte>)
    requires Patches(r, original, out)
    ensures Parse(out) == Ok(Reparsed(r.after))
  {
    var start := RegionStart(r.before, true);
    var f := Relayout.AppendResultAppends(r.before, GrownSections(r.before), r.page, true, original, out);
    assert r.CutAt() == Relayout.Cut(start, original);
    AppendParses(r.Base(), r.Flags(), r.CutAt(), r.page, original, f, out);
  }

  /** Reading the file again drops nothing an edit is compared with. */
  lemma EditedReparsed(f: Image, v: Image)
    requires Edited(Reparsed(f), v)
    ensures Edited(f, v)
  {
    forall i | 0 <= i < |f.shdrs|
      ensures SamePlace(f.shdrs[i], v.shdrs[i]) && v.SectionName(i) == f.SectionName(i)
    {
      assert Reparsed(f).SectionName(i) == f.SectionName(i);
    }
  }

  lemma FileRun(files: seq<seq<byte>>, rs: seq<Run>, k: nat)
    requires k < |rs| && |files| == |rs| + 1 && PatchedAt(files, rs, k)
    ensures RunAt(rs, k)
  {
  }

  lemma FirstEdited(files: seq<seq<byte>>, rs: seq<Run>, first: Image)
    requires rs != [] && |files| == |rs| + 1 && PatchedAt(files, rs, 0) && Parse(files[0]) == Ok(first)
    ensures FollowsAt(first, rs, 0)
  {
  }

  lemma NextEdited(files: seq<seq<byte>>, rs: seq<Run>, first: Image, k: nat)
    requires 0 < k < |rs| && |files| == |rs| + 1 && PatchedAt(files, rs, k - 1) && PatchedAt(files, rs, k)
    ensures FollowsAt(first, rs, k)
  {
    PatchParses(rs[k - 1], files[k - 1], files[k]);
    EditedReparsed(rs[k - 1].after, rs[k].before);
  }

  lemma FilesChain(files: seq<seq<byte>>, rs: seq<Run>, first: Image)
    requires PatchedFiles(files, rs) && Parse(files[0]) == Ok(first)
    ensures Chain(first, rs)
  {
    forall k: nat | k < |rs| ensures RunAt(rs, k) && FollowsAt(first, rs, k) {
      assert PatchedAt(files, rs, k);
      FileRun(files, rs, k);
      if k == 0 {
        FirstEdited(files, rs, first);
      } else {
        NextEdited(files, rs, first, k);
      }
    }
  }

  lemma LastParses(files: seq<seq<byte>>, rs: seq<Run>, k: nat)
    requires PatchedFiles(files, rs) && k < |rs|
    ensures Parse(files[k + 1]) == Ok(Reparsed(rs[k].after))
  {
    assert PatchedAt(files, rs, k);
    PatchParses(rs[k], files[k], files[k + 1]);
  }

  /** Patch a file any number of times: every file read back has the loads of the
      first one, unchanged, and behind them those of one region. */
  lemma FilesNeverPileUp(files: seq<seq<byte>>, rs: seq<Run>, first: Image, k: nat) returns (last: Image)
    requires PatchedFiles(files, rs) && k < |rs| && Parse(files[0]) == Ok(first)
    requires PriorLoad(first).None? && first.FindSection(STUB).None? && NoCodeAtZero(Loads(first.phdrs))
    ensures Parse(files[k + 1]) == Ok(last) && IsRun(rs[k])
            && rs[k].Site().g.region.dataLen <= rs[k].Site().g.region.len
    ensures Loads(last.phdrs) == Loads(first.phdrs) + NewLoads(rs[k].Site().g.region, rs[k].Site().g.at)
  {
    FilesChain(files, rs, first);
    UnstubbedNeverPileUp(first, rs, k);
    LastParses(files, rs, k);
    last := Reparsed(rs[k].after);
  }
}
