/** Repeated append relayouts (src/layout.rs): each run finds the loads the run
    before left, drops exactly those, and so never piles them up. */
module Reclaim {
  import opened Ir
  import opened Align
  import opened Serialize
  import opened Layout
  import opened RegionFacts
  import opened Shape
  import opened Placed
  import opened Segments
  import opened Accepted
  import opened Dynamic
  import Append
  import AppendTheorems

  /** A run of the append layout: its region starts at the program header table. */
  ghost predicate AppendRun(job: Job, f: Image)
  {
    Ready(job) && Yields(job, f) && !job.front && job.g.phoff == job.g.at.off && job.hi <= job.g.at.off
  }

  /** No original load starts in the file where the region does. */
  ghost predicate NoLoadAt(job: Job)
  {
    forall p :: p in Loads(job.img.phdrs) ==> p.offset != job.g.at.off
  }

  // ---- The header table after a run, and after edits ----

  /** The same load, or no load before and after. */
  predicate SameLoad(o: Phdr, p: Phdr)
  {
    (p.ptype == PT_LOAD <==> o.ptype == PT_LOAD) && (o.ptype == PT_LOAD ==> p == o)
  }

  /** A table of the original loads, then the new ones, then entries that map nothing. */
  ghost predicate Extends(orig: seq<Phdr>, news: seq<Phdr>, t: seq<Phdr>)
  {
    && |orig| + |news| <= |t| && t[|orig|..|orig| + |news|] == news
    && (forall i :: 0 <= i < |orig| ==> SameLoad(orig[i], t[i]))
    && forall i :: |orig| + |news| <= i < |t| ==> t[i].ptype != PT_LOAD
  }

  lemma TableOf(orig: seq<Phdr>, news: seq<Phdr>, t: seq<Phdr>)
    requires |t| == |orig| + |news| && forall p :: p in news ==> p.ptype == PT_LOAD
    requires forall x :: 0 <= x < |t| ==> SameLoad((orig + news)[x], t[x])
    ensures Extends(orig, news, t)
  {
    forall x | 0 <= x < |news| ensures t[|orig| + x] == news[x] {
      assert (orig + news)[|orig| + x] == news[x];
      assert news[x] in news;
    }
    forall i | 0 <= i < |orig| ensures SameLoad(orig[i], t[i]) {
      assert (orig + news)[i] == orig[i];
    }
  }

  /** What the later lemmas use of a run. */
  lemma RunFacts(job: Job, f: Image)
    requires AppendRun(job, f)
    ensures job.g.region.dataLen <= job.g.region.len && f.ehdr.phoff == job.g.at.off
    ensures Extends(job.img.phdrs, NewLoads(job.g.region, job.g.at), f.phdrs)
  {
    SyncedEntries(job, f);
    var p := PushedPhdrs(job.img, job.g, false);
    forall x | 0 <= x < |p| ensures SameLoad(p[x], f.phdrs[x]) {
    }
    TableOf(job.img.phdrs, NewLoads(job.g.region, job.g.at), f.phdrs);
    FinalFields(job.img, job.g, job.note, job.front, f);
  }

  /** The section stands where it stood; an edit at most reset its size. */
  predicate SamePlace(o: Shdr, s: Shdr)
  {
    s.shtype == o.shtype && s.flags == o.flags && s.offset == o.offset && s.addr == o.addr
      && (s.size == o.size || s.size == 0)
  }

  predicate Unplaced(s: Shdr)
  {
    s.offset == 0 && s.addr == 0 && s.size == 0
  }

  /** What edits between two runs leave alone: the loads, and every section's name
      and place. Headers they push map nothing, sections they push have no place yet. */
  ghost predicate Edited(f: Image, v: Image)
  {
    && v.enc == f.enc && v.ehdr.phoff == f.ehdr.phoff
    && |f.phdrs| <= |v.phdrs| && |f.shdrs| <= |v.shdrs|
    && (forall i :: 0 <= i < |f.phdrs| ==> SameLoad(f.phdrs[i], v.phdrs[i]))
    && (forall i :: |f.phdrs| <= i < |v.phdrs| ==> v.phdrs[i].ptype != PT_LOAD)
    && (forall i :: 0 <= i < |f.shdrs| ==> SamePlace(f.shdrs[i], v.shdrs[i]) && v.SectionName(i) == f.SectionName(i))
    && forall i :: |f.shdrs| <= i < |v.shdrs| ==> Unplaced(v.shdrs[i])
  }

  lemma EditedTable(orig: seq<Phdr>, news: seq<Phdr>, f: Image, v: Image)
    requires Extends(orig, news, f.phdrs) && Edited(f, v) && forall p :: p in news ==> p.ptype == PT_LOAD
    ensures Extends(orig, news, v.phdrs)
  {
    var n := |orig|;
    forall x | 0 <= x < |news| ensures v.phdrs[n + x] == news[x] {
      assert f.phdrs[n..n + |news|][x] == news[x] && news[x] in news;
      assert SameLoad(f.phdrs[n + x], v.phdrs[n + x]);
    }
    forall i | 0 <= i < n ensures SameLoad(orig[i], v.phdrs[i]) {
      assert SameLoad(orig[i], f.phdrs[i]) && SameLoad(f.phdrs[i], v.phdrs[i]);
    }
  }

  /** The stub section keeps its place under edits; a new one has none. */
  lemma EditedStub(f: Image, v: Image)
    requires Edited(f, v)
    ensures match f.FindSection(STUB)
            case Some(s) => v.FindSection(STUB) == Some(s) && s < |v.shdrs| && SamePlace(f.shdrs[s], v.shdrs[s])
            case None => v.FindSection(STUB).Some? ==> Unplaced(v.shdrs[v.FindSection(STUB).value])
  {
    match f.FindSection(STUB) {
      case Some(s) =>
        forall j | 0 <= j < s ensures !v.Named(STUB)[j] {
          assert !f.Named(STUB)[j];
        }
        FirstTrueIs(v.Named(STUB), s);
      case None =>
        forall i | 0 <= i < |f.shdrs| ensures v.SectionName(i) != Some(STUB) {
          assert f.Named(STUB)[i] == (f.SectionName(i) == Some(STUB));
        }
    }
  }

  lemma KeptLoadIn(phdrs: seq<Phdr>, i: nat)
    requires i < |phdrs| && phdrs[i].ptype == PT_LOAD
    ensures phdrs[i] in Loads(phdrs)
  {
    LoadsMembers(phdrs, phdrs[i]);
  }

  lemma LoadsOfParts(a: seq<Phdr>, b: seq<Phdr>, c: seq<Phdr>)
    requires Loads(c) == []
    ensures Loads(a + b + c) == Loads(a) + Loads(b)
  {
    LoadsConcat(a, b);
    LoadsConcat(a + b, c);
  }

  lemma SameHead(orig: seq<Phdr>, t: seq<Phdr>)
    requires |orig| <= |t| && forall i :: 0 <= i < |orig| ==> SameLoad(orig[i], t[i])
    ensures Loads(t[..|orig|]) == Loads(orig)
  {
    LoadsPointwise(t[..|orig|], orig);
  }

  lemma NoneAfter(t: seq<Phdr>, m: nat)
    requires m <= |t| && forall i :: m <= i < |t| ==> t[i].ptype != PT_LOAD
    ensures Loads(t[m..]) == []
  {
    NoLoads(t[m..]);
  }

  lemma ThreeParts(t: seq<Phdr>, n: nat, m: nat)
    requires n <= m <= |t|
    ensures t[..n] + t[n..m] + t[m..] == t
  {
    assert t[..n] + t[n..m] == t[..m];
  }

  /** A table that extends another has its loads and the new ones. */
  lemma ExtendsLoads(orig: seq<Phdr>, news: seq<Phdr>, t: seq<Phdr>)
    requires Extends(orig, news, t)
    ensures Loads(t) == Loads(orig) + Loads(news)
  {
    var n, m := |orig|, |orig| + |news|;
    SameHead(orig, t);
    NoneAfter(t, m);
    LoadsOfParts(t[..n], news, t[m..]);
    ThreeParts(t, n, m);
  }

  /** The first of the new loads taken out. */
  lemma WithoutFirst(orig: seq<Phdr>, news: seq<Phdr>, t: seq<Phdr>)
    requires Extends(orig, news, t) && news != []
    ensures Extends(orig, news[1..], Remove(t, |orig|))
  {
    var n, u := |orig|, Remove(t, |orig|);
    assert forall x :: n <= x < |u| ==> u[x] == t[x + 1];
    forall x | 0 <= x < |news| - 1 ensures u[n + x] == news[1..][x] {
      assert t[n..n + |news|][x + 1] == news[x + 1];
    }
  }

  // ---- What the next run finds ----

  lemma PriorAt(orig: seq<Phdr>, news: seq<Phdr>, v: Image)
    requires Extends(orig, news, v.phdrs) && news != []
    requires news[0].ptype == PT_LOAD && news[0].offset == v.ehdr.phoff
    requires forall p :: p in Loads(orig) ==> p.offset != v.ehdr.phoff
    ensures PriorLoad(v) == Some(|orig|)
  {
    var bs := Priors(v);
    forall j | 0 <= j < |orig| ensures !bs[j] {
      assert SameLoad(orig[j], v.phdrs[j]);
      if v.phdrs[j].ptype == PT_LOAD {
        KeptLoadIn(orig, j);
      }
    }
    assert v.phdrs[|orig|..|orig| + |news|][0] == news[0];
    FirstTrueIs(bs, |orig|);
  }

  /** The next run's search finds the region's data load. */
  lemma PriorIsDataLoad(job: Job, f: Image, v: Image)
    requires AppendRun(job, f) && NoLoadAt(job) && Edited(f, v)
    ensures PriorLoad(v) == Some(|job.img.phdrs|)
  {
    RunFacts(job, f);
    EditedTable(job.img.phdrs, NewLoads(job.g.region, job.g.at), f, v);
    PriorAt(job.img.phdrs, NewLoads(job.g.region, job.g.at), v);
  }

  /** The code that moves is the entry stub, whose alignment divides the page. */
  ghost predicate CodeIsStub(img: Image, flags: seq<bool>, page: nat)
    requires |flags| == |img.shdrs|
  {
    forall i: nat :: i < |flags| && flags[i] && Executable(img.shdrs[i]) ==>
      img.FindSection(STUB) == Some(i) && page > 0 && page % SecAlign(img, i) == 0
  }

  /** The stub, if the run moved code at all, starts the region's code part. */
  ghost predicate StubStarts(job: Job, f: Image)
  {
    job.g.region.loads == 2 ==>
      && f.FindSection(STUB).Some?
      && var s := f.shdrs[f.FindSection(STUB).value];
         s.offset == job.g.at.off + job.g.region.dataLen && s.addr == job.g.at.vaddr + job.g.region.dataLen
  }

  /** No load is placed as the stub, unless the stub lies in the region that starts
      at the program header table. */
  ghost predicate StubClear(v: Image)
  {
    match v.FindSection(STUB)
    case None => true
    case Some(s) => v.shdrs[s].offset < v.ehdr.phoff ==> forall p :: p in Loads(v.phdrs) ==> !IsStubLoad(p, v.shdrs[s])
  }

  /** The loads when the region's data load is gone. */
  lemma DataLoadGone(job: Job, f: Image, v: Image)
    requires AppendRun(job, f) && NoLoadAt(job) && Edited(f, v)
    ensures job.g.region.dataLen <= job.g.region.len && |job.img.phdrs| < |v.phdrs|
    ensures var w := Remove(v.phdrs, |job.img.phdrs|);
            && Extends(job.img.phdrs, NewLoads(job.g.region, job.g.at)[1..], w)
            && DropPrior(v, true) == match StubLoad(v.(phdrs := w))
                                     case None => v.(phdrs := w)
                                     case Some(x) => v.(phdrs := Remove(w, x))
  {
    RunFacts(job, f);
    PriorIsDataLoad(job, f, v);
    EditedTable(job.img.phdrs, NewLoads(job.g.region, job.g.at), f, v);
    WithoutFirst(job.img.phdrs, NewLoads(job.g.region, job.g.at), v.phdrs);
  }

  lemma SameNamed(v: Image, w: Image)
    requires w == v.(phdrs := w.phdrs)
    ensures w.FindSection(STUB) == v.FindSection(STUB)
  {
    assert w.Named(STUB) == v.Named(STUB);
  }

  lemma StubLoadAt(w: Image, s: nat, n: nat)
    requires w.FindSection(STUB) == Some(s) && n < |w.phdrs| && IsStubLoad(w.phdrs[n], w.shdrs[s])
    requires forall j :: 0 <= j < n ==> !IsStubLoad(w.phdrs[j], w.shdrs[s])
    ensures StubLoad(w) == Some(n)
  {
    FirstTrueIs(seq(|w.phdrs|, i requires 0 <= i < |w.phdrs| => IsStubLoad(w.phdrs[i], w.shdrs[s])), n);
  }

  /** No original load starts at the address of the region's code part. */
  lemma BelowCode(job: Job, p: Phdr, s: Shdr)
    requires Ready(job) && !job.front && job.g.region.loads == 2 && (p.ptype == PT_LOAD ==> p in Loads(job.img.phdrs))
    requires s.addr == job.g.at.vaddr + job.g.region.dataLen
    ensures !IsStubLoad(p, s)
  {
  }

  lemma NoneBelow(job: Job, phdrs: seq<Phdr>, s: Shdr)
    requires Ready(job) && !job.front && job.g.region.loads == 2 && s.addr == job.g.at.vaddr + job.g.region.dataLen
    requires |job.img.phdrs| <= |phdrs| && forall j :: 0 <= j < |job.img.phdrs| ==> SameLoad(job.img.phdrs[j], phdrs[j])
    ensures forall j :: 0 <= j < |job.img.phdrs| ==> !IsStubLoad(phdrs[j], s)
  {
    forall j | 0 <= j < |job.img.phdrs| ensures !IsStubLoad(phdrs[j], s) {
      assert SameLoad(job.img.phdrs[j], phdrs[j]);
      if phdrs[j].ptype == PT_LOAD {
        KeptLoadIn(job.img.phdrs, j);
      }
      BelowCode(job, phdrs[j], s);
    }
  }

  /** With a code part, the search for the stub's load finds that part's load. */
  lemma CodeLoadFound(job: Job, f: Image, v: Image, w: Image)
    requires AppendRun(job, f) && StubStarts(job, f) && Edited(f, v) && w == v.(phdrs := w.phdrs)
    requires job.g.region.loads == 2 && job.g.region.dataLen <= job.g.region.len
    requires Extends(job.img.phdrs, NewLoads(job.g.region, job.g.at)[1..], w.phdrs)
    ensures StubLoad(w) == Some(|job.img.phdrs|)
  {
    var n, s := |job.img.phdrs|, f.FindSection(STUB).value;
    EditedStub(f, v);
    SameNamed(v, w);
    NoneBelow(job, w.phdrs, w.shdrs[s]);
    assert w.phdrs[n..n + 1][0] == ExecLoad(job.g.region, job.g.at);
    FlagBits();
    StubLoadAt(w, s, n);
  }

  /** What the search for the stub's load finds among any loads. */
  lemma StubLoadAmong(w: Image)
    ensures StubLoad(w).None? <==>
              match w.FindSection(STUB) case None => true case Some(s) => forall p :: p in Loads(w.phdrs) ==>
                  !IsStubLoad(p, w.shdrs[s])
    ensures StubLoad(w).Some? ==> w.phdrs[StubLoad(w).value].ptype == PT_LOAD
  {
    if w.FindSection(STUB).Some? {
      var s := w.FindSection(STUB).value;
      var bs := seq(|w.phdrs|, i requires 0 <= i < |w.phdrs| => IsStubLoad(w.phdrs[i], w.shdrs[s]));
      assert StubLoad(w) == FirstTrue(bs);
      if StubLoad(w).Some? {
        assert bs[StubLoad(w).value];
        KeptLoadIn(w.phdrs, StubLoad(w).value);
      } else {
        forall p | p in Loads(w.phdrs) ensures !IsStubLoad(p, w.shdrs[s]) {
          LoadsMembers(w.phdrs, p);
          var i :| 0 <= i < |w.phdrs| && w.phdrs[i] == p;
          assert !bs[i];
        }
      }
    }
  }

  /** An original load lies before the region; the region's own starts there. */
  lemma BeforeRegion(job: Job, p: Phdr)
    requires SegmentsReady(job) && NoLoadAt(job) && job.hi <= job.g.at.off && p in Loads(job.img.phdrs)
    ensures p.offset < job.g.at.off
  {
    KeptLoadBound(job, p);
  }

  /** Whether the region's data load is among the loads makes no difference. */
  lemma DataLoadAside(job: Job, v: Image, loads: seq<Phdr>)
    requires SegmentsReady(job) && NoLoadAt(job) && job.hi <= job.g.at.off && v.ehdr.phoff == job.g.at.off
    requires loads == Loads(job.img.phdrs) && Loads(v.phdrs) == loads + [DataLoad(job.g.at)]
    ensures StubClear(v) <==> match v.FindSection(STUB) case None => true case Some(s) => forall p :: p in loads ==>
              !IsStubLoad(p, v.shdrs[s])
  {
    if v.FindSection(STUB).Some? {
      var s := v.shdrs[v.FindSection(STUB).value];
      forall p | p in loads
        ensures p.offset < v.ehdr.phoff && p in Loads(v.phdrs)
      {
        BeforeRegion(job, p);
      }
      assert forall p :: p in Loads(v.phdrs) ==> p in loads || p.offset == v.ehdr.phoff;
      if s.offset >= v.ehdr.phoff {
        assert forall p :: p in loads ==> !IsStubLoad(p, s);
      } else {
        assert (forall p :: p in loads ==> !IsStubLoad(p, s)) ==> forall p :: p in Loads(v.phdrs) ==> !IsStubLoad(p, s);
        assert (forall p :: p in Loads(v.phdrs) ==> !IsStubLoad(p, s)) ==> forall p :: p in loads ==> !IsStubLoad(p, s);
      }
    }
  }

  /** Without a code part it finds an original load, and only one placed as the stub. */
  lemma OriginalFound(job: Job, f: Image, v: Image, w: Image)
    requires AppendRun(job, f) && NoLoadAt(job) && Edited(f, v) && w == v.(phdrs := w.phdrs)
    requires job.g.region.loads != 2 && Loads(w.phdrs) == Loads(job.img.phdrs)
    ensures StubLoad(w).None? <==> StubClear(v)
    ensures StubLoad(w).Some? ==> w.phdrs[StubLoad(w).value].ptype == PT_LOAD
  {
    RunFacts(job, f);
    SameNamed(v, w);
    AllLoads(job, f, v);
    StubLoadAmong(w);
    DataLoadAside(job, v, Loads(w.phdrs));
  }

  /** The edited table's loads: the original ones and the region's. */
  lemma AllLoads(job: Job, f: Image, v: Image)
    requires AppendRun(job, f) && Edited(f, v)
    ensures job.g.region.dataLen <= job.g.region.len
    ensures Loads(v.phdrs) == Loads(job.img.phdrs) + NewLoads(job.g.region, job.g.at)
  {
    RunFacts(job, f);
    EditedTable(job.img.phdrs, NewLoads(job.g.region, job.g.at), f, v);
    ExtendsLoads(job.img.phdrs, NewLoads(job.g.region, job.g.at), v.phdrs);
    LoadsOfNew(job.g.region, job.g.at);
  }

  lemma RemoveLoad(phdrs: seq<Phdr>, x: nat)
    requires x < |phdrs| && phdrs[x].ptype == PT_LOAD
    ensures |Loads(Remove(phdrs, x))| == |Loads(phdrs)| - 1
  {
    var a, b := phdrs[..x], phdrs[x + 1..];
    assert phdrs == (a + [phdrs[x]]) + b;
    LoadsConcat(a + [phdrs[x]], b);
    LoadsSnoc(a, phdrs[x]);
    LoadsConcat(a, b);
  }

  /** Reclaiming drops exactly the loads the previous run added, if and only if no
      other load is placed as the stub; else it also drops one original load. */
  lemma ReclaimDropsRegion(job: Job, f: Image, v: Image)
    requires AppendRun(job, f) && NoLoadAt(job) && StubStarts(job, f) && Edited(f, v)
    ensures Loads(DropPrior(v, true).phdrs) == Loads(job.img.phdrs) <==> StubClear(v)
    ensures !StubClear(v) ==> |Loads(DropPrior(v, true).phdrs)| == |Loads(job.img.phdrs)| - 1
  {
    var orig := job.img.phdrs;
    DataLoadGone(job, f, v);
    var news, w := NewLoads(job.g.region, job.g.at), v.(phdrs := Remove(v.phdrs, |orig|));
    if job.g.region.loads == 2 {
      CodeLoadFound(job, f, v, w);
      WithoutFirst(orig, news[1..], w.phdrs);
      ExtendsLoads(orig, [], Remove(w.phdrs, |orig|));
      EditedStub(f, v);
      RunFacts(job, f);
    } else {
      ExtendsLoads(orig, [], w.phdrs);
      OriginalFound(job, f, v, w);
      if StubLoad(w).Some? {
        RemoveLoad(w.phdrs, StubLoad(w).value);
      }
    }
  }

  // ---- Where the stub goes ----

  lemma FirstCodeOffset(img: Image, s: nat, start: nat, page: nat)
    requires WellShaped(img) && s < |img.shdrs| && page > 0 && page % SecAlign(img, s) == 0
    ensures InRange(img, [s])
    ensures var dataLen := RoundUp(start, page); OffsetAt(img, [s], dataLen, 0) == dataLen
  {
    RoundUpFacts(start, page);
    var dataLen := RoundUp(start, page);
    DividesTrans(SecAlign(img, s), page, dataLen);
    assert [s][..0] == [];
    AlreadyRounded(dataLen, SecAlign(img, s));
  }

  lemma AlreadyRounded(v: nat, align: nat)
    requires align > 0 && v % align == 0
    ensures RoundUp(v, align) == v
  {
    RoundUpFacts(v, align);
    var r := RoundUp(v, align);
    DivModFacts(v, align);
    DivModFacts(r, align);
    BetweenMultiples(r / align - v / align, align, r - v);
  }

  /** A stub that is the only code moved starts the code part, when its alignment
      divides the page. */
  lemma StubStartsCode(img: Image, flags: seq<bool>, head1: nat, head2: nat, page: nat, s: nat)
    requires WellShaped(img) && |flags| == |img.shdrs| && page > 0
    requires s < |img.shdrs| && Indices(ExecFlags(img, flags)) == [s] && page % SecAlign(img, s) == 0
    ensures var r := Plan(img, flags, head1, head2, page);
            && r.loads == 2 && s in r.sections && r.sections[|r.sections| - 1] == s
            && r.offsets[|r.sections| - 1] == r.dataLen
  {
    var data := Indices(DataFlags(img, flags));
    IndicesFacts(DataFlags(img, flags));
    FirstCodeOffset(img, s, LayoutEnd(img, data, head2), page);
    var dataLen := RoundUp(LayoutEnd(img, data, head2), page);
    assert Offsets(img, [s], dataLen)[0] == dataLen;
  }

  lemma OnlyStub(img: Image, flags: seq<bool>, page: nat)
    requires |flags| == |img.shdrs| && CodeIsStub(img, flags, page) && Indices(ExecFlags(img, flags)) != []
    ensures img.FindSection(STUB).Some? && Indices(ExecFlags(img, flags)) == [img.FindSection(STUB).value]
    ensures page > 0 && page % SecAlign(img, img.FindSection(STUB).value) == 0
  {
    var code := Indices(ExecFlags(img, flags));
    IndicesFacts(ExecFlags(img, flags));
    assert code[0] in code;
    assert code[|code| - 1] in code;
  }

  /** Every append layout that succeeds is such a run. */
  lemma AppendIsRun(img: Image, flags: seq<bool>, cut: nat, page: nat)
    requires Append.AppendReady(img, flags, cut, page) && Appended(img, flags, cut, page).Ok?
    ensures AppendRun(Append.AppendJob(img, flags, cut, page), Appended(img, flags, cut, page).value)
    ensures Append.AppendJob(img, flags, cut, page).img.phdrs == img.phdrs
  {
    Append.AppendIsReady(img, flags, cut, page);
    Append.AppendOffsetFacts(img, cut, page);
    AppendTheorems.AppendedYields(img, flags, cut, page);
  }

  lemma StubPlace(job: Job, f: Image, s: nat)
    requires Yields(job, f) && NamesFixed(job.img) && job.img.FindSection(STUB) == Some(s)
    requires |job.flags| == |job.img.shdrs| && RegionOk(job.img, job.g.region, job.flags, job.head, job.g.at.page)
    requires var r := job.g.region;
             && r.sections != [] && r.sections[|r.sections| - 1] == s
             && r.offsets[|r.sections| - 1] == r.dataLen
    ensures StubStarts(job, f)
  {
    FinalFields(job.img, job.g, job.note, job.front, f);
    SameFind(job.img, f, STUB);
    MovedShdr(job, |job.g.region.sections| - 1);
  }

  lemma AppendCode(img: Image, flags: seq<bool>, page: nat)
    requires WellShaped(img) && |flags| == |img.shdrs| && CodeIsStub(img, flags, page)
    ensures var r := AppendRegion(img, flags, page);
            r.loads == 2 ==>
              && img.FindSection(STUB).Some? && r.sections != []
                && r.sections[|r.sections| - 1] == img.FindSection(STUB).value
              && r.offsets[|r.sections| - 1] == r.dataLen
  {
    if Indices(ExecFlags(img, flags)) != [] {
      OnlyStub(img, flags, page);
      StubStartsCode(img, flags, AppendPhtSize(img, 1) + ShtSize(img), AppendPhtSize(img, 2) + ShtSize(img), page,
                     img.FindSection(STUB).value);
    }
  }

  /** Moving no code but the stub puts the stub at the start of the code part. */
  lemma AppendStarts(img: Image, flags: seq<bool>, cut: nat, page: nat)
    requires Append.AppendReady(img, flags, cut, page) && Appended(img, flags, cut, page).Ok?
    requires CodeIsStub(img, flags, page)
    ensures StubStarts(Append.AppendJob(img, flags, cut, page), Appended(img, flags, cut, page).value)
  {
    var job, f := Append.AppendJob(img, flags, cut, page), Appended(img, flags, cut, page).value;
    AppendCode(img, flags, page);
    if job.g.region.loads == 2 {
      SameFind(img, job.img, STUB);
      Append.AppendRegionOk(img, flags, cut, page);
      AppendTheorems.AppendedYields(img, flags, cut, page);
      StubPlace(job, f, img.FindSection(STUB).value);
    }
  }
}
