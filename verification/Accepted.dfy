/** Both layouts establish the loader invariants of `Verify.Accepts` from
    conditions on their input, without relying on the check itself. */
module Accepted {
  import opened Bytes
  import opened Ir
  import opened Align
  import opened Layout
  import opened RegionFacts
  import opened Shape
  import opened Placed
  import opened Segments
  import opened Verify
  import Sorting
  import Codec

  /** Whether some section decides what an entry of this type frames. */
  predicate Targeted(img: Image, note: Option<nat>, i: nat)
    requires i < |img.phdrs|
  {
    TargetAt(img, note, 0, i).Some?
  }

  /** Entry `i` keeps its extent: no section decides it, or the index that should name
      it as the ld-cache note no longer does. */
  ghost predicate Unframed(job: Job, i: nat)
    requires i < |job.img.phdrs|
  {
    !Targeted(job.img, job.note, i) || (job.note == Some(i) && !NoteStays(job))
  }

  /** Entries that keep their extents stay inside the kept part of the file; sections
      that decide one occupy file space. */
  ghost predicate SegmentsBounded(job: Job)
  {
    && (forall i :: 0 <= i < |job.img.phdrs| && Unframed(job, i) ==>
          job.img.phdrs[i].offset + job.img.phdrs[i].filesz <= job.hi)
    && (forall name :: name in [INTERP, ABIFLAGS, LDCACHE] && job.img.FindSection(name).Some? ==>
          job.img.shdrs[job.img.FindSection(name).value].shtype != SHT_NOBITS)
  }

  ghost predicate SegmentsReady(job: Job)
  {
    NoteReady(job) && SegmentsBounded(job)
  }

  /** The kept loads are sound, and the region lies clear of them in memory, at
      an aligned place. */
  ghost predicate MemSite(job: Job)
  {
    var at, loads := job.g.at, Loads(job.img.phdrs);
    && job.g.region.dataLen <= job.g.region.len
    && (forall p :: p in job.img.phdrs ==> ValidAlign(p.align))
    && (forall p :: p in loads ==> LoadOk(p))
    && MemoryDisjoint(loads)
    && ValidAlign(at.align) && ValidAlign(at.page)
    && (at.align > 0 ==> at.off % at.align == 0 && at.vaddr % at.align == 0)
    && (at.page > 0 ==> at.off % at.page == 0 && at.vaddr % at.page == 0)
    && job.g.region.dataLen <= at.filesz
    && (job.g.region.loads == 2 ==> at.filesz == job.g.region.dataLen)
    && at.off + at.filesz <= job.g.total
    && (if job.front then forall p :: p in loads ==> at.vaddr + Max(at.filesz, job.g.region.len) <= p.vaddr
        else forall p :: p in loads ==> p.vaddr + p.memsz <= at.vaddr)
  }

  /** The address the kernel derives for the new table is the one the region has. */
  ghost predicate AnchorReady(job: Job)
  {
    var at, loads := job.g.at, Loads(job.img.phdrs);
    FindPhdr(job.img.phdrs, PT_PHDR).Some? ==>
      if job.front then at.off == 0
      else
        && loads != []
        && MinOffset(loads).offset <= at.off
        && at.vaddr - at.off == MinOffset(loads).vaddr - MinOffset(loads).offset
  }

  /** Every load's file range ends before the kept content does. */
  lemma KeptLoadBound(job: Job, p: Phdr)
    requires SegmentsReady(job) && p in Loads(job.img.phdrs)
    ensures p.offset + p.filesz <= job.hi
  {
    LoadsMembers(job.img.phdrs, p);
    var i :| 0 <= i < |job.img.phdrs| && job.img.phdrs[i] == p;
    assert job.note != Some(i);
    assert Unframed(job, i);
  }

  // ---- The new loads ----

  lemma NewLoadsOk(job: Job, head: nat)
    requires |job.flags| == |job.img.shdrs| && RegionOk(job.img, job.g.region, job.flags, head, job.g.at.page)
    requires MemSite(job)
    ensures forall p :: p in NewLoads(job.g.region, job.g.at) ==> LoadOk(p) && ValidAlign(p.align)
  {
    var at, r := job.g.at, job.g.region;
    if at.page > 0 && r.loads == 2 {
      AddMultiples(at.off, r.dataLen, at.page);
      AddMultiples(at.vaddr, r.dataLen, at.page);
    }
    FlagBits();
  }

  lemma FlagBits()
    ensures HasFlag(PF_R + PF_W, PF_W) && !HasFlag(PF_R + PF_W, PF_X)
    ensures HasFlag(PF_R + PF_X, PF_X) && !HasFlag(PF_R + PF_X, PF_W)
  {
  }

  lemma FinalAligns(job: Job, f: Image)
    requires FileReady(job) && Yields(job, f) && NoteReady(job) && MemSite(job)
    ensures forall p :: p in f.phdrs ==> ValidAlign(p.align)
    ensures forall p :: p in Loads(f.phdrs) ==> LoadOk(p)
  {
    NewLoadsOk(job, job.head);
    SyncedEntries(job, f);
    PushedEntries(job.img, job.g, job.front);
    FinalLoads(job, f);
    var p := PushedPhdrs(job.img, job.g, job.front);
    forall x | 0 <= x < |f.phdrs|
      ensures ValidAlign(f.phdrs[x].align)
    {
      assert f.phdrs[x].align == p[x].align;
      if p[x] !in NewLoads(job.g.region, job.g.at) {
        var i :| 0 <= i < |job.img.phdrs| && NewIndex(job.img, job.g, job.front, i) == x;
        assert job.img.phdrs[i] in job.img.phdrs;
      }
    }
  }

  /** The loads of the final image, in table order. */
  function JoinedLoads(job: Job): seq<Phdr>
    requires job.g.region.dataLen <= job.g.region.len
  {
    var loads, news := Loads(job.img.phdrs), NewLoads(job.g.region, job.g.at);
    if job.front then news + loads else loads + news
  }

  lemma JoinedDisjoint(job: Job)
    requires MemSite(job)
    ensures MemoryDisjoint(JoinedLoads(job))
  {
    var loads, news := Loads(job.img.phdrs), NewLoads(job.g.region, job.g.at);
    NewLoadsDisjoint(job.g.region, job.g.at);
    if job.front {
      DisjointConcat(news, loads);
    } else {
      DisjointConcat(loads, news);
    }
  }

  /** No load of the final image overlaps another in memory. */
  lemma FinalDisjoint(job: Job, f: Image)
    requires Yields(job, f) && NoteReady(job) && MemSite(job)
    ensures MemoryDisjoint(Loads(f.phdrs))
  {
    FinalLoads(job, f);
    JoinedDisjoint(job);
  }

  /** Loads that all lie below others join without overlap. */
  lemma DisjointConcat(a: seq<Phdr>, b: seq<Phdr>)
    requires MemoryDisjoint(a) && MemoryDisjoint(b)
    requires forall p, q :: p in a && q in b ==> p.vaddr + p.memsz <= q.vaddr
    ensures MemoryDisjoint(a + b)
  {
    var sa, sb := Sorting.Sort(a, VaddrOf), Sorting.Sort(b, VaddrOf);
    Sorting.SortConcat(a, b, VaddrOf);
    if a != [] && b != [] {
      Sorting.SortSorted(a, VaddrOf);
      Sorting.SortSorted(b, VaddrOf);
      Sorting.PermutationMembers(sa, a, sa[|sa| - 1]);
      Sorting.PermutationMembers(sb, b, sb[0]);
    }
    AscendingConcat(sa, sb);
  }

  lemma NewLoadsDisjoint(r: Region, at: Site)
    requires r.dataLen <= r.len && (r.loads == 2 ==> at.filesz <= r.dataLen)
    ensures MemoryDisjoint(NewLoads(r, at))
  {
    Sorting.SortOfSorted(NewLoads(r, at), VaddrOf);
  }

  lemma AscendingConcat(a: seq<Phdr>, b: seq<Phdr>)
    requires Ascending(a) && Ascending(b)
    requires a != [] && b != [] ==> a[|a| - 1].vaddr + a[|a| - 1].memsz <= b[0].vaddr
    ensures Ascending(a + b)
  {
    var s := a + b;
    forall i | 0 <= i < |s| - 1
      ensures s[i].vaddr + s[i].memsz <= s[i + 1].vaddr
    {
      if i < |a| - 1 {
      } else if i == |a| - 1 {
        assert s[i + 1] == b[0];
      } else {
        assert s[i] == b[i - |a|] && s[i + 1] == b[i + 1 - |a|];
      }
    }
  }

  /** The new table lies inside the region's data load. */
  lemma FinalPht(job: Job, f: Image)
    requires FileReady(job) && Yields(job, f) && NoteReady(job) && MemSite(job)
    ensures PhtCovered(f, Loads(f.phdrs))
  {
    FinalFields(job.img, job.g, job.note, job.front, f);
    FinalLoads(job, f);
    var d := DataLoad(job.g.at);
    assert d == NewLoads(job.g.region, job.g.at)[0];
    assert d in Loads(f.phdrs);
    assert FileRangeIn(d, f.ehdr.phoff, f.ehdr.phoff + |f.phdrs| * f.ehdr.phentsize);
  }

  lemma {:induction false} MinOffsetAppend(a: seq<Phdr>, b: seq<Phdr>)
    requires a != [] && forall q :: q in b ==> MinOffset(a).offset <= q.offset
    ensures MinOffset(a + b) == MinOffset(a)
    decreases |b|
  {
    if b == [] {
      assert a + b == a;
    } else {
      MinOffsetAppend(a, b[..|b| - 1]);
      assert (a + b)[..|a + b| - 1] == a + b[..|b| - 1];
      assert b[|b| - 1] in b;
    }
  }

  lemma FinalAnchor(job: Job, f: Image)
    requires Yields(job, f) && NoteReady(job) && MemSite(job) && AnchorReady(job)
    requires FileReady(job) && NamesFixed(job.img)
    ensures PhdrAnchor(f, Loads(f.phdrs))
  {
    var found := FindPhdr(f.phdrs, PT_PHDR);
    if found.Some? {
      FinalFields(job.img, job.g, job.note, job.front, f);
      SegmentsFrame(job, f, found.value);
      FindOriginal(job, f, PT_PHDR);
      FinalLoads(job, f);
      JoinedBase(job);
    }
  }

  /** The lowest-offset load: the region's in front, the original one otherwise. */
  lemma JoinedBase(job: Job)
    requires job.g.region.dataLen <= job.g.region.len
    requires job.front ==> job.g.at.off == 0
    requires !job.front ==> Loads(job.img.phdrs) != [] && MinOffset(Loads(job.img.phdrs)).offset <= job.g.at.off
    ensures JoinedLoads(job) != []
    ensures MinOffset(JoinedLoads(job)) == if job.front then DataLoad(job.g.at) else MinOffset(Loads(job.img.phdrs))
  {
    var loads, news := Loads(job.img.phdrs), NewLoads(job.g.region, job.g.at);
    if job.front {
      assert [news[0]] + (news[1..] + loads) == news + loads;
      MinOffsetAppend([news[0]], news[1..] + loads);
    } else {
      MinOffsetAppend(loads, news);
    }
  }

  /** The final table has an entry of a type other than `PT_LOAD` only if the original had. */
  lemma FindOriginal(job: Job, f: Image, t: u32)
    requires Yields(job, f) && NoteReady(job) && t != PT_LOAD
    requires FindPhdr(f.phdrs, t).Some?
    ensures FindPhdr(job.img.phdrs, t).Some?
    ensures exists i ::
              0 <= i < |job.img.phdrs| && job.img.phdrs[i].ptype == t
                && NewIndex(job.img, job.g, job.front, i) == FindPhdr(f.phdrs, t).value
  {
    SyncedEntries(job, f);
    PushedOriginal(job.img, job.g, job.front, FindPhdr(f.phdrs, t).value, t);
  }

  lemma PushedOriginal(img: Image, g: Geometry, front: bool, x: nat, t: u32)
    requires g.region.dataLen <= g.region.len && t != PT_LOAD
    requires x < |PushedPhdrs(img, g, front)| && PushedPhdrs(img, g, front)[x].ptype == t
    ensures FindPhdr(img.phdrs, t).Some?
    ensures exists i :: 0 <= i < |img.phdrs| && img.phdrs[i].ptype == t && NewIndex(img, g, front, i) == x
  {
    PushedEntries(img, g, front);
    var i :| 0 <= i < |img.phdrs| && NewIndex(img, g, front, i) == x;
    assert PushedPhdrs(img, g, front)[NewIndex(img, g, front, i)] == img.phdrs[i];
  }

  // ---- Where moved sections live ----

  /** The new load that carries the region's `k`th section. */
  function Home(job: Job, k: nat): Phdr
    requires Placeable(job.img, job.g.region) && k < |job.g.region.sections| && job.g.region.dataLen <= job.g.region.len
  {
    if Executable(job.img.shdrs[job.g.region.sections[k]]) then ExecLoad(job.g.region, job.g.at) else DataLoad(job.g.at)
  }

  /** A moved section lies in its load's file and memory ranges, at the same
      distance from both starts; code in R+X, everything else in R+W. */
  lemma HomeCovers(job: Job, k: nat)
    requires FileReady(job) && MemSite(job) && k < |job.g.region.sections|
    ensures var p, rel, end := Home(job, k), job.g.region.offsets[k], RelEnd(job.img, job.g.region, k);
            && p in NewLoads(job.g.region, job.g.at)
            && p.filesz == p.memsz && p.paddr == p.vaddr && HasFlag(p.flags, PF_R)
            && FileRangeIn(p, job.g.at.off + rel, job.g.at.off + end)
            && p.vaddr <= job.g.at.vaddr + rel && job.g.at.vaddr + end <= p.vaddr + p.memsz
            && job.g.at.vaddr + rel - p.vaddr == job.g.at.off + rel - p.offset
            && HasFlag(p.flags, PF_X) == Executable(job.img.shdrs[job.g.region.sections[k]])
            && HasFlag(p.flags, PF_W) == !Executable(job.img.shdrs[job.g.region.sections[k]])
  {
    assert SectionPlaced(job.img, job.g.region, k, job.head);
    FlagBits();
    var news := NewLoads(job.g.region, job.g.at);
    assert news[0] in news;
    if job.g.region.loads == 2 {
      assert news[1] in news;
    }
  }

  lemma JoinedMembers(job: Job, f: Image)
    requires Yields(job, f) && NoteReady(job)
    ensures forall p :: p in Loads(f.phdrs) <==> p in Loads(job.img.phdrs) || p in NewLoads(job.g.region, job.g.at)
  {
    FinalLoads(job, f);
  }

  /** Final address and offset of section `i`. */
  lemma FinalShdr(job: Job, f: Image, i: nat)
    requires FileReady(job) && Yields(job, f) && i < |job.img.shdrs|
    ensures i < |f.shdrs| && f.shdrs[i].shtype == job.img.shdrs[i].shtype && f.shdrs[i].link == job.img.shdrs[i].link
    ensures !job.flags[i] ==> f.shdrs[i] == job.img.shdrs[i]
    ensures job.flags[i] ==>
              && i in job.g.region.sections
              && var k := IndexOf(job.g.region.sections, i);
              && f.shdrs[i].addr == job.g.at.vaddr + job.g.region.offsets[k]
              && f.shdrs[i].offset == job.g.at.off + job.g.region.offsets[k]
              && f.shdrs[i].size == SectionLen(job.img, i)
  {
    FinalFields(job.img, job.g, job.note, job.front, f);
    if job.flags[i] {
      MovedShdr(job, IndexOf(job.g.region.sections, i));
    } else {
      KeptShdr(job, i);
    }
  }

  lemma AlignedSum(a: nat, d: nat, base: nat, rel: nat)
    requires a > 0 && d > 0 && base % d == 0 && d % a == 0 && rel % a == 0
    ensures (base + rel) % a == 0
  {
    DividesTrans(a, d, base);
    DivModFacts(base, a);
    DivModFacts(rel, a);
    ModOfMultiple(base / a + rel / a, a);
    assert base + rel == (base / a + rel / a) * a;
  }

  /** A moved section is aligned as its header asks, in the file and in memory, unless it
      asks for more than the region's own alignment. */
  lemma FinalAligned(job: Job, f: Image, i: nat, d: nat)
    requires FileReady(job) && MemSite(job) && Yields(job, f) && i < |job.img.shdrs| && job.flags[i]
    requires PowerOfTwo(job.img.shdrs[i].addralign) && d in {job.g.at.align, job.g.at.page}
    requires job.img.shdrs[i].addralign <= d
    ensures var s := f.shdrs; i < |s| && s[i].addralign == job.img.shdrs[i].addralign
                              && s[i].addr % s[i].addralign == 0 && s[i].offset % s[i].addralign == 0
  {
    FinalShdr(job, f, i);
    AskedAlign(job, f, i);
    var a, rel := job.img.shdrs[i].addralign, job.g.region.offsets[IndexOf(job.g.region.sections, i)];
    SlotAligned(job, i, a);
    SiteAligned(job, a, d);
    PlaceAligned(f.shdrs[i], a, d, job.g.at.off, job.g.at.vaddr, rel);
  }

  lemma PlaceAligned(s: Shdr, a: nat, d: nat, off: nat, vaddr: nat, rel: nat)
    requires a > 0 && d > 0 && d % a == 0 && rel % a == 0 && off % d == 0 && vaddr % d == 0
    requires s.addr == vaddr + rel && s.offset == off + rel
    ensures s.addr % a == 0 && s.offset % a == 0
  {
    AlignedSum(a, d, vaddr, rel);
    AlignedSum(a, d, off, rel);
  }

  lemma AskedAlign(job: Job, f: Image, i: nat)
    requires FileReady(job) && Yields(job, f) && i < |job.img.shdrs|
    ensures i < |f.shdrs| && f.shdrs[i].addralign == job.img.shdrs[i].addralign
  {
    FinalFields(job.img, job.g, job.note, job.front, f);
  }

  lemma SlotAligned(job: Job, i: nat, a: nat)
    requires FileReady(job) && i in job.g.region.sections && i < |job.img.shdrs| && a == job.img.shdrs[i].addralign
    requires PowerOfTwo(a)
    ensures job.g.region.offsets[IndexOf(job.g.region.sections, i)] % a == 0
  {
    var k := IndexOf(job.g.region.sections, i);
    assert SectionPlaced(job.img, job.g.region, k, job.head);
    OffsetAligned(Codec.DynSize(job.img.enc.class_), a, job.g.region.offsets[k]);
  }

  lemma SiteAligned(job: Job, a: nat, d: nat)
    requires MemSite(job) && PowerOfTwo(a) && d in {job.g.at.align, job.g.at.page} && a <= d
    ensures a > 0 && d > 0 && d % a == 0 && job.g.at.off % d == 0 && job.g.at.vaddr % d == 0
  {
    AlignOfPower(a, d);
  }

  lemma AlignOfPower(a: nat, d: nat)
    requires PowerOfTwo(a) && ValidAlign(d) && a <= d
    ensures a > 0 && d > 0 && d % a == 0
  {
    if d > 1 {
      PowersDivide(a, d);
    }
  }

  lemma OffsetAligned(size: nat, a: nat, off: nat)
    requires (size == 8 || size == 16) && PowerOfTwo(a) && off % Max(size, Max(a, 1)) == 0
    ensures off % a == 0
  {
    assert PowerOfTwo(2) && PowerOfTwo(4) && PowerOfTwo(8) && PowerOfTwo(16);
    MaxPower(size, a);
    DividesTrans(a, Max(size, a), off);
  }

  // ---- File bounds and links ----

  lemma FinalSectionBounds(job: Job, f: Image, i: nat)
    requires FileReady(job) && Yields(job, f) && i < |job.img.shdrs| && job.img.shdrs[i].shtype != SHT_NOBITS
    ensures i < |f.shdrs| && f.shdrs[i].offset + f.shdrs[i].size <= job.g.total
  {
    FinalShdr(job, f, i);
    if job.flags[i] {
      MovedShdr(job, IndexOf(job.g.region.sections, i));
    } else {
      assert Kept(job.img, job.flags, i);
    }
  }

  lemma NewLoadBounds(job: Job)
    requires FileReady(job) && MemSite(job)
    ensures forall p :: p in NewLoads(job.g.region, job.g.at) ==> p.offset + p.filesz <= job.g.total
  {
  }

  /** An entry that frames nothing is the pushed table's, unchanged. */
  lemma UnframedEntry(job: Job, f: Image, x: nat)
    requires Yields(job, f) && NamesFixed(job.img)
    requires x < |f.phdrs| && Target(f, PhdrVaddr(job.g), f.phdrs[x].ptype).None?
    requires !(job.note == Some(x) && f.FindSection(LDCACHE).Some?)
    ensures x < |PushedPhdrs(job.img, job.g, job.front)| && f.phdrs[x] == PushedPhdrs(job.img, job.g, job.front)[x]
  {
    PushedShape(job.img, job.g, job.front);
    var p := Pushed(job.img, job.g, job.front);
    FinalTargets(job, f, f.phdrs[x].ptype);
    FinalFields(job.img, job.g, job.note, job.front, f);
    SameFind(job.img, f, LDCACHE);
    SameFind(job.img, p, LDCACHE);
  }

  lemma UntargetedEntry(job: Job, f: Image, x: nat)
    requires FileReady(job) && Yields(job, f) && SegmentsReady(job) && MemSite(job) && NamesFixed(job.img)
    requires x < |f.phdrs| && Target(f, PhdrVaddr(job.g), f.phdrs[x].ptype).None?
    requires !(job.note == Some(x) && f.FindSection(LDCACHE).Some?)
    ensures f.phdrs[x].offset + f.phdrs[x].filesz <= job.g.total
  {
    UnframedEntry(job, f, x);
    SameNamesFinal(job, f);
    TargetByType(job.img, f, 0, PhdrVaddr(job.g), f.phdrs[x].ptype);
    SameFind(job.img, f, LDCACHE);
    UntargetedPushed(job, x);
  }

  lemma SameNamesFinal(job: Job, f: Image)
    requires Yields(job, f) && NamesFixed(job.img)
    ensures SameNames(job.img, f)
  {
    FinalFields(job.img, job.g, job.note, job.front, f);
  }

  /** Types decide targets the same way before and after the region is placed. */
  lemma TargetByType(img: Image, f: Image, v: nat, w: nat, t: u32)
    requires SameNames(img, f)
    ensures Target(img, v, t).Some? <==> Target(f, w, t).Some?
  {
    SameFind(img, f, INTERP);
    SameFind(img, f, ABIFLAGS);
    SameDynIdx(img, f);
  }

  lemma UntargetedPushed(job: Job, x: nat)
    requires FileReady(job) && SegmentsReady(job) && MemSite(job)
    requires x < |PushedPhdrs(job.img, job.g, job.front)|
    requires var p := PushedPhdrs(job.img, job.g, job.front)[x];
             Target(job.img, 0, p.ptype).None? && (job.note == Some(x) ==> job.img.FindSection(LDCACHE).None?)
    ensures var p := PushedPhdrs(job.img, job.g, job.front)[x];
            p.offset + p.filesz <= job.g.total
  {
    var p := PushedPhdrs(job.img, job.g, job.front);
    PushedEntries(job.img, job.g, job.front);
    NewLoadBounds(job);
    if p[x] !in NewLoads(job.g.region, job.g.at) {
      var i :| 0 <= i < |job.img.phdrs| && NewIndex(job.img, job.g, job.front, i) == x;
      assert p[x] == job.img.phdrs[i];
      UnframedInside(job, i);
    }
  }

  lemma UnframedInside(job: Job, i: nat)
    requires FileReady(job) && SegmentsReady(job) && MemSite(job) && i < |job.img.phdrs| && Unframed(job, i)
    ensures job.img.phdrs[i].offset + job.img.phdrs[i].filesz <= job.g.total
  {
  }

  /** A framed entry lies where its target does, inside the file. */
  lemma TargetedEntry(job: Job, f: Image, x: nat)
    requires FileReady(job) && Yields(job, f) && SegmentsReady(job) && MemSite(job) && NamesFixed(job.img)
    requires x < |f.phdrs|
    requires Target(f, PhdrVaddr(job.g), f.phdrs[x].ptype).Some?
             || (job.note == Some(x) && f.FindSection(LDCACHE).Some?)
    ensures f.phdrs[x].offset + f.phdrs[x].filesz <= job.g.total
  {
    FramesTarget(job, f, x);
    SameNamesFinal(job, f);
    var target := Target(f, PhdrVaddr(job.g), f.phdrs[x].ptype);
    if target.Some? {
      TargetBounds(job, f, f.phdrs[x].ptype);
    } else {
      FramesNote(job, f, x);
      SameFind(job.img, f, LDCACHE);
      assert LDCACHE in [INTERP, ABIFLAGS, LDCACHE];
      FinalSectionBounds(job, f, f.FindSection(LDCACHE).value);
    }
  }

  lemma TargetBounds(job: Job, f: Image, t: u32)
    requires FileReady(job) && Yields(job, f) && SegmentsReady(job) && SameNames(job.img, f)
    requires Target(f, PhdrVaddr(job.g), t).Some?
    ensures var x := Target(f, PhdrVaddr(job.g), t).value; x.offset + x.size <= job.g.total
  {
    assert INTERP in [INTERP, ABIFLAGS, LDCACHE] && ABIFLAGS in [INTERP, ABIFLAGS, LDCACHE];
    if t == PT_PHDR {
      FinalFields(job.img, job.g, job.note, job.front, f);
    } else if t == PT_INTERP {
      SameFind(job.img, f, INTERP);
      FinalSectionBounds(job, f, f.FindSection(INTERP).value);
    } else if t == PT_DYNAMIC {
      SameDynIdx(job.img, f);
      FinalSectionBounds(job, f, f.DynIdx().value);
    } else {
      SameFind(job.img, f, ABIFLAGS);
      FinalSectionBounds(job, f, f.FindSection(ABIFLAGS).value);
    }
  }

  lemma FinalFileBounds(job: Job, f: Image)
    requires FileReady(job) && Yields(job, f) && SegmentsReady(job) && MemSite(job) && NamesFixed(job.img)
    ensures FileBounds(f, job.g.total)
  {
    FinalFields(job.img, job.g, job.note, job.front, f);
    forall x | 0 <= x < |f.phdrs|
      ensures f.phdrs[x].offset + f.phdrs[x].filesz <= job.g.total
    {
      if Target(f, PhdrVaddr(job.g), f.phdrs[x].ptype).Some? || (job.note == Some(x) && f.FindSection(LDCACHE).Some?) {
        TargetedEntry(job, f, x);
      } else {
        UntargetedEntry(job, f, x);
      }
    }
    forall i | 0 <= i < |f.shdrs| && f.shdrs[i].shtype != SHT_NOBITS
      ensures f.shdrs[i].offset + f.shdrs[i].size <= job.g.total
    {
      FinalSectionBounds(job, f, i);
    }
  }

  lemma FinalLinks(job: Job, f: Image)
    requires FileReady(job) && Yields(job, f) && SectionLinks(job.img)
    ensures SectionLinks(f)
  {
    FinalFields(job.img, job.g, job.note, job.front, f);
    forall s | s in f.shdrs && UsesLink(s.shtype)
      ensures s.link < |f.shdrs|
    {
      var i :| 0 <= i < |f.shdrs| && f.shdrs[i] == s;
      FinalShdr(job, f, i);
      assert job.img.shdrs[i] in job.img.shdrs;
    }
  }
}
