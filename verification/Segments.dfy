/** The final program header table: which entries it has, what each frames, and
    which loads it maps. */
module Segments {
  import opened Bytes
  import opened Ir
  import opened Layout
  import opened Shape
  import opened Placed

  /** The entry that the ld-cache note's index names after the loads are pushed, and
      that takes the note's extent, is no load. */
  ghost predicate NoteReady(job: Job)
  {
    job.note.Some? ==>
      && job.note.value < |job.img.phdrs|
      && job.img.phdrs[job.note.value].ptype == PT_NOTE
      && job.g.region.dataLen <= job.g.region.len
      && PushedPhdrs(job.img, job.g, job.front)[job.note.value].ptype != PT_LOAD
  }

  // ---- Loads of a table ----

  lemma {:induction false} LoadsPointwise(a: seq<Phdr>, b: seq<Phdr>)
    requires |a| == |b|
    requires forall i :: 0 <= i < |a| ==> (a[i].ptype == PT_LOAD <==> b[i].ptype == PT_LOAD)
    requires forall i :: 0 <= i < |a| && a[i].ptype == PT_LOAD ==> a[i] == b[i]
    ensures Loads(a) == Loads(b)
  {
    if a != [] {
      LoadsPointwise(a[..|a| - 1], b[..|b| - 1]);
    }
  }

  lemma {:induction false} NoLoads(a: seq<Phdr>)
    requires forall i :: 0 <= i < |a| ==> a[i].ptype != PT_LOAD
    ensures Loads(a) == []
  {
    if a != [] {
      NoLoads(a[..|a| - 1]);
    }
  }

  lemma LoadsOfNew(r: Region, at: Site)
    requires r.dataLen <= r.len
    ensures Loads(NewLoads(r, at)) == NewLoads(r, at)
  {
    var s := NewLoads(r, at);
    if |s| == 2 {
      assert s[..1] == [s[0]];
      LoadsSnoc([s[0]], s[1]);
      LoadsSnoc([], s[0]);
      assert s == [s[0]] + [s[1]];
    } else {
      LoadsSnoc([], s[0]);
    }
  }

  /** Rotating new loads in front of the rest of a table whose start has none. */
  lemma LoadsRotated(a: seq<Phdr>, b: seq<Phdr>, news: seq<Phdr>)
    requires Loads(a) == [] && Loads(news) == news
    ensures Loads(a + news + b) == news + Loads(a + b)
  {
    LoadsConcat(a, news);
    LoadsConcat(a + news, b);
    LoadsConcat(a, b);
    assert [] + news == news && [] + Loads(b) == Loads(b);
  }

  lemma FrontLoads(img: Image, g: Geometry)
    requires g.region.dataLen <= g.region.len
    ensures Loads(PushedPhdrs(img, g, true)) == NewLoads(g.region, g.at) + Loads(img.phdrs)
  {
    var news := NewLoads(g.region, g.at);
    FirstLoadBeforePushed(img.phdrs, news);
    var f := FirstLoad(img.phdrs + news);
    SplitTable(img.phdrs, news, f);
    NoneBefore(img.phdrs, news, f);
    LoadsOfNew(g.region, g.at);
    LoadsRotated(img.phdrs[..f], img.phdrs[f..], news);
  }

  lemma SplitTable(phdrs: seq<Phdr>, news: seq<Phdr>, f: nat)
    requires f <= |phdrs|
    ensures var all := phdrs + news;
            all[..f] + all[|all| - |news|..] + all[f..|all| - |news|] == phdrs[..f] + news + phdrs[f..]
    ensures phdrs[..f] + phdrs[f..] == phdrs
  {
    var all := phdrs + news;
    assert all[..f] == phdrs[..f] && all[|all| - |news|..] == news && all[f..|all| - |news|] == phdrs[f..];
  }

  lemma NoneBefore(phdrs: seq<Phdr>, news: seq<Phdr>, f: nat)
    requires f == FirstLoad(phdrs + news) <= |phdrs|
    ensures Loads(phdrs[..f]) == []
  {
    BeforeFirstLoad(phdrs + news);
    assert forall i :: 0 <= i < f ==> phdrs[i] == (phdrs + news)[i];
    NoLoads(phdrs[..f]);
  }

  /** Pushing leaves the loads in one of two orders: new ones last, or first. */
  lemma PushedLoads(img: Image, g: Geometry, front: bool)
    requires g.region.dataLen <= g.region.len
    ensures var news := NewLoads(g.region, g.at);
            Loads(PushedPhdrs(img, g, front)) == if front then news + Loads(img.phdrs) else Loads(img.phdrs) + news
  {
    if front {
      FrontLoads(img, g);
    } else {
      LoadsOfNew(g.region, g.at);
      LoadsConcat(img.phdrs, NewLoads(g.region, g.at));
    }
  }

  lemma BeforeFirstLoad(phdrs: seq<Phdr>)
    ensures forall i :: 0 <= i < FirstLoad(phdrs) ==> phdrs[i].ptype != PT_LOAD
  {
    var bs := seq(|phdrs|, i requires 0 <= i < |phdrs| => phdrs[i].ptype == PT_LOAD);
    assert forall i :: 0 <= i < |phdrs| ==> bs[i] == (phdrs[i].ptype == PT_LOAD);
  }

  /** Position in the final table of the original entry `i`. */
  function NewIndex(img: Image, g: Geometry, front: bool, i: nat): nat
    requires g.region.dataLen <= g.region.len && i < |img.phdrs|
  {
    var news := NewLoads(g.region, g.at);
    if front && i >= FirstLoad(img.phdrs + news) then i + |news| else i
  }

  /** Every original entry is still there, and nothing else but the new loads. */
  lemma PushedEntries(img: Image, g: Geometry, front: bool)
    requires g.region.dataLen <= g.region.len
    ensures var p := PushedPhdrs(img, g, front);
            forall i :: 0 <= i < |img.phdrs| ==>
                     NewIndex(img, g, front, i) < |p| && p[NewIndex(img, g, front, i)] == img.phdrs[i]
    ensures var p := PushedPhdrs(img, g, front);
            forall x :: 0 <= x < |p| ==>
              (p[x] in NewLoads(g.region, g.at) || exists i :: 0 <= i < |img.phdrs| && NewIndex(img, g, front, i) == x)
  {
    var news := NewLoads(g.region, g.at);
    FirstLoadBeforePushed(img.phdrs, news);
    var p, f, n := PushedPhdrs(img, g, front), FirstLoad(img.phdrs + news), |news|;
    forall x | 0 <= x < |p|
      ensures p[x] in news || exists i :: 0 <= i < |img.phdrs| && NewIndex(img, g, front, i) == x
    {
      if !front {
        if x < |img.phdrs| {
          assert NewIndex(img, g, front, x) == x;
        }
      } else if x < f {
        assert NewIndex(img, g, front, x) == x;
      } else if x >= f + n {
        assert NewIndex(img, g, front, x - n) == x;
      } else {
        assert p[x] == news[x - f];
      }
    }
  }

  /** The note's entry is not moved by the loads pushed in front of it. */
  ghost predicate NoteStays(job: Job)
  {
    job.note.Some? ==>
      && job.note.value < |job.img.phdrs| && job.g.region.dataLen <= job.g.region.len
      && NewIndex(job.img, job.g, job.front, job.note.value) == job.note.value
  }

  /** A note before the first load stays, and so does any note in an append. */
  lemma NoteBeforeLoads(job: Job)
    requires job.g.region.dataLen <= job.g.region.len && job.note.Some? && job.note.value < |job.img.phdrs|
    requires job.front ==> job.note.value < FirstLoad(job.img.phdrs)
    ensures NoteStays(job)
  {
    FirstLoadGrows(job.img.phdrs, NewLoads(job.g.region, job.g.at));
  }

  lemma KeptNote(job: Job)
    requires NoteStays(job) && job.note.Some? && job.note.value < |job.img.phdrs|
    ensures var k, p := job.note.value, PushedPhdrs(job.img, job.g, job.front); k < |p| && p[k] == job.img.phdrs[k]
  {
    PushedEntries(job.img, job.g, job.front);
  }

  /** Pushing follows the types alone. */
  lemma PushedTypes(a: Image, b: Image, g: Geometry, front: bool)
    requires g.region.dataLen <= g.region.len && |a.phdrs| == |b.phdrs|
    requires forall i :: 0 <= i < |a.phdrs| ==> a.phdrs[i].ptype == b.phdrs[i].ptype
    ensures forall x :: 0 <= x < |PushedPhdrs(a, g, front)| ==>
              PushedPhdrs(a, g, front)[x].ptype == PushedPhdrs(b, g, front)[x].ptype
    ensures forall i :: 0 <= i < |a.phdrs| ==> NewIndex(a, g, front, i) == NewIndex(b, g, front, i)
  {
    var s, t := a.phdrs + NewLoads(g.region, g.at), b.phdrs + NewLoads(g.region, g.at);
    FirstLoadBeforePushed(a.phdrs, NewLoads(g.region, g.at));
    FirstLoadBeforePushed(b.phdrs, NewLoads(g.region, g.at));
    assert forall i :: 0 <= i < |s| ==> s[i].ptype == t[i].ptype;
    FirstLoadOfTypes(s, t);
  }

  lemma FirstLoadOfTypes(s: seq<Phdr>, t: seq<Phdr>)
    requires |s| == |t| && forall i :: 0 <= i < |s| ==> s[i].ptype == t[i].ptype
    ensures FirstLoad(s) == FirstLoad(t)
  {
    var p, q := seq(|s|, i requires 0 <= i < |s| => s[i].ptype == PT_LOAD),
      seq(|t|, i requires 0 <= i < |t| => t[i].ptype == PT_LOAD);
    assert p == q;
  }

  lemma FirstLoadGrows(phdrs: seq<Phdr>, news: seq<Phdr>)
    requires news != [] && news[0].ptype == PT_LOAD
    ensures FirstLoad(phdrs) <= FirstLoad(phdrs + news)
  {
    BeforeFirstLoad(phdrs);
    FirstLoadBeforePushed(phdrs, news);
    var all := phdrs + news;
    var bs := seq(|all|, i requires 0 <= i < |all| => all[i].ptype == PT_LOAD);
    assert bs[|phdrs|];
    var f := FirstLoad(all);
    assert all[f].ptype == PT_LOAD;
    assert f < |phdrs| ==> all[f] == phdrs[f];
  }

  /** Framing keeps every entry's type, flags and alignment, and every load as it is. */
  lemma SyncedEntries(job: Job, f: Image)
    requires Yields(job, f) && NoteReady(job)
    ensures var p := PushedPhdrs(job.img, job.g, job.front);
            && |f.phdrs| == |p|
            && forall x :: 0 <= x < |p| ==>
                 && f.phdrs[x].ptype == p[x].ptype && f.phdrs[x].flags == p[x].flags && f.phdrs[x].align == p[x].align
                 && (p[x].ptype == PT_LOAD ==> f.phdrs[x] == p[x])
  {
    PushedShape(job.img, job.g, job.front);
  }

  /** The loads of the final image: the original ones untouched, and the new ones. */
  lemma FinalLoads(job: Job, f: Image)
    requires Yields(job, f) && NoteReady(job)
    ensures var news := NewLoads(job.g.region, job.g.at);
            Loads(f.phdrs) == if job.front then news + Loads(job.img.phdrs) else Loads(job.img.phdrs) + news
  {
    SyncedEntries(job, f);
    LoadsPointwise(f.phdrs, PushedPhdrs(job.img, job.g, job.front));
    PushedLoads(job.img, job.g, job.front);
  }

  // ---- What the segments frame ----

  lemma FinalTargets(job: Job, f: Image, t: u32)
    requires Yields(job, f) && NamesFixed(job.img)
    ensures Target(Pushed(job.img, job.g, job.front), PhdrVaddr(job.g), t) == Target(f, PhdrVaddr(job.g), t)
  {
    PushedShape(job.img, job.g, job.front);
    FinalFields(job.img, job.g, job.note, job.front, f);
    var p := Pushed(job.img, job.g, job.front);
    SameTarget(p, job.img, f, PhdrVaddr(job.g), t);
  }

  /** Two images with the sections of a third one, in the same places, have the same targets. */
  lemma SameTarget(a: Image, img: Image, b: Image, phdrVaddr: nat, t: u32)
    requires SameNames(img, a) && SameNames(img, b) && a.shdrs == b.shdrs
    requires a.ehdr.phoff == b.ehdr.phoff && |a.phdrs| == |b.phdrs| && a.enc == b.enc
    ensures Target(a, phdrVaddr, t) == Target(b, phdrVaddr, t)
  {
    SameFind(img, a, INTERP);
    SameFind(img, b, INTERP);
    SameFind(img, a, ABIFLAGS);
    SameFind(img, b, ABIFLAGS);
    SameDynIdx(img, a);
    SameDynIdx(img, b);
  }

  /** The entry describes exactly this extent, in the file and in memory. */
  predicate Frames(p: Phdr, x: Extent)
  {
    p.offset == x.offset && p.vaddr == p.paddr == x.addr && p.filesz == p.memsz == x.size
  }

  /** In the final image `PT_PHDR`, `PT_INTERP`, `PT_DYNAMIC` and
      `PT_MIPS_ABIFLAGS` frame exactly their targets, and so does the ld-cache note
      if its entry has not moved. */
  lemma SegmentsFrame(job: Job, f: Image, x: nat)
    requires Yields(job, f) && NamesFixed(job.img) && x < |f.phdrs|
    ensures var target := Target(f, PhdrVaddr(job.g), f.phdrs[x].ptype);
            target.Some? ==> f.phdrs[x] == SetSegment(f.phdrs[x], target.value) && Frames(f.phdrs[x], target.value)
    ensures NoteReady(job) && NoteStays(job) && job.note == Some(x) && f.FindSection(LDCACHE).Some? ==>
              && f.phdrs[x] == SetSegment(job.img.phdrs[x], ExtentOf(f.shdrs[f.FindSection(LDCACHE).value]))
              && Frames(f.phdrs[x], ExtentOf(f.shdrs[f.FindSection(LDCACHE).value]))
  {
    FramesTarget(job, f, x);
    if NoteReady(job) && NoteStays(job) && job.note == Some(x) && f.FindSection(LDCACHE).Some? {
      KeptNote(job);
      FramesNote(job, f, x);
    }
  }

  lemma FramesTarget(job: Job, f: Image, x: nat)
    requires Yields(job, f) && NamesFixed(job.img) && x < |f.phdrs|
    ensures var target := Target(f, PhdrVaddr(job.g), f.phdrs[x].ptype);
            target.Some? ==> f.phdrs[x] == SetSegment(f.phdrs[x], target.value) && Frames(f.phdrs[x], target.value)
  {
    PushedShape(job.img, job.g, job.front);
    FinalFields(job.img, job.g, job.note, job.front, f);
    FinalTargets(job, f, Pushed(job.img, job.g, job.front).phdrs[x].ptype);
  }

  /** Whatever entry the note's index names takes the note's extent, unless its type
      has a target of its own. */
  lemma FramesNote(job: Job, f: Image, x: nat)
    requires Yields(job, f) && NamesFixed(job.img) && job.note == Some(x) && x < |f.phdrs|
             && f.FindSection(LDCACHE).Some?
    ensures job.g.region.dataLen <= job.g.region.len && x < |PushedPhdrs(job.img, job.g, job.front)|
    ensures var p, s := PushedPhdrs(job.img, job.g, job.front)[x], f.shdrs[f.FindSection(LDCACHE).value];
            && f.phdrs[x].ptype == p.ptype
            && (Target(f, PhdrVaddr(job.g), p.ptype).None? ==>
                  f.phdrs[x] == SetSegment(p, ExtentOf(s)) && Frames(f.phdrs[x], ExtentOf(s)))
  {
    PushedShape(job.img, job.g, job.front);
    FinalFields(job.img, job.g, job.note, job.front, f);
    var p := Pushed(job.img, job.g, job.front);
    FinalTargets(job, f, p.phdrs[x].ptype);
    SameFind(job.img, p, LDCACHE);
    SameFind(job.img, f, LDCACHE);
  }

  ghost predicate FramesNamed(f: Image, p: Phdr, name: string)
  {
    match f.FindSection(Ascii(name))
    case None => true
    case Some(s) => Frames(p, ExtentOf(f.shdrs[s]))
  }

  /** Type by type: `PT_PHDR` (6) frames the table, `PT_INTERP` (3) `.interp`,
      `PT_DYNAMIC` (2) the dynamic section, `PT_MIPS_ABIFLAGS` its section. */
  lemma SegmentsByType(job: Job, f: Image, x: nat)
    requires Yields(job, f) && NamesFixed(job.img) && x < |f.phdrs|
    ensures var p := f.phdrs[x];
            && (p.ptype == 6 ==>
                  Frames(p, Extent(f.ehdr.phoff, PhdrVaddr(job.g), |f.phdrs| * if f.enc.class_.Elf64? then 56 else 32)))
            && (p.ptype == 3 ==> FramesNamed(f, p, ".interp"))
            && (p.ptype == 0x7000_0003 ==> FramesNamed(f, p, ".MIPS.abiflags"))
            && (p.ptype == 2 && f.DynIdx().Some? ==> Frames(p, ExtentOf(f.shdrs[f.DynIdx().value])))
  {
    FramesTarget(job, f, x);
  }

  /** Every other entry but the note's stays as it was. */
  lemma OthersStay(job: Job, f: Image, x: nat)
    requires Yields(job, f) && NamesFixed(job.img) && x < |f.phdrs| && job.note != Some(x)
    requires f.phdrs[x].ptype !in {2, 3, 6, 0x7000_0003}
    ensures job.g.region.dataLen <= job.g.region.len && x < |PushedPhdrs(job.img, job.g, job.front)|
    ensures f.phdrs[x] == PushedPhdrs(job.img, job.g, job.front)[x]
  {
    PushedShape(job.img, job.g, job.front);
    FinalFields(job.img, job.g, job.note, job.front, f);
    Untargeted(Pushed(job.img, job.g, job.front), job.note, PhdrVaddr(job.g), x);
  }

  lemma Untargeted(img: Image, note: Option<nat>, va: nat, x: nat)
    requires x < |img.phdrs| && note != Some(x) && SyncedPhdr(img, note, va, x).ptype !in {2, 3, 6, 0x7000_0003}
    ensures SyncedPhdr(img, note, va, x) == img.phdrs[x]
  {
  }

  /** The note's entry is the first `PT_NOTE` (4) at its section's file offset. */
  lemma NoteFound(img: Image, s: nat, i: nat)
    requires img.FindSection(Ascii(".note.nixos.ldcache")) == Some(s)
    ensures LdcacheNote(img) == Some(i) <==> IsNote(img, s, i) && forall j: nat :: j < i ==> !IsNote(img, s, j)
    ensures LdcacheNote(img).None? <==> forall j: nat :: !IsNote(img, s, j)
  {
    var bs := seq(|img.phdrs|, i requires 0 <= i < |img.phdrs| =>
      img.phdrs[i].ptype == PT_NOTE && img.phdrs[i].offset == img.shdrs[s].offset);
    assert LdcacheNote(img) == FirstTrue(bs);
    forall j: nat ensures (j < |bs| && bs[j]) <==> IsNote(img, s, j) {
    }
    if IsNote(img, s, i) && forall j: nat :: j < i ==> !IsNote(img, s, j) {
      FirstTrueIs(bs, i);
    }
  }

  ghost predicate IsNote(img: Image, s: nat, i: nat)
    requires s < |img.shdrs|
  {
    i < |img.phdrs| && img.phdrs[i].ptype == 4 && img.phdrs[i].offset == img.shdrs[s].offset
  }
}
