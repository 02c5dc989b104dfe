/** The ld-cache note's segment in a prepend (src/layout.rs): its index is taken
    before the new loads are rotated in front of the first load, so a note that
    comes later in the table leaves its extent in another entry. */
module StaleNote {
  import opened Bytes
  import opened Ir
  import opened Codec
  import opened Align
  import opened Serialize
  import opened Layout
  import opened RegionFacts
  import opened Shape
  import opened Placed
  import opened Segments
  import opened Verify
  import opened Accepted
  import opened NewSection
  import opened Append
  import opened Shift
  import opened Prepend
  import opened PrependTheorems
  import Loader
  import Reclaim

  /** A prepend whose note lies at table index `k` behind the first load, and whose
      note section `s` moves. */
  ghost predicate StaleRun(job: Job, f: Image, k: nat, s: nat)
  {
    && FileReady(job) && MemSite(job) && Yields(job, f) && NamesFixed(job.img) && job.front && job.note == Some(k)
    && k < |job.img.phdrs| && job.img.phdrs[k].ptype == PT_NOTE
      && FirstLoad(job.img.phdrs + NewLoads(job.g.region, job.g.at)) <= k
    && job.img.FindSection(LDCACHE) == Some(s) && s < |job.flags| && job.flags[s]
    && SectionLen(job.img, s) > 0 && !Executable(job.img.shdrs[s])
  }

  /** The entry the stale index names: one of the region's loads, or the original
      entry as many places before the note as there are new loads. */
  function Victim(job: Job, k: nat): Phdr
    requires job.g.region.dataLen <= job.g.region.len && k < |job.img.phdrs|
    requires FirstLoad(job.img.phdrs + NewLoads(job.g.region, job.g.at)) <= k
  {
    var news := NewLoads(job.g.region, job.g.at);
    var first := FirstLoad(job.img.phdrs + news);
    if k < first + |news| then news[k - first] else job.img.phdrs[k - |news|]
  }

  lemma VictimAt(job: Job, k: nat)
    requires job.g.region.dataLen <= job.g.region.len && job.front && k < |job.img.phdrs|
             && job.img.phdrs[k].ptype == PT_NOTE
    requires FirstLoad(job.img.phdrs + NewLoads(job.g.region, job.g.at)) <= k
    ensures var p, first := PushedPhdrs(job.img, job.g, true),
            FirstLoad(job.img.phdrs + NewLoads(job.g.region, job.g.at));
            && first < k < |p| && p[k] == Victim(job, k) && p[first] == DataLoad(job.g.at)
  {
    var news := NewLoads(job.g.region, job.g.at);
    FirstLoadBeforePushed(job.img.phdrs, news);
    var all := job.img.phdrs + news;
    var bs := seq(|all|, i requires 0 <= i < |all| => all[i].ptype == PT_LOAD);
    assert bs[|job.img.phdrs|];
    assert all[FirstLoad(all)].ptype == PT_LOAD && all[k] == job.img.phdrs[k];
  }

  lemma MovedData(job: Job, s: nat)
    requires FileReady(job) && s < |job.flags| && job.flags[s] && !Executable(job.img.shdrs[s])
    ensures var t := PlacedShdr(job.img, job.g.region, job.g.at.off, job.g.at.vaddr, s);
            && job.g.at.vaddr + job.head <= t.addr && t.size == SectionLen(job.img, s)
            && t.addr + t.size <= job.g.at.vaddr + job.g.region.dataLen
  {
    var r := job.g.region;
    var i := IndexOf(r.sections, s);
    assert SectionPlaced(job.img, r, i, job.head);
  }

  /** The region starts with the program header table. */
  lemma HeadRoom(job: Job)
    requires FileSite(job.img, job.g, job.head, job.lo, job.hi)
    ensures job.head > 0
  {
    var c := job.img.enc.class_;
    SlotInside(0, NewPhnum(job.img, job.g), PhdrSize(c));
  }

  /** Where the note's section ends up: inside the region's data part. */
  lemma NoteExtent(job: Job, f: Image, k: nat, s: nat)
    requires StaleRun(job, f, k, s)
    ensures f.FindSection(LDCACHE) == Some(s) && s < |f.shdrs|
    ensures var at, t := job.g.at, f.shdrs[s];
            at.vaddr < t.addr && 0 < t.size && t.addr + t.size <= at.vaddr + job.g.region.dataLen
  {
    FinalFields(job.img, job.g, job.note, job.front, f);
    SameFind(job.img, f, LDCACHE);
    HeadRoom(job);
    MovedData(job, s);
    assert f.shdrs[s] == PlacedShdr(job.img, job.g.region, job.g.at.off, job.g.at.vaddr, s);
  }

  /** The entry the stale index names takes the note's extent, unless its type has a
      target of its own. */
  lemma StaleVictim(job: Job, f: Image, k: nat, s: nat)
    requires StaleRun(job, f, k, s)
    ensures var q := Victim(job, k);
            && k < |f.phdrs| && s < |f.shdrs| && f.phdrs[k].ptype == q.ptype
            && (Target(f, PhdrVaddr(job.g), q.ptype).None? ==> f.phdrs[k] == SetSegment(q, ExtentOf(f.shdrs[s])))
  {
    VictimAt(job, k);
    NoteExtent(job, f, k, s);
    StaleLength(job, f, k);
    FramesNote(job, f, k);
  }

  lemma StaleLength(job: Job, f: Image, k: nat)
    requires Yields(job, f) && job.front && job.g.region.dataLen <= job.g.region.len
    requires k < |PushedPhdrs(job.img, job.g, true)|
    ensures k < |f.phdrs|
  {
    PushedShape(job.img, job.g, job.front);
  }

  /** The tables agree on every load but possibly the one at `k`. */
  ghost predicate SameBut(p: seq<Phdr>, t: seq<Phdr>, k: nat)
  {
    && k < |p| == |t| && t[k].ptype == p[k].ptype
    && forall x :: 0 <= x < |p| && x != k ==> t[x].ptype == p[x].ptype && (p[x].ptype == PT_LOAD ==> t[x] == p[x])
  }

  lemma SyncedBut(q: Image, k: nat, phdrVaddr: nat)
    requires k < |q.phdrs|
    ensures SameBut(q.phdrs, SyncedPhdrs(q, Some(k), phdrVaddr), k)
  {
  }

  /** Every other load stays as it is. */
  lemma StaleOthers(job: Job, f: Image, k: nat, s: nat)
    requires StaleRun(job, f, k, s)
    ensures SameBut(PushedPhdrs(job.img, job.g, true), f.phdrs, k)
  {
    VictimAt(job, k);
    PushedShape(job.img, job.g, job.front);
    SyncedBut(Pushed(job.img, job.g, job.front), k, PhdrVaddr(job.g));
  }

  lemma LoadIndex(a: seq<Phdr>, p: Phdr, b: seq<Phdr>)
    requires p.ptype == PT_LOAD
    ensures Loads((a + [p]) + b) == (Loads(a) + [p]) + Loads(b)
  {
    LoadsConcat(a + [p], b);
    LoadsSnoc(a, p);
  }

  lemma SplitAt(t: seq<Phdr>, k: nat)
    requires k < |t|
    ensures t == (t[..k] + [t[k]]) + t[k + 1..]
  {
  }

  /** Tables that agree but for one entry have the same loads exactly when that
      entry is no load or is the same. */
  lemma LoadsBut(p: seq<Phdr>, t: seq<Phdr>, k: nat)
    requires SameBut(p, t, k)
    ensures Loads(t) == Loads(p) <==> p[k].ptype != PT_LOAD || t[k] == p[k]
  {
    if p[k].ptype != PT_LOAD || t[k] == p[k] {
      LoadsPointwise(t, p);
    } else {
      LoadsPointwise(t[..k], p[..k]);
      LoadIndex(t[..k], t[k], t[k + 1..]);
      LoadIndex(p[..k], p[k], p[k + 1..]);
      SplitAt(t, k);
      SplitAt(p, k);
      var n := |Loads(t[..k])|;
      assert Loads(t)[n] == t[k] && Loads(p)[n] == p[k];
    }
  }

  /** The region's code load and every original load start above the note. */
  lemma VictimAbove(job: Job, f: Image, k: nat, s: nat)
    requires StaleRun(job, f, k, s) && Victim(job, k).ptype == PT_LOAD
    ensures s < |f.shdrs| && f.shdrs[s].addr < Victim(job, k).vaddr
  {
    NoteExtent(job, f, k, s);
    VictimAt(job, k);
    if Victim(job, k) !in NewLoads(job.g.region, job.g.at) {
      LoadsMembers(job.img.phdrs, Victim(job, k));
    } else {
      assert job.g.region.loads == 2 && Victim(job, k) == ExecLoad(job.g.region, job.g.at) by {
        NotDataLoad(job, k);
      }
    }
  }

  lemma NotDataLoad(job: Job, k: nat)
    requires MemSite(job) && job.front && k < |job.img.phdrs| && job.img.phdrs[k].ptype == PT_NOTE
    requires FirstLoad(job.img.phdrs + NewLoads(job.g.region, job.g.at)) <= k
    requires Victim(job, k).ptype == PT_LOAD && Victim(job, k) in NewLoads(job.g.region, job.g.at)
    requires 0 < job.g.region.dataLen
    ensures job.g.region.loads == 2 && Victim(job, k) == ExecLoad(job.g.region, job.g.at)
  {
    VictimAt(job, k);
    var news := NewLoads(job.g.region, job.g.at);
    var first := FirstLoad(job.img.phdrs + news);
    if k >= first + |news| {
      LoadsMembers(job.img.phdrs, Victim(job, k));
      assert news[0].vaddr == job.g.at.vaddr;
    }
  }

  /** An overwritten load starts where the note does, inside the region's data load. */
  lemma VictimInside(job: Job, f: Image, k: nat, s: nat)
    requires StaleRun(job, f, k, s) && Victim(job, k).ptype == PT_LOAD
    ensures k < |f.phdrs| && f.phdrs[k].ptype == PT_LOAD && f.phdrs[k] != Victim(job, k)
    ensures var q, at := f.phdrs[k], job.g.at;
            at.vaddr < q.vaddr && 0 < q.memsz && q.vaddr + q.memsz <= at.vaddr + job.g.region.dataLen
  {
    LoadVictim(job, f, k, s);
    VictimAbove(job, f, k, s);
    InsideRegion(f.phdrs[k], Victim(job, k), f.shdrs[s], job.g.at, job.g.region.dataLen);
  }

  /** A load the stale index names takes the note's extent. */
  lemma LoadVictim(job: Job, f: Image, k: nat, s: nat)
    requires StaleRun(job, f, k, s) && Victim(job, k).ptype == PT_LOAD
    ensures k < |f.phdrs| && s < |f.shdrs| && f.phdrs[k] == SetSegment(Victim(job, k), ExtentOf(f.shdrs[s]))
    ensures var at, t := job.g.at, f.shdrs[s];
            at.vaddr < t.addr && 0 < t.size && t.addr + t.size <= at.vaddr + job.g.region.dataLen
  {
    StaleVictim(job, f, k, s);
    NoteExtent(job, f, k, s);
  }

  lemma InsideRegion(p: Phdr, q: Phdr, t: Shdr, at: Site, len: nat)
    requires p == SetSegment(q, ExtentOf(t)) && t.addr < q.vaddr
    requires at.vaddr < t.addr && 0 < t.size && t.addr + t.size <= at.vaddr + len
    ensures p.ptype == q.ptype && p != q && at.vaddr < p.vaddr && 0 < p.memsz && p.vaddr + p.memsz <= at.vaddr + len
  {
  }

  /** The final table still maps the original loads and the region's if and only if
      the entry the stale index names is not a load. */
  lemma StaleLoads(job: Job, f: Image, k: nat, s: nat)
    requires StaleRun(job, f, k, s)
    ensures Loads(f.phdrs) == NewLoads(job.g.region, job.g.at) + Loads(job.img.phdrs)
            <==> Victim(job, k).ptype != PT_LOAD
  {
    StaleOthers(job, f, k, s);
    VictimAt(job, k);
    PushedLoads(job.img, job.g, true);
    LoadsBut(PushedPhdrs(job.img, job.g, true), f.phdrs, k);
    if Victim(job, k).ptype == PT_LOAD {
      VictimInside(job, f, k, s);
    }
  }

  lemma Overlapping(at: Site, q: Phdr, len: nat)
    requires len <= at.filesz && at.vaddr < q.vaddr && 0 < q.memsz && q.vaddr + q.memsz <= at.vaddr + len
    ensures DataLoad(at) != q && !Loader.MemApart(DataLoad(at), q)
  {
  }

  /** A load the note's extent overwrote overlaps the region's data load, so the
      check before writing refuses the image. */
  lemma StaleRefused(job: Job, f: Image, k: nat, s: nat)
    requires StaleRun(job, f, k, s) && Victim(job, k).ptype == PT_LOAD
    ensures !MemoryDisjoint(Loads(f.phdrs))
  {
    DataLoadStays(job, f, k, s);
    VictimInside(job, f, k, s);
    Overlapping(job.g.at, f.phdrs[k], job.g.region.dataLen);
    if MemoryDisjoint(Loads(f.phdrs)) {
      LoadsApart(f.phdrs, DataLoad(job.g.at), f.phdrs[k]);
    }
  }

  lemma DataLoadStays(job: Job, f: Image, k: nat, s: nat)
    requires StaleRun(job, f, k, s)
    ensures DataLoad(job.g.at) in f.phdrs
  {
    StaleOthers(job, f, k, s);
    VictimAt(job, k);
    var first := FirstLoad(job.img.phdrs + NewLoads(job.g.region, job.g.at));
    assert f.phdrs[first] == DataLoad(job.g.at);
  }

  lemma ApartAt(loads: seq<Phdr>, p: Phdr, q: Phdr)
    requires MemoryDisjoint(loads) && p in loads && q in loads && p != q
    ensures Loader.MemApart(p, q)
  {
    Loader.DisjointLoads(loads);
    var x :| 0 <= x < |loads| && loads[x] == p;
    var y :| 0 <= y < |loads| && loads[y] == q;
    if x < y {
      assert Loader.MemApart(loads[x], loads[y]);
    } else {
      assert Loader.MemApart(loads[y], loads[x]);
    }
  }

  /** Two loads of a table that passes the overlap check share no address. */
  lemma LoadsApart(t: seq<Phdr>, p: Phdr, q: Phdr)
    requires MemoryDisjoint(Loads(t)) && p in t && q in t && p.ptype == q.ptype == PT_LOAD && p != q
    ensures Loader.MemApart(p, q)
  {
    LoadsMembers(t, p);
    LoadsMembers(t, q);
    ApartAt(Loads(t), p, q);
  }

  // ---- Prepending without the note's condition ----

  /** What `PrependReady` asks of the input, but for where the note stands and what
      segments, strings and tags refer to. */
  ghost predicate PrependPlaced(img: Image, flags: seq<bool>, origLen: nat, page: nat, keepTail: bool)
  {
    && WellShaped(img) && |flags| == |img.shdrs|
    && PowerOfTwo(page)
    && CanPrepend(img, flags, page, keepTail)
    && KeptSections(img, flags, 0, origLen) && ClassSizes(img) && NamesFixed(img)
    && (forall p :: p in img.phdrs ==> ValidAlign(p.align))
    && (forall p :: p in Loads(img.phdrs) ==> LoadOk(p))
    && MemoryDisjoint(Loads(img.phdrs))
  }

  lemma PlacedRun(img: Image, flags: seq<bool>, origLen: nat, page: nat, keepTail: bool)
    requires PrependPlaced(img, flags, origLen, page, keepTail)
    ensures var job := PrependJob(img, flags, origLen, page, keepTail);
            FileReady(job) && MemSite(job) && NamesFixed(job.img)
  {
    var input, job := PrependInput(img, flags, origLen, page, keepTail),
      PrependJob(img, flags, origLen, page, keepTail);
    var shift := PrependShift(img, flags, page, keepTail);
    PrependRegionOk(img, flags, origLen, page, keepTail);
    PrependShiftFacts(img, job.g, shift, origLen, page, keepTail);
    SameDynIdx(img, input.img);
    KeptUnderTables(img, job.g, flags, 0, origLen);
    ShiftedSections(input, shift);
    ShiftedNames(input.img, shift);
    LoadsShifted(img.phdrs, shift);
    ShiftedLoads(Loads(img.phdrs), shift);
    ShiftedAligns(img.phdrs, shift);
    PrependFileSite(img, job.g, shift, origLen, page, keepTail);
    PrependMemSite(img, job.g, shift, origLen, page, keepTail, job);
  }

  lemma KeptUnderTables(img: Image, g: Geometry, flags: seq<bool>, lo: nat, hi: nat)
    requires WellShaped(img) && |flags| == |img.shdrs| && KeptSections(img, flags, lo, hi)
    ensures KeptSections(WithTables(img, g), flags, lo, hi)
  {
    var b := WithTables(img, g);
    SameDynIdx(img, b);
    forall i: nat | Kept(b, flags, i) ensures Kept(img, flags, i) && SectionLen(b, i) == SectionLen(img, i) {
    }
  }

  /** The note's section moves, and its segment `k` is behind the first load. */
  ghost predicate NoteBehind(img: Image, flags: seq<bool>, k: nat, s: nat)
    requires WellShaped(img) && |flags| == |img.shdrs|
  {
    && img.FindSection(LDCACHE) == Some(s) && LdcacheNote(img) == Some(k) && Loads(img.phdrs) != []
      && FirstLoad(img.phdrs) <= k
    && flags[s] && SectionLen(img, s) > 0 && !Executable(img.shdrs[s])
  }

  lemma {:induction false} LoadAt(phdrs: seq<Phdr>) returns (i: nat)
    requires Loads(phdrs) != []
    ensures i < |phdrs| && phdrs[i].ptype == PT_LOAD
  {
    i := |phdrs| - 1;
    if phdrs[i].ptype != PT_LOAD {
      i := LoadAt(phdrs[..i]);
    }
  }

  lemma FirstLoadIs(t: seq<Phdr>, i: nat)
    requires i < |t| && t[i].ptype == PT_LOAD && forall j :: 0 <= j < i ==> t[j].ptype != PT_LOAD
    ensures FirstLoad(t) == i
  {
    FirstTrueIs(seq(|t|, j requires 0 <= j < |t| => t[j].ptype == PT_LOAD), i);
  }

  lemma FirstLoadHere(t: seq<Phdr>)
    requires Loads(t) != []
    ensures FirstLoad(t) < |t| && t[FirstLoad(t)].ptype == PT_LOAD
    ensures forall j :: 0 <= j < FirstLoad(t) ==> t[j].ptype != PT_LOAD
  {
    BeforeFirstLoad(t);
    var i := LoadAt(t);
    var bs := seq(|t|, j requires 0 <= j < |t| => t[j].ptype == PT_LOAD);
    assert bs[i];
  }

  /** Where the first load is depends only on the types, and not on entries behind it. */
  lemma SameFirstLoad(a: seq<Phdr>, b: seq<Phdr>)
    requires Loads(a) != [] && |a| <= |b| && forall i :: 0 <= i < |a| ==> b[i].ptype == a[i].ptype
    ensures FirstLoad(b) == FirstLoad(a) < |a|
  {
    FirstLoadHere(a);
    FirstLoadIs(b, FirstLoad(a));
  }

  /** A prepend of such an image loses track of the note. */
  lemma BehindIsStale(img: Image, flags: seq<bool>, origLen: nat, page: nat, keepTail: bool, f: Image, k: nat, s: nat)
    requires PrependPlaced(img, flags, origLen, page, keepTail) && NoteBehind(img, flags, k, s)
    requires Prepended(img, flags, origLen, page, keepTail) == Ok(f)
    ensures StaleRun(PrependJob(img, flags, origLen, page, keepTail), f, k, s)
    ensures FirstLoad(img.phdrs) <= k
  {
    var job := PrependJob(img, flags, origLen, page, keepTail);
    PlacedRun(img, flags, origLen, page, keepTail);
    PrependedYields(img, flags, origLen, page, keepTail);
    PrependRegionOk(img, flags, origLen, page, keepTail);
    SameFirstLoad(img.phdrs, job.img.phdrs + NewLoads(job.g.region, job.g.at));
    ShiftedNames(img, PrependShift(img, flags, page, keepTail));
    SameFind(Shifted(img, PrependShift(img, flags, page, keepTail)), job.img, LDCACHE);
    SameSectionLen(img, job.img, s);
  }

  /** A sound input is placed. */
  lemma SoundIsPlaced(img: Image, flags: seq<bool>, origLen: nat, page: nat, keepTail: bool)
    requires PrependSound(img, flags, origLen, page, keepTail)
    ensures PrependPlaced(img, flags, origLen, page, keepTail)
  {
    TablesKeepSections(img, PrependInput(img, flags, origLen, page, keepTail).g, flags, 0, origLen);
  }

  lemma TablesKeepSections(img: Image, g: Geometry, flags: seq<bool>, lo: nat, hi: nat)
    requires WellShaped(img) && |flags| == |img.shdrs| && KeptSections(WithTables(img, g), flags, lo, hi)
    requires NamesFixed(WithTables(img, g))
    ensures KeptSections(img, flags, lo, hi) && NamesFixed(img)
  {
    var b := WithTables(img, g);
    SameDynIdx(img, b);
    forall i: nat | Kept(img, flags, i) ensures Kept(b, flags, i) && SectionLen(b, i) == SectionLen(img, i) {
    }
  }

  /** `job` is the prepend of an image whose note lies behind the first load, and `f`
      its final image. */
  ghost predicate StalePrepend(img: Image, flags: seq<bool>, origLen: nat, page: nat, keepTail: bool, job: Job,
                               f: Image, k: nat, s: nat)
  {
    && PrependPlaced(img, flags, origLen, page, keepTail) && NoteBehind(img, flags, k, s)
    && Prepended(img, flags, origLen, page, keepTail) == Ok(f)
    && job == PrependJob(img, flags, origLen, page, keepTail) && StaleRun(job, f, k, s)
  }

  /** Every prepend of such an image is one. */
  lemma PrependIsStale(img: Image, flags: seq<bool>, origLen: nat, page: nat, keepTail: bool, f: Image, k: nat, s: nat)
    returns (job: Job)
    requires PrependPlaced(img, flags, origLen, page, keepTail) && NoteBehind(img, flags, k, s)
    requires Prepended(img, flags, origLen, page, keepTail) == Ok(f)
    ensures StalePrepend(img, flags, origLen, page, keepTail, job, f, k, s)
  {
    job := PrependJob(img, flags, origLen, page, keepTail);
    BehindIsStale(img, flags, origLen, page, keepTail, f, k, s);
  }

  /** The note's condition asks of a note behind the first load that its index names no load. */
  lemma VictimDecides(input: Job, shift: nat, f: Image, k: nat, s: nat)
    requires WellShaped(input.img) && StaleRun(ShiftedJob(input, shift), f, k, s)
    ensures NoteReady(input) <==> Victim(ShiftedJob(input, shift), k).ptype != PT_LOAD
  {
    ShiftedNote(input, shift);
    VictimAt(ShiftedJob(input, shift), k);
  }

  /** The prepend writes a file if and only if the entry the stale index names is no
      load and the headers can be encoded. */
  lemma StaleNoteWritten(img: Image, flags: seq<bool>, page: nat, keepTail: bool, original: seq<byte>, job: Job,
                         f: Image, k: nat, s: nat)
    requires PrependSound(img, flags, |original|, page, keepTail)
    requires StalePrepend(img, flags, |original|, page, keepTail, job, f, k, s)
    ensures WellShaped(f)
    ensures PrependFile(img, flags, page, keepTail, original).Ok? <==> Victim(job, k).ptype != PT_LOAD && Headers(f).Ok?
  {
    VictimDecides(PrependInput(img, flags, |original|, page, keepTail), PrependShift(img, flags, page, keepTail), f,
                  k, s);
    if Victim(job, k).ptype == PT_LOAD {
      StaleNoteRefused(img, flags, page, keepTail, original, job, f, k, s);
    } else {
      PrependEstablishesVerify(img, flags, page, keepTail, original);
    }
  }

  /** If it is a load, the check before writing refuses the image. */
  lemma StaleNoteRefused(img: Image, flags: seq<bool>, page: nat, keepTail: bool, original: seq<byte>, job: Job,
                         f: Image, k: nat, s: nat)
    requires StalePrepend(img, flags, |original|, page, keepTail, job, f, k, s) && Victim(job, k).ptype == PT_LOAD
    ensures PrependFile(img, flags, page, keepTail, original) == Err(ConstraintError)
  {
    StaleRefused(job, f, k, s);
  }

  /** If it is not, the written file has the note's extent in that entry, and the note's
      own segment still where it was in the input. */
  lemma StaleNoteMisframes(job: Job, f: Image, k: nat, s: nat)
    requires StaleRun(job, f, k, s)
    ensures s < |f.shdrs| && k < |f.phdrs| && f.phdrs[k].ptype == Victim(job, k).ptype
    ensures Target(f, PhdrVaddr(job.g), f.phdrs[k].ptype).None? ==> Frames(f.phdrs[k], ExtentOf(f.shdrs[s]))
    ensures k < NewIndex(job.img, job.g, true, k) < |f.phdrs|
            && f.phdrs[NewIndex(job.img, job.g, true, k)] == job.img.phdrs[k]
  {
    StaleVictim(job, f, k, s);
    NoteLeftBehind(job, f, k);
  }

  lemma NoteLeftBehind(job: Job, f: Image, k: nat)
    requires Yields(job, f) && job.front && job.note == Some(k) && k < |job.img.phdrs|
             && job.img.phdrs[k].ptype == PT_NOTE
    requires job.g.region.dataLen <= job.g.region.len
             && FirstLoad(job.img.phdrs + NewLoads(job.g.region, job.g.at)) <= k
    ensures k < NewIndex(job.img, job.g, true, k) < |f.phdrs|
            && f.phdrs[NewIndex(job.img, job.g, true, k)] == job.img.phdrs[k]
  {
    PushedShape(job.img, job.g, true);
    PushedEntries(job.img, job.g, true);
    SyncedOther(Pushed(job.img, job.g, true), k, NewIndex(job.img, job.g, true, k), PhdrVaddr(job.g));
  }

  lemma SyncedOther(q: Image, k: nat, x: nat, phdrVaddr: nat)
    requires k != x && x < |q.phdrs| && q.phdrs[x].ptype == PT_NOTE
    ensures SyncedPhdrs(q, Some(k), phdrVaddr)[x] == q.phdrs[x]
  {
  }

  // ---- Installing the note ----

  function NoteHeader(): Shdr
  {
    Shdr(0, SHT_NOTE, SHF_ALLOC, 0, 0, 0, 0, 0, 4, 0)
  }

  /** The placeholder that a layout brings in line with the placed note. */
  function NoteSegment(): Phdr
  {
    Phdr(PT_NOTE, PF_R, 0, 0, 0, 0, 0, 4)
  }

  /** The image with the note's bytes in place, its section and segment added if new. */
  function NoteInstalled(v: Image, note: seq<byte>): Result<Image>
    requires |v.data| == |v.shdrs|
  {
    match v.FindSection(LDCACHE)
    case Some(s) =>
      if v.data[s] == note then Ok(v)
      else Ok(v.(data := v.data[s := note], shdrs := v.shdrs[s := v.shdrs[s].(size := 0)]))
    case None =>
      if v.ehdr.shstrndx >= |v.data| then Err(MissingError)
      else if |v.data[v.ehdr.shstrndx]| >= 0x1_0000_0000 then Err(UnsupportedError)
      else Ok(WithSection(v, LDCACHE, NoteHeader(), note).(phdrs := v.phdrs + [NoteSegment()]))
  }

  /** `add_note_section`. */
  method InstallNote(image: ElfImage, note: seq<byte>) returns (r: Result<()>)
    requires |image.data| == |image.shdrs|
    modifies image
    ensures match NoteInstalled(old(image.View()), note)
            case Err(e) => r == Err(e) && image.View() == old(image.View())
            case Ok(w) => r == Ok(()) && image.View() == w
  {
    var found := image.View().FindSection(LDCACHE);
    if found.Some? {
      var s := found.value;
      if image.data[s] == note {
        return Ok(());
      }
      image.data := image.data[s := note];
      image.shdrs := image.shdrs[s := image.shdrs[s].(size := 0)];
      return Ok(());
    }
    var names := image.ehdr.shstrndx;
    if names >= |image.data| {
      return Err(MissingError);
    }
    var off := |image.data[names]|;
    if off >= 0x1_0000_0000 {
      return Err(UnsupportedError);
    }
    image.data := image.data[names := image.data[names] + LDCACHE + [0]];
    image.shdrs := image.shdrs + [NoteHeader().(name := off)];
    image.data := image.data + [note];
    image.phdrs := image.phdrs + [NoteSegment()];
    r := Ok(());
  }

  /** Installing the note is an edit the next reclaiming run can follow. */
  lemma NoteEdits(v: Image, note: seq<byte>)
    requires |v.data| == |v.shdrs| && NamesTerminated(v) && NoteInstalled(v, note).Ok?
    requires v.FindSection(LDCACHE).Some? ==> v.FindSection(LDCACHE).value != v.ehdr.shstrndx
    ensures Reclaim.Edited(v, NoteInstalled(v, note).value)
  {
    if v.FindSection(LDCACHE).None? {
      AsciiClean(".note.nixos.ldcache");
      WithSectionNames(v, LDCACHE, NoteHeader(), note);
    }
  }

  /** A newly installed note's segment is the last entry of the table, so in a prepend
      it lies behind the first load whenever there is one. */
  lemma FreshNoteIsLast(v: Image, note: seq<byte>)
    requires |v.data| == |v.shdrs| && NamesTerminated(v) && NoteInstalled(v, note).Ok? && v.FindSection(LDCACHE).None?
    requires forall p :: p in v.phdrs && p.ptype == PT_NOTE ==> p.offset != 0
    ensures var w := NoteInstalled(v, note).value;
            && w.FindSection(LDCACHE) == Some(|v.shdrs|) && LdcacheNote(w) == Some(|v.phdrs|)
              && |w.phdrs| == |v.phdrs| + 1
            && (Loads(v.phdrs) != [] ==> FirstLoad(w.phdrs) < |v.phdrs|)
  {
    var w, n := NoteInstalled(v, note).value, |v.shdrs|;
    AsciiClean(".note.nixos.ldcache");
    WithSectionNames(v, LDCACHE, NoteHeader(), note);
    forall i | 0 <= i < n ensures !w.Named(LDCACHE)[i] {
      assert !v.Named(LDCACHE)[i];
      assert w.SectionName(i) == WithSection(v, LDCACHE, NoteHeader(), note).SectionName(i);
    }
    assert w.SectionName(n) == WithSection(v, LDCACHE, NoteHeader(), note).SectionName(n);
    FirstTrueIs(w.Named(LDCACHE), n);
    forall j | 0 <= j < |v.phdrs| ensures !(w.phdrs[j].ptype == PT_NOTE && w.phdrs[j].offset == 0) {
      assert w.phdrs[j] in v.phdrs;
    }
    NoteIndex(w, n, |v.phdrs|);
    if Loads(v.phdrs) != [] {
      SameFirstLoad(v.phdrs, w.phdrs);
    }
  }

  /** The section the note is read from holds it; a new one is a loaded note, aligned at
      4, with a read-only segment of its own. */
  lemma NoteHeld(v: Image, note: seq<byte>)
    requires |v.data| == |v.shdrs| && NamesTerminated(v) && NoteInstalled(v, note).Ok?
    requires forall p :: p in v.phdrs && p.ptype == PT_NOTE ==> p.offset != 0
    requires v.FindSection(LDCACHE).Some? ==> v.FindSection(LDCACHE).value != v.ehdr.shstrndx
    ensures var w := NoteInstalled(v, note).value;
            && w.FindSection(Ascii(".note.nixos.ldcache")).Some? && |w.data| == |w.shdrs|
            && var s := w.FindSection(Ascii(".note.nixos.ldcache")).value;
               && w.data[s] == note
               && (v.FindSection(Ascii(".note.nixos.ldcache")).None? ==>
                     && w.shdrs[s] == Shdr(w.shdrs[s].name, 7, 2, 0, 0, 0, 0, 0, 4, 0)
                     && w.phdrs == v.phdrs + [Phdr(4, 4, 0, 0, 0, 0, 0, 4)])
  {
    var w := NoteInstalled(v, note).value;
    match v.FindSection(LDCACHE) {
      case Some(s) =>
        assert w.Named(LDCACHE) == v.Named(LDCACHE);
      case None => FreshNoteIsLast(v, note);
    }
  }

  lemma NoteIndex(w: Image, s: nat, k: nat)
    requires w.FindSection(LDCACHE) == Some(s) && k < |w.phdrs|
    requires w.phdrs[k].ptype == PT_NOTE && w.phdrs[k].offset == w.shdrs[s].offset
    requires forall j :: 0 <= j < k ==> !(w.phdrs[j].ptype == PT_NOTE && w.phdrs[j].offset == w.shdrs[s].offset)
    ensures LdcacheNote(w) == Some(k)
  {
    FirstTrueIs(seq(|w.phdrs|, i requires 0 <= i < |w.phdrs| =>
      w.phdrs[i].ptype == PT_NOTE && w.phdrs[i].offset == w.shdrs[s].offset), k);
  }
}
