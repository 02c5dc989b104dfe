/** Prepends (src/layout.rs) of a concrete program whose ld-cache note has just been
    installed: one is refused, one is written with another segment framing the note. */
module NoteFailures {
  import opened Bytes
  import opened Ir
  import opened Codec
  import opened Align
  import opened Serialize
  import opened Layout
  import opened Shape
  import opened Placed
  import opened Segments
  import opened Verify
  import opened Accepted
  import opened Dynamic
  import opened Shift
  import opened Prepend
  import opened PrependTheorems
  import opened Parser
  import opened RoundTrip
  import opened Outcome
  import opened Example
  import opened NewSection
  import opened StaleNote
  import Relayout
  import SymbolNames

  const BASE: nat := 0x10000

  const BOTH: seq<bool> := [true, true]

  // ---- The program with its note ----

  /** The program with an ld-cache note just installed. */
  function Noted(ident: seq<byte>, note: seq<byte>, relro: bool): Image
  {
    Program(ident, BASE, relro, 64).(
      phdrs := Table(BASE, relro) + [NoteSegment()],
      shdrs := [Names(), NoteHeader().(name := 1)],
      data := [[0] + LDCACHE + [0], note])
  }

  lemma NotedInstalled(ident: seq<byte>, note: seq<byte>, relro: bool)
    requires |ident| == 16
    ensures NoteInstalled(Program(ident, BASE, relro, 64), note) == Ok(Noted(ident, note, relro))
    ensures Program(ident, BASE, relro, 64).FindSection(LDCACHE).None?
  {
    var v, w := Program(ident, BASE, relro, 64), Noted(ident, note, relro);
    NoSections(v);
    var added := WithSection(v, LDCACHE, NoteHeader(), note);
    assert added.data == w.data && added.shdrs == w.shdrs;
  }

  lemma NotedIs(ident: seq<byte>, note: seq<byte>, relro: bool)
    requires |ident| == 16
    ensures var v, w := Program(ident, BASE, relro, 64), Noted(ident, note, relro);
            && NoteInstalled(v, note) == Ok(w) && w.FindSection(LDCACHE) == Some(1) && LdcacheNote(w) == Some(|v.phdrs|)
            && FirstLoad(w.phdrs) == 0
  {
    NotedInstalled(ident, note, relro);
    OnlyLoad(BASE, relro);
    NulEndUnique([0], 0, 0);
    FreshNoteIsLast(Program(ident, BASE, relro, 64), note);
    FirstLoadIs(Noted(ident, note, relro).phdrs, 0);
  }

  /** The two sections, wherever they are placed. */
  ghost predicate TwoSections(v: Image)
  {
    && v.ehdr.shstrndx == 0 && |v.shdrs| == |v.data| == 2 && |v.ehdr.ident| == 16 && v.enc == Enc(Elf64, Little)
    && v.shdrs[0].shtype == SHT_STRTAB && v.shdrs[0].name == 0 && v.shdrs[0].flags == 0 && v.shdrs[0].addralign == 1
    && v.shdrs[1].shtype == SHT_NOTE && v.shdrs[1].name == 1 && v.shdrs[1].flags == SHF_ALLOC
      && v.shdrs[1].addralign == 4
    && v.data[0] == [0] + LDCACHE + [0] && v.dynamic == []
  }

  lemma NoteNames()
    ensures CStr([0] + LDCACHE + [0], 0) == Some([]) && CStr([0] + LDCACHE + [0], 1) == Some(LDCACHE)
  {
    var tab := [0] + LDCACHE + [0];
    AsciiClean(".note.nixos.ldcache");
    SymbolNames.AppendReads([0], LDCACHE);
    SymbolNames.CStrIsNameAt(tab, 1);
    NulEndUnique(tab, 0, 0);
  }

  /** No section but the note's is found by name. */
  lemma TwoFound(v: Image, name: seq<byte>)
    requires TwoSections(v) && name != [] && name != LDCACHE
    ensures v.FindSection(name).None?
  {
    NoteNames();
    assert v.SectionName(0) == Some([]) && v.SectionName(1) == Some(LDCACHE);
    var bs := v.Named(name);
    assert !bs[0] && !bs[1];
  }

  lemma OtherNames()
    ensures INTERP != [] && DYNSTR != [] && STUB != [] && ABIFLAGS != []
    ensures INTERP != LDCACHE && DYNSTR != LDCACHE && STUB != LDCACHE && ABIFLAGS != LDCACHE
  {
    assert |INTERP| == 7 && |DYNSTR| == 7 && |STUB| == 16 && |ABIFLAGS| == 14 && |LDCACHE| == 19;
  }

  lemma TwoFinds(v: Image)
    requires TwoSections(v)
    ensures v.FindSection(INTERP).None? && v.FindSection(DYNSTR).None? && v.FindSection(STUB).None?
    ensures v.FindSection(ABIFLAGS).None? && v.DynIdx().None?
  {
    OtherNames();
    FirstDynamicFacts(v.shdrs);
    TwoFound(v, INTERP);
    TwoFound(v, DYNSTR);
    TwoFound(v, STUB);
    TwoFound(v, ABIFLAGS);
  }

  /** Both its sections move: the name table grew, the note is new. */
  lemma NotedMoves(ident: seq<byte>, note: seq<byte>, relro: bool)
    requires |ident| == 16 && note != []
    ensures var v := Noted(ident, note, relro);
            && DropPrior(v, true) == v && RegionStart(v, true).None?
            && RelocationFlags(v, GrownSections(v), None) == BOTH
  {
    var v := Noted(ident, note, relro);
    TwoFinds(v);
    var bs := Priors(v);
    assert forall i :: 0 <= i < |bs| ==> !bs[i];
    assert PriorLoad(v) == FirstTrue(bs);
    IndicesFacts(seq(|v.shdrs|, i requires 0 <= i < |v.shdrs| => Resized(v, i)));
    assert Resized(v, 0) && Resized(v, 1);
  }

  // ---- Its region ----

  lemma IndicesOf2(bs: seq<bool>, b: bool)
    requires bs == [b, b]
    ensures Indices(bs) == if b then [0, 1] else []
  {
    assert bs[..1] == [b] && bs[..1][..0] == [];
    assert Indices(bs[..1][..0]) == [] && Indices(bs[..1]) == if b then [0] else [];
  }

  lemma DataOnly(v: Image)
    requires TwoSections(v)
    ensures Indices(DataFlags(v, BOTH)) == [0, 1] && Indices(ExecFlags(v, BOTH)) == []
  {
    assert !HasFlag(SHF_ALLOC, SHF_EXECINSTR) && !HasFlag(0, SHF_EXECINSTR);
    assert DataFlags(v, BOTH) == [true, true] && ExecFlags(v, BOTH) == [false, false];
    IndicesOf2(DataFlags(v, BOTH), true);
    IndicesOf2(ExecFlags(v, BOTH), false);
  }

  lemma NotedEnd(v: Image, head: nat)
    requires TwoSections(v) && |v.data[1]| <= 0x1000 && head <= 0x200
    ensures InRange(v, [0, 1]) && LayoutEnd(v, [0, 1], head) <= 0x2000
  {
    TwoFinds(v);
    var one: seq<nat>, two: seq<nat> := [0], [0, 1];
    assert one[..0] == [] && two[..1] == one;
    RoundUpFacts(head, 16);
    assert SecAlign(v, 0) == 16 && SecAlign(v, 1) == 16 && SectionLen(v, 0) == 21;
    var end := LayoutEnd(v, one, head);
    assert LayoutEnd(v, one[..0], head) == head;
    assert end == RoundUp(head, 16) + 21;
    RoundUpFacts(end, 16);
  }

  lemma NotedHead(v: Image, keepTail: bool)
    requires TwoSections(v) && v.ehdr.ehsize == 64 && |v.phdrs| <= 3
    ensures PrependHead(v, 1, keepTail) <= 0x200
  {
    RoundUpFacts(PrependPhtSize(v, 1), 16);
    RoundUpFacts(128, 16);
  }

  /** The region holds the name table and the note, in at most two pages. */
  lemma NotedRegion(v: Image, keepTail: bool)
    requires TwoSections(v) && v.ehdr.ehsize == 64 && |v.phdrs| <= 3 && |v.data[1]| <= 0x1000
    ensures var r := PrependRegion(v, BOTH, PAGE, keepTail);
            r.sections == [0, 1] && r.loads == 1 && r.len <= 0x2000
  {
    DataOnly(v);
    NotedHead(v, keepTail);
    NotedEnd(v, PrependHead(v, 1, keepTail));
  }

  lemma NotedLoads(relro: bool)
    ensures Loads(Table(BASE, relro) + [NoteSegment()]) == [OneLoad(BASE)]
  {
    OnlyLoad(BASE, relro);
    LoadsSnoc(Table(BASE, relro), NoteSegment());
  }

  /** It fits below the program. */
  lemma NotedRoom(ident: seq<byte>, note: seq<byte>, relro: bool, keepTail: bool)
    requires |ident| == 16 && |note| <= 0x1000
    ensures var v := Noted(ident, note, relro);
            CanPrepend(v, BOTH, PAGE, keepTail) && PrependShift(v, BOTH, PAGE, keepTail) <= 0x3000
  {
    var v := Noted(ident, note, relro);
    NotedLoads(relro);
    Measures(BASE);
    NotedRegion(v, keepTail);
    RoundUpFacts(PrependRegion(v, BOTH, PAGE, keepTail).len, PAGE);
  }

  // ---- Its conditions ----

  /** A prepend of the program. */
  ghost predicate NotedRun(ident: seq<byte>, note: seq<byte>, relro: bool, job: Job)
  {
    && |ident| == 16 && 0 < |note| <= 0x1000 && job.front && job.flags == BOTH && job.lo == 0 && job.hi == 0x200
    && job.note == Some(|Table(BASE, relro)|) && job.img == WithTables(Noted(ident, note, relro), job.g)
    && job.g.region.sections == [0, 1] && |job.g.region.offsets| == 2 && job.g.region.loads == 1
    && job.g.region.dataLen <= job.g.region.len
  }

  lemma NotedRunOf(ident: seq<byte>, note: seq<byte>, relro: bool, keepTail: bool)
    requires |ident| == 16 && 0 < |note| <= 0x1000
    ensures CanPrepend(Noted(ident, note, relro), BOTH, PAGE, keepTail)
    ensures NotedRun(ident, note, relro, PrependInput(Noted(ident, note, relro), BOTH, 0x200, PAGE, keepTail))
  {
    var v := Noted(ident, note, relro);
    NotedRoom(ident, note, relro, keepTail);
    NotedRegion(v, keepTail);
    NotedIs(ident, note, relro);
  }

  lemma NotedSections(ident: seq<byte>, note: seq<byte>, relro: bool, job: Job)
    requires NotedRun(ident, note, relro, job)
    ensures TwoSections(job.img) && WellShaped(job.img) && KeptSections(job.img, job.flags, job.lo, job.hi)
    ensures ClassSizes(job.img) && NamesFixed(job.img) && SectionLinks(job.img)
  {
    TwoFinds(job.img);
    forall i: nat ensures !Kept(job.img, BOTH, i) {
    }
  }

  /** The entries of the program's table, wherever they are shifted to. */
  lemma NotedTypes(relro: bool, i: nat)
    requires i < |Table(BASE, relro) + [NoteSegment()]|
    ensures (Table(BASE, relro) + [NoteSegment()])[i].ptype in [PT_LOAD, PT_GNU_RELRO, PT_NOTE]
  {
  }

  lemma NotedSegments(ident: seq<byte>, note: seq<byte>, relro: bool, job: Job)
    requires NotedRun(ident, note, relro, job)
    ensures SegmentsBounded(job) && InterpReady(job)
  {
    NotedSections(ident, note, relro, job);
    TwoFinds(job.img);
    SameFind(Noted(ident, note, relro), job.img, LDCACHE);
    NotedIs(ident, note, relro);
    NoInterp(job.img, job.g, relro);
  }

  lemma NoInterp(img: Image, g: Geometry, relro: bool)
    requires img.phdrs == Table(BASE, relro) + [NoteSegment()] && g.region.dataLen <= g.region.len
    ensures forall x :: 0 <= x < |PushedPhdrs(img, g, true)| ==> PushedPhdrs(img, g, true)[x].ptype != PT_INTERP
  {
    assert ShiftedPhdrs(img.phdrs, 0) == img.phdrs;
    forall x | 0 <= x < |PushedPhdrs(img, g, true)| ensures PushedPhdrs(img, g, true)[x].ptype != PT_INTERP {
      NotedKind(img, g, relro, 0, x);
    }
  }

  lemma NotedFollowed(ident: seq<byte>, note: seq<byte>, relro: bool, job: Job)
    requires NotedRun(ident, note, relro, job)
    ensures EntryReady(job) && DynReady(job)
  {
    NotedSections(ident, note, relro, job);
    TwoFinds(job.img);
    NotedLoads(relro);
    EntryInLoad(BASE);
    assert OneLoad(BASE) in Loads(job.img.phdrs);
    assert job.img.shdrs[0].addr == 0 && job.img.shdrs[1].addr == 0;
  }

  lemma NotedAligns(relro: bool)
    ensures forall p :: p in Table(BASE, relro) + [NoteSegment()] ==> ValidAlign(p.align)
  {
    AlignsHold(BASE, relro);
    PowersHere();
  }

  /** But for where the note stands, the program meets every condition. */
  lemma NotedSound(ident: seq<byte>, note: seq<byte>, relro: bool, keepTail: bool)
    requires |ident| == 16 && 0 < |note| <= 0x1000
    ensures PrependSound(Noted(ident, note, relro), BOTH, 0x200, PAGE, keepTail)
  {
    NotedRunOf(ident, note, relro, keepTail);
    var job := PrependInput(Noted(ident, note, relro), BOTH, 0x200, PAGE, keepTail);
    NotedSections(ident, note, relro, job);
    NotedSegments(ident, note, relro, job);
    NotedFollowed(ident, note, relro, job);
    NotedLoads(relro);
    OneLoadOk(BASE);
    NotedAligns(relro);
    PowersHere();
  }

  // ---- The prepend ----

  lemma {:induction false} NoRanges(v: Image, secs: seq<nat>, n: nat)
    requires InRange(v, secs) && n <= |secs| && forall i :: 0 <= i < |v.shdrs| ==> v.shdrs[i].addr == 0
    ensures OldRanges(v, secs, n) == []
  {
    if n > 0 {
      NoRanges(v, secs, n - 1);
    }
  }

  /** Without addresses to vacate or a dynamic section, a prepend has its final image. */
  lemma PrependedOk(v: Image, flags: seq<bool>, origLen: nat, page: nat, keepTail: bool)
    requires WellShaped(v) && |flags| == |v.shdrs| && page > 0 && CanPrepend(v, flags, page, keepTail)
    requires forall i :: 0 <= i < |v.shdrs| ==> v.shdrs[i].addr == 0 && v.shdrs[i].shtype != SHT_DYNAMIC
    ensures Prepended(v, flags, origLen, page, keepTail).Ok?
  {
    var g := PrependGeometry(v, flags, origLen, page, keepTail);
    NoRanges(v, g.region.sections, |g.region.sections|);
    ArrangedOk(WithTables(Shifted(v, PrependShift(v, flags, page, keepTail)), g), g, LdcacheNote(v), true);
  }

  lemma NotedUnplaced(v: Image, ident: seq<byte>, note: seq<byte>, relro: bool)
    requires v == Noted(ident, note, relro)
    ensures forall i :: 0 <= i < |v.shdrs| ==> v.shdrs[i].addr == 0 && v.shdrs[i].shtype != SHT_DYNAMIC
  {
  }

  /** The final image, with the note behind the first load. */
  lemma NotedPrepend(ident: seq<byte>, note: seq<byte>, relro: bool, keepTail: bool) returns (job: Job, f: Image)
    requires |ident| == 16 && 0 < |note| <= 0x1000
    ensures PrependSound(Noted(ident, note, relro), BOTH, 0x200, PAGE, keepTail)
    ensures StalePrepend(Noted(ident, note, relro), BOTH, 0x200, PAGE, keepTail, job, f, |Table(BASE, relro)|, 1)
  {
    var v := Noted(ident, note, relro);
    NotedSound(ident, note, relro, keepTail);
    NotedUnplaced(v, ident, note, relro);
    PrependedOk(v, BOTH, 0x200, PAGE, keepTail);
    NotedBehind(ident, note, relro);
    job, f := SoundIsStale(v, BOTH, 0x200, PAGE, keepTail, |Table(BASE, relro)|, 1);
  }

  lemma SoundIsStale(v: Image, flags: seq<bool>, origLen: nat, page: nat, keepTail: bool, k: nat, s: nat)
    returns (job: Job, f: Image)
    requires PrependSound(v, flags, origLen, page, keepTail) && NoteBehind(v, flags, k, s)
    requires Prepended(v, flags, origLen, page, keepTail).Ok?
    ensures StalePrepend(v, flags, origLen, page, keepTail, job, f, k, s)
  {
    f := Prepended(v, flags, origLen, page, keepTail).value;
    SoundIsPlaced(v, flags, origLen, page, keepTail);
    job := PrependIsStale(v, flags, origLen, page, keepTail, f, k, s);
  }

  lemma NotedBehind(ident: seq<byte>, note: seq<byte>, relro: bool)
    requires |ident| == 16 && note != []
    ensures NoteBehind(Noted(ident, note, relro), BOTH, |Table(BASE, relro)|, 1)
  {
    var v := Noted(ident, note, relro);
    NotedIs(ident, note, relro);
    TwoFinds(v);
    NotedLoads(relro);
    assert !HasFlag(SHF_ALLOC, SHF_EXECINSTR);
  }

  /** With one new load the stale index names the entry just before the note. */
  lemma VictimBefore(job: Job, k: nat)
    requires job.g.region.loads == 1 && job.g.region.dataLen <= job.g.region.len && k < |job.img.phdrs|
    requires FirstLoad(job.img.phdrs + NewLoads(job.g.region, job.g.at)) == 0 < k
    ensures Victim(job, k) == job.img.phdrs[k - 1]
  {
  }

  lemma NotedVictim(ident: seq<byte>, note: seq<byte>, relro: bool, input: Job, shift: nat)
    requires NotedRun(ident, note, relro, input)
    ensures var job := ShiftedJob(input, shift);
            && FirstLoad(job.img.phdrs + NewLoads(job.g.region, job.g.at)) == 0
            && |Table(BASE, relro)| < |job.img.phdrs|
            && Victim(job, |Table(BASE, relro)|).ptype == if relro then PT_GNU_RELRO else PT_LOAD
  {
    var job := ShiftedJob(input, shift);
    FirstLoadIs(job.img.phdrs + NewLoads(job.g.region, job.g.at), 0);
    VictimBefore(job, |Table(BASE, relro)|);
  }

  /** Preparing either program for the layout, up to its final image. */
  lemma NotedOutcome(ident: seq<byte>, note: seq<byte>, relro: bool, keepTail: bool) returns (job: Job, f: Image)
    requires |ident| == 16 && 0 < |note| <= 0x1000
    ensures PrependSound(Noted(ident, note, relro), BOTH, 0x200, PAGE, keepTail)
    ensures StalePrepend(Noted(ident, note, relro), BOTH, 0x200, PAGE, keepTail, job, f, |Table(BASE, relro)|, 1)
    ensures NotedFits(job, relro)
  {
    job, f := NotedPrepend(ident, note, relro, keepTail);
    var v := Noted(ident, note, relro);
    NotedRunOf(ident, note, relro, keepTail);
    NotedVictim(ident, note, relro, PrependInput(v, BOTH, 0x200, PAGE, keepTail),
                PrependShift(v, BOTH, PAGE, keepTail));
  }

  /** The stale index names the read-only range, or the load when there is none. */
  ghost predicate NotedFits(job: Job, relro: bool)
  {
    && job.g.region.dataLen <= job.g.region.len && |Table(BASE, relro)| < |job.img.phdrs|
    && FirstLoad(job.img.phdrs + NewLoads(job.g.region, job.g.at)) == 0
    && Victim(job, |Table(BASE, relro)|).ptype == if relro then PT_GNU_RELRO else PT_LOAD
  }

  /** The program's only load is next to the note: it is what the stale index names,
      and the prepend is refused. */
  lemma FreshNoteRefused(ident: seq<byte>, note: seq<byte>, keepTail: bool, original: seq<byte>)
    requires |ident| == 16 && 0 < |note| <= 0x1000 && |original| == 0x200
    ensures NoteInstalled(Program(ident, BASE, false, 64), note) == Ok(Noted(ident, note, false))
    ensures var v := Noted(ident, note, false);
            Relayout.PrependResult(v, GrownSections(v), PAGE, keepTail, original) == Err(ConstraintError)
  {
    var v := Noted(ident, note, false);
    NotedIs(ident, note, false);
    NotedMoves(ident, note, false);
    var job, f := NotedOutcome(ident, note, false, keepTail);
    StaleNoteRefused(v, BOTH, PAGE, keepTail, original, job, f, 1, 1);
  }

  // ---- A written file ----

  /** Every header of the final image is small. */
  lemma NotedShdrs(job: Job, f: Image, s: Shdr)
    requires Yields(job, f) && FileReady(job) && job.g.region.sections == [0, 1] && job.g.region.len <= 0x2000
    requires job.g.at.off == 0 && job.g.at.vaddr <= BASE && job.flags == BOTH
    requires forall i :: 0 <= i < |job.img.shdrs| ==> SmallShdr(job.img.shdrs[i])
    requires s in f.shdrs
    ensures SmallShdr(s)
  {
    FinalFields(job.img, job.g, job.note, job.front, f);
    var i :| 0 <= i < |f.shdrs| && f.shdrs[i] == s;
    MovedShdr(job, IndexOf(job.g.region.sections, i));
  }

  lemma SmallPushed(img: Image, g: Geometry, p: Phdr)
    requires g.region.dataLen <= g.region.len <= 0x2000 && g.region.loads == 1 && p in PushedPhdrs(img, g, true)
    requires g.at.off == 0 && g.at.vaddr <= BASE && g.at.filesz <= 0x3000 && g.at.align == PAGE
    requires forall q :: q in img.phdrs ==> SmallPhdr(q)
    ensures SmallPhdr(p)
  {
    PushedEntries(img, g, true);
    var t := PushedPhdrs(img, g, true);
    var x :| 0 <= x < |t| && t[x] == p;
    if p !in NewLoads(g.region, g.at) {
      var i :| 0 <= i < |img.phdrs| && NewIndex(img, g, true, i) == x;
      assert p == img.phdrs[i] && img.phdrs[i] in img.phdrs;
    }
  }

  lemma SmallSynced(q: Image, k: nat, s: nat, phdrVaddr: nat, x: nat)
    requires q.FindSection(LDCACHE) == Some(s) && k < |q.phdrs| && x < |q.phdrs| && SmallShdr(q.shdrs[s])
    requires SmallPhdr(q.phdrs[x]) && q.phdrs[x].ptype in [PT_LOAD, PT_GNU_RELRO, PT_NOTE]
    ensures SmallPhdr(SyncedPhdrs(q, Some(k), phdrVaddr)[x])
  {
  }

  /** The table of the prepend: small entries that frame nothing but the note. */
  lemma NotedTable(job: Job, f: Image, relro: bool, shift: nat)
    requires StaleRun(job, f, |Table(BASE, relro)|, 1) && job.g.region.len <= 0x2000 && job.g.region.loads == 1
    requires job.img.phdrs == ShiftedPhdrs(Table(BASE, relro) + [NoteSegment()], shift) && shift <= 0x3000
    requires job.g.at.off == 0 && job.g.at.vaddr <= BASE && job.g.at.filesz <= 0x3000 && job.g.at.align == PAGE
    requires 1 < |f.shdrs| && SmallShdr(f.shdrs[1])
    ensures forall p :: p in f.phdrs ==> SmallPhdr(p)
  {
    PushedShape(job.img, job.g, true);
    FinalFields(job.img, job.g, job.note, job.front, f);
    var q := Pushed(job.img, job.g, true);
    SameFind(job.img, q, LDCACHE);
    forall p | p in f.phdrs ensures SmallPhdr(p) {
      var x :| 0 <= x < |f.phdrs| && f.phdrs[x] == p;
      ShiftedSmall(relro, shift);
      SmallPushed(job.img, job.g, q.phdrs[x]);
      NotedKind(job.img, job.g, relro, shift, x);
      SmallSynced(q, |Table(BASE, relro)|, 1, PhdrVaddr(job.g), x);
    }
  }

  lemma ShiftedSmall(relro: bool, shift: nat)
    requires shift <= 0x3000
    ensures forall p :: p in ShiftedPhdrs(Table(BASE, relro) + [NoteSegment()], shift) ==> SmallPhdr(p)
  {
  }

  lemma NotedKind(img: Image, g: Geometry, relro: bool, shift: nat, x: nat)
    requires img.phdrs == ShiftedPhdrs(Table(BASE, relro) + [NoteSegment()], shift) && g.region.dataLen <= g.region.len
    requires x < |PushedPhdrs(img, g, true)|
    ensures PushedPhdrs(img, g, true)[x].ptype in [PT_LOAD, PT_GNU_RELRO, PT_NOTE]
  {
    PushedEntries(img, g, true);
    if PushedPhdrs(img, g, true)[x] !in NewLoads(g.region, g.at) {
      var i :| 0 <= i < |img.phdrs| && NewIndex(img, g, true, i) == x;
      NotedTypes(relro, i);
    }
  }

  /** The numbers of the prepend are small. */
  lemma NotedNumbers(ident: seq<byte>, note: seq<byte>, relro: bool, keepTail: bool)
    requires |ident| == 16 && 0 < |note| <= 0x1000 && CanPrepend(Noted(ident, note, relro), BOTH, PAGE, keepTail)
    ensures var g, shift := PrependGeometry(Noted(ident, note, relro), BOTH, 0x200, PAGE, keepTail),
                            PrependShift(Noted(ident, note, relro), BOTH, PAGE, keepTail);
            && g.region.sections == [0, 1] && g.region.loads == 1 && g.region.len <= 0x2000 && shift <= 0x3000
            && g.at == Site(0, BASE - shift, shift, PAGE, PAGE) && g.phoff == 64 && g.shoff < 0x4000
  {
    var v := Noted(ident, note, relro);
    NotedRegion(v, keepTail);
    NotedRoom(ident, note, relro, keepTail);
    NotedLoads(relro);
    Measures(BASE);
    RoundUpFacts(PrependPhtSize(v, 1), 16);
    RoundUpFacts(0x200 + PrependShift(v, BOTH, PAGE, keepTail), 16);
  }

  /** A prepend of small headers. */
  ghost predicate SmallRun(job: Job, relro: bool, shift: nat)
  {
    && job.g.region.sections == [0, 1] && job.g.region.loads == 1 && job.g.region.len <= 0x2000 && shift <= 0x3000
    && job.g.at == Site(0, BASE - shift, shift, PAGE, PAGE) && job.flags == BOTH && job.img.enc.class_.Elf64?
    && job.img.phdrs == ShiftedPhdrs(Table(BASE, relro) + [NoteSegment()], shift)
    && SmallEhdr(job.img.ehdr) && |job.img.shdrs| == 2 && SmallShdr(job.img.shdrs[0]) && SmallShdr(job.img.shdrs[1])
    && job.img.ehdr.shstrndx == 0
  }

  lemma NotedSmallRun(ident: seq<byte>, note: seq<byte>, relro: bool, keepTail: bool)
    requires |ident| == 16 && 0 < |note| <= 0x1000 && CanPrepend(Noted(ident, note, relro), BOTH, PAGE, keepTail)
    ensures SmallRun(PrependJob(Noted(ident, note, relro), BOTH, 0x200, PAGE, keepTail), relro,
                     PrependShift(Noted(ident, note, relro), BOTH, PAGE, keepTail))
  {
    NotedNumbers(ident, note, relro, keepTail);
  }

  lemma SmallFinal(job: Job, f: Image, relro: bool, shift: nat)
    requires SmallRun(job, relro, shift) && StaleRun(job, f, |Table(BASE, relro)|, 1) && job.img.FindSection(STUB).None?
    ensures WellShaped(f) && Headers(f).Ok? && PlainCounts(f)
  {
    FinalFields(job.img, job.g, job.note, job.front, f);
    FinalEntryAddr(job, f);
    SmallHeaders(job, f, relro, shift);
    HeadersEncode(f);
  }

  lemma SmallHeaders(job: Job, f: Image, relro: bool, shift: nat)
    requires SmallRun(job, relro, shift) && StaleRun(job, f, |Table(BASE, relro)|, 1)
    ensures (forall s :: s in f.shdrs ==> SmallShdr(s)) && forall p :: p in f.phdrs ==> SmallPhdr(p)
  {
    forall s | s in f.shdrs ensures SmallShdr(s) {
      NotedShdrs(job, f, s);
    }
    NotedTable(job, f, relro, shift);
  }

  lemma NotedHeaders(ident: seq<byte>, note: seq<byte>, relro: bool, keepTail: bool, job: Job, f: Image)
    requires |ident| == 16 && 0 < |note| <= 0x1000 && CanPrepend(Noted(ident, note, relro), BOTH, PAGE, keepTail)
    requires job == PrependJob(Noted(ident, note, relro), BOTH, 0x200, PAGE, keepTail)
    requires StaleRun(job, f, |Table(BASE, relro)|, 1)
    ensures WellShaped(f) && Headers(f).Ok? && PlainCounts(f)
  {
    NotedSmallRun(ident, note, relro, keepTail);
    TwoFinds(Noted(ident, note, relro));
    PrependFinds(Noted(ident, note, relro), BOTH, 0x200, PAGE, keepTail, STUB);
    SmallFinal(job, f, relro, PrependShift(Noted(ident, note, relro), BOTH, PAGE, keepTail));
  }

  lemma NotedShaped(ident: seq<byte>, note: seq<byte>, relro: bool)
    requires IdentOk(ident, Enc(Elf64, Little))
    ensures ParserShaped(Noted(ident, note, relro))
  {
    var v := Noted(ident, note, relro);
    TwoFinds(v);
    forall i | 0 <= i < |v.phdrs| ensures v.phdrs[i].ptype != PT_DYNAMIC {
      NotedTypes(relro, i);
    }
  }

  /** With the read-only range next to the note the program meets every condition, and
      the file is written. */
  lemma NotedWrites(ident: seq<byte>, note: seq<byte>, keepTail: bool, original: seq<byte>, job: Job, f: Image)
    requires IdentOk(ident, Enc(Elf64, Little)) && 0 < |note| <= 0x1000 && |original| == 0x200
    requires PrependSound(Noted(ident, note, true), BOTH, 0x200, PAGE, keepTail)
    requires StalePrepend(Noted(ident, note, true), BOTH, 0x200, PAGE, keepTail, job, f, 2, 1)
    ensures PrependFile(Noted(ident, note, true), BOTH, PAGE, keepTail, original).Ok? && PlainCounts(f)
    ensures PrependReady(Noted(ident, note, true), BOTH, 0x200, PAGE, keepTail)
  {
    var v := Noted(ident, note, true);
    NotedRunOf(ident, note, true, keepTail);
    NotedVictim(ident, note, true, PrependInput(v, BOTH, 0x200, PAGE, keepTail), PrependShift(v, BOTH, PAGE, keepTail));
    VictimDecides(PrependInput(v, BOTH, 0x200, PAGE, keepTail), PrependShift(v, BOTH, PAGE, keepTail), f, 2, 1);
    NotedHeaders(ident, note, true, keepTail, job, f);
    PrependEstablishesVerify(v, BOTH, PAGE, keepTail, original);
  }

  /** The final table: new load, program, read-only range with the note's extent, note. */
  lemma NotedFrames(job: Job, f: Image)
    requires StaleRun(job, f, 2, 1) && NotedFits(job, true) && job.g.region.loads == 1 && |job.img.phdrs| == 3
    requires job.img.phdrs[2].filesz == 0
    ensures |f.phdrs| == 4 && f.phdrs[2].ptype == PT_GNU_RELRO && 1 < |f.shdrs| && f.FindSection(LDCACHE) == Some(1)
    ensures Frames(f.phdrs[2], ExtentOf(f.shdrs[1])) && f.phdrs[3].ptype == PT_NOTE && f.phdrs[3].filesz == 0
  {
    StaleNoteMisframes(job, f, 2, 1);
    FinalFields(job.img, job.g, job.note, job.front, f);
    SameFind(job.img, f, LDCACHE);
  }

  lemma SameLoadedNames(f: Image)
    ensures Reparsed(f).FindSection(LDCACHE) == f.FindSection(LDCACHE)
  {
    assert Reparsed(f).Named(LDCACHE) == f.Named(LDCACHE);
  }

  /** The loader's read-only range is next to the note: the file is written with that
      range framing the note, and the note's own segment still empty. */
  lemma FreshNoteMisframed(ident: seq<byte>, note: seq<byte>, keepTail: bool, original: seq<byte>)
    returns (out: seq<byte>, o: Image)
    requires IdentOk(ident, Enc(Elf64, Little)) && 0 < |note| <= 0x1000 && |original| == 0x200
    ensures NoteInstalled(Program(ident, BASE, true, 64), note) == Ok(Noted(ident, note, true))
    ensures var v := Noted(ident, note, true);
            Relayout.PrependResult(v, GrownSections(v), PAGE, keepTail, original) == Ok(Some(out))
              && Parse(out) == Ok(o)
    ensures o.FindSection(LDCACHE) == Some(1) && |o.phdrs| == 4 && o.phdrs[2].ptype == PT_GNU_RELRO && 1 < |o.shdrs|
    ensures Frames(o.phdrs[2], ExtentOf(o.shdrs[1])) && o.phdrs[3].ptype == PT_NOTE && o.phdrs[3].filesz == 0
  {
    var v := Noted(ident, note, true);
    var job, f := NotedOutcome(ident, note, true, keepTail);
    out := NotedFile(ident, note, keepTail, original, job, f);
    o := Reparsed(f);
    SameLoadedNames(f);
    NotedNumbers(ident, note, true, keepTail);
    NotedFrames(job, f);
  }

  lemma NotedFile(ident: seq<byte>, note: seq<byte>, keepTail: bool, original: seq<byte>, job: Job, f: Image)
    returns (out: seq<byte>)
    requires IdentOk(ident, Enc(Elf64, Little)) && 0 < |note| <= 0x1000 && |original| == 0x200
    requires PrependSound(Noted(ident, note, true), BOTH, 0x200, PAGE, keepTail)
    requires StalePrepend(Noted(ident, note, true), BOTH, 0x200, PAGE, keepTail, job, f, 2, 1)
    ensures NoteInstalled(Program(ident, BASE, true, 64), note) == Ok(Noted(ident, note, true))
    ensures var v := Noted(ident, note, true);
            Relayout.PrependResult(v, GrownSections(v), PAGE, keepTail, original) == Ok(Some(out))
              && Parse(out) == Ok(Reparsed(f))
  {
    var v := Noted(ident, note, true);
    NotedIs(ident, note, true);
    NotedMoves(ident, note, true);
    NotedWrites(ident, note, keepTail, original, job, f);
    NotedShaped(ident, note, true);
    out := PrependFile(v, BOTH, PAGE, keepTail, original).value;
    PrependParses(v, BOTH, PAGE, keepTail, original, PrependShift(v, BOTH, PAGE, keepTail), f, out);
  }
}
