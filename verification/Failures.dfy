/** A concrete input on which a reclaiming append (src/layout.rs) loses the program's
    code: it fails the condition of `Stub.NewStubReclaim`. */
module Failures {
  import opened Bytes
  import opened Ir
  import opened Align
  import opened Serialize
  import opened Layout
  import opened Shape
  import opened Placed
  import opened Segments
  import opened Verify
  import opened Accepted
  import opened Dynamic
  import opened Append
  import opened Example
  import Reclaim
  import Stub

  // ---- Appending to the program ----

  /** No section moves, so the region is headers alone. */
  lemma NothingMoves(img: Image, head1: nat, head2: nat, page: nat)
    requires WellShaped(img) && |img.shdrs| == 1
    ensures Plan(img, [false], head1, head2, page) == Region([], [], head1, head1, 1)
  {
    var none := [false];
    assert none[..0] == [] && Indices(none[..0]) == [];
    assert DataFlags(img, [false]) == none && ExecFlags(img, [false]) == none;
    assert Indices(none) == [];
  }

  /** The region's place and length. */
  lemma AppendPlace(ident: seq<byte>)
    requires |ident| == 16
    ensures var img := Program(ident, 0, false, 64);
            && AppendOffset(img, 0x200, PAGE) == PAGE && AppendRegion(img, [false], PAGE) == Region([], [], 240, 240, 1)
            && Loads(img.phdrs) == [OneLoad(0)] && MaxAlign(img.phdrs, PAGE) == PAGE
  {
    var img := Program(ident, 0, false, 64);
    OnlyLoad(0, false);
    Measures(0);
    NothingMoves(img, 240, 304, PAGE);
    assert AppendPhtSize(img, 1) == 176 && AppendPhtSize(img, 2) == 240 && ShtSize(img) == 64;
    assert RoundUp(0x200, PAGE) == PAGE && RoundUp(PAGE, PAGE) == PAGE;
  }

  /** A run of the append layout on the program. */
  ghost predicate RunOn(ident: seq<byte>, job: Job)
  {
    && |ident| == 16 && job.flags == [false] && job.note.None? && !job.front
    && job.img == WithTables(Program(ident, 0, false, 64), job.g) && job.lo == 64 && job.hi == 0x200
    && job.g.region == Region([], [], 240, 240, 1)
  }

  lemma AppendRunOn(ident: seq<byte>)
    requires |ident| == 16
    ensures RunOn(ident, AppendJob(Program(ident, 0, false, 64), [false], 0x200, PAGE))
  {
    NoSections(Program(ident, 0, false, 64));
    AppendPlace(ident);
  }

  lemma FollowedHold(ident: seq<byte>, job: Job)
    requires RunOn(ident, job)
    ensures InterpReady(job) && DynReady(job) && SectionLinks(job.img) && NamesFixed(job.img) && SegmentsReady(job)
  {
    NoSections(job.img);
  }

  lemma EntryHolds(ident: seq<byte>, job: Job)
    requires RunOn(ident, job)
    ensures EntryReady(job)
  {
    OnlyLoad(0, false);
    EntryInLoad(0);
    assert OneLoad(0) in Loads(job.img.phdrs);
  }

  lemma SectionsHold(ident: seq<byte>, job: Job)
    requires RunOn(ident, job)
    ensures WellShaped(job.img) && |job.flags| == |job.img.shdrs| && KeptSections(job.img, job.flags, job.lo, job.hi)
    ensures ClassSizes(job.img)
  {
    NoSections(job.img);
  }

  lemma AppendAccepts(ident: seq<byte>)
    requires |ident| == 16
    ensures AppendReady(Program(ident, 0, false, 64), [false], 0x200, PAGE)
  {
    OnlyLoad(0, false);
    Measures(0);
    PowersHere();
    AppendRunOn(ident);
    InputHolds(ident, AppendJob(Program(ident, 0, false, 64), [false], 0x200, PAGE));
  }

  lemma InputHolds(ident: seq<byte>, job: Job)
    requires RunOn(ident, job)
    ensures InputReady(job)
  {
    LoadsHold(0, false);
    AlignsHold(0, false);
    SectionsHold(ident, job);
    FollowedHold(ident, job);
    EntryHolds(ident, job);
  }

  /** Nothing in the program keeps an append from succeeding. */
  lemma AppendedOk(ident: seq<byte>)
    requires |ident| == 16
    ensures Appended(Program(ident, 0, false, 64), [false], 0x200, PAGE).Ok?
  {
    var img := Program(ident, 0, false, 64);
    AppendPlace(ident);
    var g := AppendGeometry(img, [false], 0x200, PAGE);
    ArrangedOk(WithTables(img, g), g, LdcacheNote(img), false);
  }

  // ---- A stub added to a patched program loses the program's code ----

  /** The program placed at zero, patched once. */
  lemma PatchedAtZero(ident: seq<byte>) returns (job: Job, f: Image)
    requires |ident| == 16
    ensures AppendReady(Program(ident, 0, false, 64), [false], 0x200, PAGE)
    ensures Appended(Program(ident, 0, false, 64), [false], 0x200, PAGE) == Ok(f)
    ensures Reclaim.AppendRun(job, f) && RunOn(ident, job) && job.g.at.off == PAGE
  {
    var img := Program(ident, 0, false, 64);
    AppendAccepts(ident);
    AppendPlace(ident);
    AppendRunOn(ident);
    AppendedOk(ident);
    f := Appended(img, [false], 0x200, PAGE).value;
    job := AppendJob(img, [false], 0x200, PAGE);
    Reclaim.AppendIsRun(img, [false], 0x200, PAGE);
  }

  /** A run pushes its load and leaves the one section as it is. */
  lemma RunKeeps(ident: seq<byte>, job: Job, f: Image)
    requires RunOn(ident, job) && Yields(job, f)
    ensures f.shdrs == [Names()] && f.data == [[0]] && f.enc == job.img.enc
    ensures f.ehdr.shstrndx == 0 && f.ehdr.eType == ET_DYN
  {
    FinalFields(job.img, job.g, job.note, job.front, f);
    NoSections(job.img);
    assert f.shdrs[0] == Names() && f.data[0] == [0];
  }

  /** A program whose only load is executable and placed at zero: patch it, add an
      entry stub, and the next run drops that load. */
  lemma NewStubDropsCode(ident: seq<byte>, blob: seq<byte>) returns (f: Image, v: Image)
    requires |ident| == 16 && |blob| > STUB_CODE_OFFSET
    ensures AppendReady(Program(ident, 0, false, 64), [false], 0x200, PAGE)
    ensures Appended(Program(ident, 0, false, 64), [false], 0x200, PAGE) == Ok(f)
    ensures |f.data| == |f.shdrs| && Stub.Installed(f, blob) == Ok(v)
    ensures |Loads(f.phdrs)| == 2 && Loads(DropPrior(v, true).phdrs) == []
  {
    var job;
    job, f := PatchedAtZero(ident);
    RunKeeps(ident, job, f);
    StubAdded(f, blob);
    v := Stub.Installed(f, blob).value;
    CodeDropped(ident, job, f, v);
  }

  /** The new section is found as the stub, with no place yet. */
  lemma StubAdded(f: Image, blob: seq<byte>)
    requires f.shdrs == [Names()] && f.data == [[0]] && f.ehdr.shstrndx == 0 && f.ehdr.eType == ET_DYN
             && f.enc.class_.Elf64?
    requires |blob| > STUB_CODE_OFFSET
    ensures Stub.Installed(f, blob).Ok? && Reclaim.Edited(f, Stub.Installed(f, blob).value)
    ensures var v := Stub.Installed(f, blob).value;
            v.FindSection(STUB) == Some(1) && v.shdrs[1].offset == 0 && v.shdrs[1].addr == 0
  {
    NoSections(f);
    NulEndUnique([0], 0, 0);
    Stub.InstallEdits(f, blob);
    var v, b := Stub.Installed(f, blob).value, Stub.Chained(f, blob, f.ehdr.entry);
    Stub.AddedNames(f, b);
    assert !v.Named(STUB)[0];
    FirstTrueIs(v.Named(STUB), 1);
  }

  lemma CodeDropped(ident: seq<byte>, job: Job, f: Image, v: Image)
    requires Reclaim.AppendRun(job, f) && RunOn(ident, job) && job.g.at.off == PAGE
    requires Reclaim.Edited(f, v) && v.FindSection(STUB) == Some(1) && v.shdrs[1].offset == 0 && v.shdrs[1].addr == 0
    ensures |Loads(f.phdrs)| == 2 && Loads(DropPrior(v, true).phdrs) == []
  {
    OnlyLoad(0, false);
    FirstPageIsCode();
    Stub.NewStubReclaim(job, f, v, 1);
    Reclaim.ReclaimDropsRegion(job, f, v);
    FinalLoads(job, f);
  }

  lemma FirstPageIsCode()
    ensures exists p :: p in [OneLoad(0)] && HasFlag(p.flags, PF_X) && p.offset == 0 && p.vaddr == 0
  {
    EntryInLoad(0);
    assert OneLoad(0) in [OneLoad(0)];
  }
}
