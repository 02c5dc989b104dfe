/** The entry stub (src/stub.rs): installing it, and what stays true over any
    number of installs and relayouts. */
module Stub {
  import opened Bytes
  import opened Ir
  import opened Serialize
  import opened Layout
  import opened Shape
  import opened Placed
  import opened Accepted
  import opened Dynamic
  import Verify
  import opened NewSection
  import Memory
  import Reclaim
  import RegionFacts

  const SAVED_ENTRY_OFFSET: nat := 8

  // ---- Installing ----

  /** The program entry an installed stub chains to. */
  function SavedEntry(v: Image, s: nat): Result<nat>
    requires s < |v.data|
  {
    if |v.data[s]| < SAVED_ENTRY_OFFSET + 8 then Err(ParseError)
    else Ok(Get(v.enc.endian, v.data[s], SAVED_ENTRY_OFFSET, 8))
  }

  /** The entry of the program itself, behind any stub. */
  function ProgramEntry(v: Image): Result<nat>
    requires |v.data| == |v.shdrs|
  {
    match v.FindSection(STUB)
    case None => Ok(v.ehdr.entry)
    case Some(s) => SavedEntry(v, s)
  }

  function Chained(v: Image, blob: seq<byte>, entry: nat): (b: seq<byte>)
    requires |blob| > STUB_CODE_OFFSET
    ensures |b| == |blob|
  {
    Put(v.enc.endian, blob, SAVED_ENTRY_OFFSET, 8, entry)
  }

  function StubHeader(name: u32): Shdr
  {
    Shdr(name, SHT_PROGBITS, SHF_ALLOC + SHF_EXECINSTR, 0, 0, 0, 0, 0, 16, 0)
  }

  /** The image with the stub's bytes replaced, its size reset to force placement. */
  function Replaced(v: Image, s: nat, blob: seq<byte>): (w: Image)
    requires s < |v.data| == |v.shdrs|
  {
    v.(data := v.data[s := blob], shdrs := v.shdrs[s := v.shdrs[s].(size := 0)])
  }

  /** The image with a stub section and its name added. */
  function Added(v: Image, blob: seq<byte>): (w: Image)
    requires NameFits(v)
  {
    WithSection(v, STUB, StubHeader(0), blob)
  }

  function Installed(v: Image, blob: seq<byte>): (r: Result<Image>)
    requires |v.data| == |v.shdrs|
  {
    if v.ehdr.eType != ET_EXEC && v.ehdr.eType != ET_DYN then Err(UnsupportedError)
    else if v.enc.class_ != Elf64 then Err(UnsupportedError)
    else if |blob| <= STUB_CODE_OFFSET then Err(CliError)
    else
      match ProgramEntry(v)
      case Err(e) => Err(e)
      case Ok(entry) =>
        var b := Chained(v, blob, entry);
        match v.FindSection(STUB)
        case Some(s) => Ok(Replaced(v, s, b))
        case None =>
          if v.ehdr.shstrndx >= |v.data| then Err(MissingError)
          else if |v.data[v.ehdr.shstrndx]| >= 0x1_0000_0000 then Err(UnsupportedError)
          else Ok(Added(v, b))
  }

  /** `set_bytes`. */
  method SetBytes(image: ElfImage, blob: seq<byte>) returns (r: Result<()>)
    requires |image.data| == |image.shdrs|
    modifies image
    ensures match Installed(old(image.View()), blob)
            case Err(e) => r == Err(e) && image.View() == old(image.View())
            case Ok(w) => r == Ok(()) && image.View() == w
  {
    ghost var v := image.View();
    if image.ehdr.eType != ET_EXEC && image.ehdr.eType != ET_DYN {
      return Err(UnsupportedError);
    }
    if image.enc.class_ != Elf64 {
      return Err(UnsupportedError);
    }
    if |blob| <= STUB_CODE_OFFSET {
      return Err(CliError);
    }
    var entry := ProgramEntry(image.View());
    if entry.Err? {
      return Err(entry.error);
    }
    var b := Chained(image.View(), blob, entry.value);
    var found := image.View().FindSection(STUB);
    if found.Some? {
      var s := found.value;
      image.data := image.data[s := b];
      image.shdrs := image.shdrs[s := image.shdrs[s].(size := 0)];
      assert image.View() == Replaced(v, s, b);
      return Ok(());
    }
    var names := image.ehdr.shstrndx;
    if names >= |image.data| {
      return Err(MissingError);
    }
    var off := |image.data[names]|;
    if off >= 0x1_0000_0000 {
      return Err(UnsupportedError);
    }
    image.data := image.data[names := image.data[names] + STUB + [0]];
    image.shdrs := image.shdrs + [StubHeader(off)];
    image.data := image.data + [b];
    assert image.View() == Added(v, b);
    r := Ok(());
  }

  // ---- The invariant ----

  ghost predicate AtMostOneStub(v: Image)
  {
    forall i, j :: 0 <= i < |v.shdrs| && 0 <= j < |v.shdrs| && v.SectionName(i) == Some(STUB)
           && v.SectionName(j) == Some(STUB)
      ==> i == j
  }

  /** The image is the program with entry `entry`, behind at most one stub. */
  ghost predicate Chains(v: Image, entry: nat)
  {
    && |v.data| == |v.shdrs| && NamesTerminated(v) && AtMostOneStub(v) && NamesFixed(v)
    && match v.FindSection(STUB)
       case None => v.ehdr.entry == entry
       case Some(s) =>
         && s != v.ehdr.shstrndx && v.DynIdx() != Some(s) && v.shdrs[s].shtype == SHT_PROGBITS && Executable(v.shdrs[s])
         && |v.data[s]| > 16 && Get(v.enc.endian, v.data[s], 8, 8) == entry
  }

  /** A program without a stub satisfies it with its own entry. */
  lemma Unstubbed(v: Image)
    requires |v.data| == |v.shdrs| && NamesTerminated(v) && NamesFixed(v) && v.FindSection(STUB).None?
    ensures Chains(v, v.ehdr.entry)
  {
    forall i | 0 <= i < |v.shdrs| ensures v.SectionName(i) != Some(STUB) {
      assert v.Named(STUB)[i] == (v.SectionName(i) == Some(STUB));
    }
  }

  lemma ChainedReads(v: Image, blob: seq<byte>, entry: nat)
    requires |blob| > STUB_CODE_OFFSET && entry < 0x1_0000_0000_0000_0000
    ensures Get(v.enc.endian, Chained(v, blob, entry), SAVED_ENTRY_OFFSET, 8) == entry
  {
    Pow256Widths();
    GetPut(v.enc.endian, blob, SAVED_ENTRY_OFFSET, 8, entry);
  }

  /** Adding a stub keeps every section's name; the new section has the stub's. */
  lemma AddedNames(v: Image, blob: seq<byte>)
    requires |v.data| == |v.shdrs| && NamesTerminated(v) && NameFits(v)
    ensures var w := Added(v, blob);
            && NamesTerminated(w) && |w.shdrs| == |v.shdrs| + 1
            && w.SectionName(|v.shdrs|) == Some(STUB)
            && forall i :: 0 <= i < |v.shdrs| ==> w.SectionName(i) == v.SectionName(i)
  {
    AsciiClean(".formatelf.entry");
    WithSectionNames(v, STUB, StubHeader(0), blob);
  }

  lemma FoundIs(v: Image, s: nat)
    requires s < |v.shdrs| && v.SectionName(s) == Some(STUB)
    ensures v.FindSection(STUB).Some?
  {
    assert v.Named(STUB)[s];
  }

  lemma NoneNamed(v: Image, i: nat)
    requires v.FindSection(STUB).None? && i < |v.shdrs|
    ensures v.SectionName(i) != Some(STUB)
  {
    assert v.Named(STUB)[i] == (v.SectionName(i) == Some(STUB));
  }

  lemma AddedChains(v: Image, blob: seq<byte>, entry: nat)
    requires Chains(v, entry) && v.FindSection(STUB).None? && NameFits(v)
    requires |blob| > STUB_CODE_OFFSET && Get(v.enc.endian, blob, SAVED_ENTRY_OFFSET, 8) == entry
    ensures Chains(Added(v, blob), entry)
  {
    var w, n := Added(v, blob), |v.shdrs|;
    AddedNames(v, blob);
    forall i | 0 <= i < |w.shdrs| && w.SectionName(i) == Some(STUB)
      ensures i == n
    {
      if i < n {
        NoneNamed(v, i);
      }
    }
    FoundIs(w, n);
    AddedDynIdx(v, w);
    FlagsAreCode();
  }

  lemma FlagsAreCode()
    ensures HasFlag(SHF_ALLOC + SHF_EXECINSTR, SHF_EXECINSTR)
  {
  }

  lemma AddedDynIdx(v: Image, w: Image)
    requires |w.shdrs| == |v.shdrs| + 1 && w.shdrs[..|v.shdrs|] == v.shdrs && w.shdrs[|v.shdrs|].shtype != SHT_DYNAMIC
    ensures w.DynIdx() == v.DynIdx()
  {
    var n := |v.shdrs|;
    forall i | 0 <= i < n ensures w.shdrs[i] == v.shdrs[i] {
      assert w.shdrs[i] == w.shdrs[..n][i];
    }
    FirstDynamicFacts(v.shdrs);
    FirstDynamicFacts(w.shdrs);
  }

  /** The same sections under the same names, the stub's contents aside. */
  lemma SameChain(v: Image, w: Image, entry: nat)
    requires Chains(v, entry) && SameNames(v, w) && w.enc == v.enc && |w.data| == |w.shdrs|
    requires v.FindSection(STUB).None? ==> w.ehdr.entry == entry
    requires v.FindSection(STUB).Some? ==>
               var s := v.FindSection(STUB).value;
               && Executable(w.shdrs[s]) && |w.data[s]| > STUB_CODE_OFFSET
               && Get(w.enc.endian, w.data[s], SAVED_ENTRY_OFFSET, 8) == entry
    ensures Chains(w, entry)
  {
    SameFind(v, w, STUB);
    SameDynIdx(v, w);
    forall i: nat ensures w.SectionName(i) == v.SectionName(i) {
    }
  }

  /** Installing a stub keeps the chain: it goes to the program, not to an earlier stub. */
  lemma InstallChains(v: Image, blob: seq<byte>, entry: nat)
    requires Chains(v, entry) && entry < 0x1_0000_0000_0000_0000 && Installed(v, blob).Ok?
    ensures Chains(Installed(v, blob).value, entry)
  {
    ChainedReads(v, blob, entry);
    match v.FindSection(STUB) {
      case Some(s) => SameChain(v, Replaced(v, s, Chained(v, blob, entry)), entry);
      case None => AddedChains(v, Chained(v, blob, entry), entry);
    }
  }

  /** The stub's section: code that is not to be written, aligned at 16, waiting to be
      placed, with the given bytes but for those at 8, which are the program's entry. */
  lemma StubInstalled(v: Image, blob: seq<byte>, entry: nat)
    requires Chains(v, entry) && entry < 0x1_0000_0000_0000_0000 && Installed(v, blob).Ok?
    ensures var w := Installed(v, blob).value;
            && w.FindSection(Ascii(".formatelf.entry")).Some? && |w.data| == |w.shdrs|
            && var s := w.FindSection(Ascii(".formatelf.entry")).value;
               && |w.data[s]| == |blob| > 16 && w.data[s][..8] == blob[..8] && w.data[s][16..] == blob[16..]
               && Get(w.enc.endian, w.data[s], 8, 8) == entry && w.shdrs[s].size == 0
               && (v.FindSection(Ascii(".formatelf.entry")).None? ==>
                     s == |v.shdrs| && w.shdrs[s] == Shdr(w.shdrs[s].name, 1, 6, 0, 0, 0, 0, 0, 16, 0))
  {
    InstallChains(v, blob, entry);
    var w := Installed(v, blob).value;
    PutAround(v.enc.endian, blob, 8, 8, entry);
    match v.FindSection(STUB) {
      case Some(s) => SameFind(v, w, STUB);
      case None => AddedFound(v, Chained(v, blob, entry));
    }
  }

  lemma PutAround(e: Endian, b: seq<byte>, o: nat, n: nat, x: nat)
    requires o + n <= |b|
    ensures |Put(e, b, o, n, x)| == |b| && Put(e, b, o, n, x)[..o] == b[..o]
            && Put(e, b, o, n, x)[o + n..] == b[o + n..]
  {
  }

  lemma AddedFound(v: Image, blob: seq<byte>)
    requires |v.data| == |v.shdrs| && NamesTerminated(v) && NameFits(v) && v.FindSection(STUB).None?
    ensures Added(v, blob).FindSection(STUB) == Some(|v.shdrs|)
  {
    var w, n := Added(v, blob), |v.shdrs|;
    AddedNames(v, blob);
    forall i | 0 <= i < n ensures !w.Named(STUB)[i] {
      NoneNamed(v, i);
    }
    FirstTrueIs(w.Named(STUB), n);
  }

  /** The image a layout run starts from differs only in its segments, offsets and tables. */
  ghost predicate LaidOutFrom(v: Image, img: Image)
  {
    && SameNames(v, img) && img.enc == v.enc && img.ehdr.entry == v.ehdr.entry && img.data == v.data
    && |img.shdrs| == |v.shdrs| && forall i :: 0 <= i < |v.shdrs| ==> img.shdrs[i].flags == v.shdrs[i].flags
  }

  /** Both layouts start so. */
  lemma LayoutsStart(v: Image, reclaim: bool, shift: nat, g: Geometry)
    requires |v.data| == |v.shdrs|
    ensures LaidOutFrom(v, WithTables(DropPrior(v, reclaim), g))
    ensures LaidOutFrom(v, WithTables(Shifted(DropPrior(v, reclaim), shift), g))
  {
  }

  /** Either layout keeps the chain. */
  lemma RelayoutChains(v: Image, job: Job, f: Image, entry: nat)
    requires Chains(v, entry) && LaidOutFrom(v, job.img) && Yields(job, f)
    ensures Chains(f, entry)
  {
    SameFind(v, job.img, STUB);
    SameDynIdx(v, job.img);
    FinalFields(job.img, job.g, job.note, job.front, f);
    FinalEntryAddr(job, f);
    NamesTransit(v, job.img, f);
    SameChain(v, f, entry);
  }

  lemma NamesTransit(a: Image, b: Image, c: Image)
    requires SameNames(a, b) && SameNames(b, c)
    ensures SameNames(a, c)
  {
  }

  // ---- Over any run ----

  /** One step: a stub is installed, a layout or an in-place rewrite brings the file
      up to date, or the file is read again, which may end the dynamic array earlier. */
  ghost predicate Step(v: Image, w: Image)
  {
    || (|v.data| == |v.shdrs| && exists blob :: Installed(v, blob) == Ok(w))
    || (exists job: Job :: LaidOutFrom(v, job.img) && Yields(job, w))
    || w == v.(dynamic := w.dynamic)
    || (WellShaped(v) && SyncedDynamic(v.(dynamic := RldFixed(v))) == Ok(w))
  }

  ghost predicate Run(trace: seq<Image>)
  {
    trace != [] && forall k :: 0 < k < |trace| ==> Step(trace[k - 1], trace[k])
  }

  /** The in-place rewrite changes the dynamic section and nothing else. */
  lemma InPlaceChains(v: Image, w: Image, entry: nat)
    requires Chains(v, entry) && WellShaped(v) && SyncedDynamic(v.(dynamic := RldFixed(v))) == Ok(w)
    ensures Chains(w, entry)
  {
    SameDynIdx(v, v.(dynamic := RldFixed(v)));
    SameChain(v, w, entry);
  }

  lemma StepChains(v: Image, w: Image, entry: nat)
    requires Chains(v, entry) && entry < 0x1_0000_0000_0000_0000 && Step(v, w)
    ensures Chains(w, entry)
  {
    if w == v.(dynamic := w.dynamic) {
      SameChain(v, w, entry);
    } else if WellShaped(v) && SyncedDynamic(v.(dynamic := RldFixed(v))) == Ok(w) {
      InPlaceChains(v, w, entry);
    } else if job: Job :| LaidOutFrom(v, job.img) && Yields(job, w) {
      RelayoutChains(v, job, w, entry);
    } else {
      var blob :| Installed(v, blob) == Ok(w);
      InstallChains(v, blob, entry);
    }
  }

  /** Over any sequence of installs and relayouts of an unstubbed program there is
      at most one stub section, and its word at offset 8 is the program's own entry. */
  lemma {:induction false} RunChains(trace: seq<Image>, k: nat)
    requires Run(trace) && k < |trace| && trace[0].ehdr.entry < 0x1_0000_0000_0000_0000
    requires var v := trace[0];
             |v.data| == |v.shdrs| && NamesTerminated(v) && NamesFixed(v) && v.FindSection(STUB).None?
    ensures Chains(trace[k], trace[0].ehdr.entry)
  {
    if k == 0 {
      Unstubbed(trace[0]);
    } else {
      RunChains(trace, k - 1);
      StepChains(trace[k - 1], trace[k], trace[0].ehdr.entry);
    }
  }

  /** After a relayout that places the stub, the entry is 16 bytes into it, in a
      load that is readable and executable but not writable. */
  lemma StubIsEntered(v: Image, job: Job, f: Image, entry: nat, s: nat) returns (p: Phdr)
    requires Chains(v, entry) && LaidOutFrom(v, job.img) && Yields(job, f) && WellShaped(f)
    requires FileReady(job) && SegmentsReady(job) && MemSite(job)
    requires v.FindSection(STUB) == Some(s) && s < |job.flags| && job.flags[s]
    ensures s < |f.shdrs| && f.ehdr.entry == f.shdrs[s].addr + 16
    ensures p in Loads(f.phdrs) && HasFlag(p.flags, PF_X) && !HasFlag(p.flags, PF_W) && Verify.InMemory(p, f.ehdr.entry)
  {
    SameFind(v, job.img, STUB);
    SameDynIdx(v, job.img);
    FinalEntryAddr(job, f);
    FinalFields(job.img, job.g, job.note, job.front, f);
    MovedShdr(job, IndexOf(job.g.region.sections, s));
    CodeMakesTwo(job, s);
    p := Memory.MovedHome(job, f, s);
  }

  lemma CodeMakesTwo(job: Job, s: nat)
    requires FileReady(job) && s < |job.flags| && job.flags[s] && Executable(job.img.shdrs[s])
    ensures job.g.region.loads == 2
  {
    var r := job.g.region;
    var k := IndexOf(r.sections, s);
    assert RegionFacts.SectionPlaced(job.img, r, k, job.head);
  }

  // ---- A stub installed after an earlier relayout ----

  /** Installing a stub is an edit the next reclaiming run can follow. */
  lemma InstallEdits(v: Image, blob: seq<byte>)
    requires |v.data| == |v.shdrs| && NamesTerminated(v) && Installed(v, blob).Ok?
    requires v.FindSection(STUB).Some? ==> v.FindSection(STUB).value != v.ehdr.shstrndx
    ensures Reclaim.Edited(v, Installed(v, blob).value)
  {
    match v.FindSection(STUB) {
      case Some(s) => ReplacedEdits(v, s, Chained(v, blob, SavedEntry(v, s).value));
      case None => AddedEdits(v, Chained(v, blob, v.ehdr.entry));
    }
  }

  lemma ReplacedEdits(v: Image, s: nat, blob: seq<byte>)
    requires |v.data| == |v.shdrs| && s < |v.data| && s != v.ehdr.shstrndx
    ensures Reclaim.Edited(v, Replaced(v, s, blob))
  {
  }

  lemma AddedEdits(v: Image, blob: seq<byte>)
    requires |v.data| == |v.shdrs| && NamesTerminated(v) && NameFits(v)
    ensures Reclaim.Edited(v, Added(v, blob))
  {
    AddedNames(v, blob);
  }

  /** A new stub section has offset and address 0, so the next reclaiming run keeps
      every original load exactly when no executable one is placed at 0. */
  lemma NewStubReclaim(job: Job, f: Image, v: Image, s: nat)
    requires Reclaim.AppendRun(job, f) && Reclaim.NoLoadAt(job) && job.g.region.loads != 2 && Reclaim.Edited(f, v)
    requires v.FindSection(STUB) == Some(s) && v.shdrs[s].offset == 0 && v.shdrs[s].addr == 0
    ensures Loads(DropPrior(v, true).phdrs) == Loads(job.img.phdrs)
            <==> forall p :: p in Loads(job.img.phdrs) ==> !(HasFlag(p.flags, PF_X) && p.offset == 0 && p.vaddr == 0)
  {
    Reclaim.ReclaimDropsRegion(job, f, v);
    Reclaim.RunFacts(job, f);
    Reclaim.AllLoads(job, f, v);
    var orig, news := Loads(job.img.phdrs), NewLoads(job.g.region, job.g.at);
    forall p | p in Loads(v.phdrs)
      ensures p in orig || (p == DataLoad(job.g.at) && p.offset > 0)
    {
      assert p in orig || p in news;
    }
    forall p | p in orig
      ensures p in Loads(v.phdrs) && p.ptype == PT_LOAD
    {
      LoadsMembers(job.img.phdrs, p);
    }
  }
}
