/** A concrete input on which a reclaiming append (src/layout.rs) leaves a byte that
    the next run takes for an overlay: a shorter stub over a longer one's bytes. */
module OverlayFailure {
  import opened Bytes
  import opened Codec
  import opened Ir
  import opened Serialize
  import opened Layout
  import opened Append
  import opened AppendTheorems
  import opened Parser
  import opened RoundTrip
  import opened Outcome
  import opened Memory
  import opened Overlay
  import opened Example
  import opened Sample
  import opened SampleFiles
  import Stub
  import Reclaim
  import Relayout
  import Repatch

  // ---- What a run leaves behind its region ----

  /** A patch is an append in the sense of its theorems. */
  lemma RunAppends(r: Repatch.Run, v: Image, flags: seq<bool>, cut: nat, page: nat, original: seq<byte>, out: seq<byte>)
    returns (f: Image)
    requires Repatch.Patches(r, original, out) && v == r.Base() && flags == r.Flags() && cut == r.CutAt()
             && page == r.page
    ensures Appends(v, flags, cut, page, original, f, out) && ParserShaped(v) && PlainCounts(f)
  {
    assert cut == Relayout.Cut(RegionStart(r.before, true), original);
    f := Relayout.AppendResultAppends(r.before, GrownSections(r.before), page, true, original, out);
  }

  lemma SampleEnd(v: Image, ident: seq<byte>, base: nat, cut: nat)
    requires Sampled(v, ident, base) && 0x200 <= cut <= PAGE
    ensures WellShaped(v) && RegionEnd(v, ALL, cut, PAGE) == 0x2000 + |v.data[3]|
  {
    SampleRegion(v, ident, base);
    SamplePlace(v, ident, base, cut);
  }

  /** The stub starts the region's second page. */
  lemma StubPlace(v: Image, ident: seq<byte>, base: nat, cut: nat, f: Image)
    requires Sampled(v, ident, base) && 0x200 <= cut <= PAGE && Appended(v, ALL, cut, PAGE) == Ok(f)
    ensures |f.shdrs| == |f.data| == 4 && SectionSpan(f, 3) == Span(0x2000, v.data[3])
  {
    SampleAgain(v, ident, base, cut, f);
    SampleRan4(v, ident, base, cut, f);
    OnlyStubMoves(v, ident, base);
    Reclaim.AppendStarts(v, ALL, cut, PAGE);
    Finds(f);
  }

  lemma SampleRan4(v: Image, ident: seq<byte>, base: nat, cut: nat, f: Image)
    requires Sampled(v, ident, base) && 0x200 <= cut <= PAGE && Appended(v, ALL, cut, PAGE) == Ok(f)
    ensures |f.data| == 4 && f.data[3] == v.data[3]
    ensures var job := AppendJob(v, ALL, cut, PAGE);
            job.g.at.off == PAGE && job.g.region.dataLen == PAGE && job.g.region.loads == 2
  {
    SampleJob(v, ident, base, cut);
    SampleRegion(v, ident, base);
    AppendedYields(v, ALL, cut, PAGE);
    RunData(v, ident, base, AppendJob(v, ALL, cut, PAGE), f);
  }

  /** The file holds the stub from 0x2000 on; the next run sees an overlay where the
      patched file had a byte behind the stub. */
  ghost predicate StubWritten(stub: seq<byte>, original: seq<byte>, out: seq<byte>)
  {
    && Holds(out, Span(0x2000, stub))
    && HasOverlay(out) == Ok(0x2000 + |stub| < |original| && original[0x2000 + |stub|] != 0)
  }

  lemma AppendedSection(v: Image, flags: seq<bool>, cut: nat, page: nat, original: seq<byte>, f: Image,
                        out: seq<byte>, i: nat)
    requires Appends(v, flags, cut, page, original, f, out) && i < |f.shdrs|
    ensures WellShaped(f) && Holds(out, SectionSpan(f, i))
  {
    var job, w := AppendOutput(v, flags, cut, page, original, f, out);
    SpanHeld(job, w, i);
  }

  lemma StubSlice(v: Image, ident: seq<byte>, base: nat, cut: nat, original: seq<byte>, f: Image, out: seq<byte>)
    requires Sampled(v, ident, base) && 0x200 <= cut <= PAGE && Appends(v, ALL, cut, PAGE, original, f, out)
    ensures Holds(out, Span(0x2000, v.data[3]))
  {
    StubPlace(v, ident, base, cut, f);
    AppendedSection(v, ALL, cut, PAGE, original, f, out, 3);
  }

  lemma StubOverlay(v: Image, ident: seq<byte>, base: nat, cut: nat, original: seq<byte>, f: Image, out: seq<byte>)
    requires Sampled(v, ident, base) && 0x200 <= cut <= PAGE && Appends(v, ALL, cut, PAGE, original, f, out)
    requires ParserShaped(v) && PlainCounts(f)
    ensures HasOverlay(out) == Ok(0x2000 + |v.data[3]| < |original| && original[0x2000 + |v.data[3]|] != 0)
  {
    SampleEnd(v, ident, base, cut);
    AppendOverlay(v, ALL, cut, PAGE, original, f, out);
  }

  lemma WritesStub(v: Image, ident: seq<byte>, base: nat, cut: nat, original: seq<byte>, f: Image, out: seq<byte>)
    requires Sampled(v, ident, base) && 0x200 <= cut <= PAGE && Appends(v, ALL, cut, PAGE, original, f, out)
    requires ParserShaped(v) && PlainCounts(f)
    ensures StubWritten(v.data[3], original, out)
  {
    StubSlice(v, ident, base, cut, original, f, out);
    StubOverlay(v, ident, base, cut, original, f, out);
  }

  lemma RunStub(r: Repatch.Run, v: Image, cut: nat, data: seq<seq<byte>>, original: seq<byte>, out: seq<byte>,
                ident: seq<byte>, base: nat)
    requires Repatch.Patches(r, original, out) && v == r.Base() && ALL == r.Flags() && cut == r.CutAt()
             && r.page == PAGE
    requires Sampled(v, ident, base) && 0x200 <= cut <= PAGE && data == v.data
    ensures |data| == 4 && StubWritten(data[3], original, out)
  {
    var f := RunAppends(r, v, ALL, cut, PAGE, original, out);
    WritesStub(v, ident, base, cut, original, f, out);
  }

  // ---- A shorter stub over a longer one ----

  /** Dropping the last region looks at no section but the stub, and there at its place. */
  lemma SameDrop(o: Image, w: Image, s: nat)
    requires w == o.(data := w.data, shdrs := w.shdrs) && s < |o.shdrs| && s < |w.shdrs|
    requires o.FindSection(STUB) == Some(s) && w.FindSection(STUB) == Some(s)
    requires w.shdrs[s].offset == o.shdrs[s].offset && w.shdrs[s].addr == o.shdrs[s].addr
    ensures DropPrior(w, true) == w.(phdrs := DropPrior(o, true).phdrs) && RegionStart(w, true) == RegionStart(o, true)
  {
    SamePrior(o, w);
    if PriorLoad(o).Some? {
      var ps := Remove(o.phdrs, PriorLoad(o).value);
      SameStubLoad(o, o.(phdrs := ps), w, w.(phdrs := ps), s);
    }
  }

  lemma SamePrior(o: Image, w: Image)
    requires w.phdrs == o.phdrs && w.ehdr == o.ehdr
    ensures PriorLoad(w) == PriorLoad(o)
  {
    assert Priors(w) == Priors(o);
  }

  lemma SameStubLoad(o: Image, o1: Image, w: Image, w1: Image, s: nat)
    requires o1 == o.(phdrs := o1.phdrs) && w1 == w.(phdrs := w1.phdrs) && o1.phdrs == w1.phdrs
    requires s < |o.shdrs| && s < |w.shdrs| && o.FindSection(STUB) == Some(s) && w.FindSection(STUB) == Some(s)
    requires w.shdrs[s].offset == o.shdrs[s].offset && w.shdrs[s].addr == o.shdrs[s].addr
    ensures StubLoad(w1) == StubLoad(o1)
  {
    Reclaim.SameNamed(o, o1);
    Reclaim.SameNamed(w, w1);
    assert seq(|w1.phdrs|, i requires 0 <= i < |w1.phdrs| => IsStubLoad(w1.phdrs[i], w1.shdrs[s]))
        == seq(|o1.phdrs|, i requires 0 <= i < |o1.phdrs| => IsStubLoad(o1.phdrs[i], o1.shdrs[s]));
  }

  lemma StubInstalled(o: Image, blob: seq<byte>) returns (w: Image)
    requires Sectioned(o) && o.ehdr.eType == ET_DYN && STUB_CODE_OFFSET < |blob| <= 0x1000
    ensures |o.data| == |o.shdrs| && Stub.Installed(o, blob) == Ok(w) && Reclaim.Edited(o, w)
    ensures Sectioned(w) && w == o.(data := w.data, shdrs := o.shdrs[3 := o.shdrs[3].(size := 0)])
    ensures |w.data[3]| == |blob|
  {
    Finds(o);
    StubKept(o);
    w := Stub.Installed(o, blob).value;
    Stub.InstallEdits(o, blob);
  }

  /** Another stub in place of the one a run placed. */
  lemma StubReplaced(o: Image, len: nat, ident: seq<byte>, base: nat, blob: seq<byte>) returns (w: Image)
    requires Starts(o, len, ident, base) && RegionStart(o, true) == Some(PAGE) && STUB_CODE_OFFSET < |blob| <= 0x1000
    ensures |o.data| == |o.shdrs| && Stub.Installed(o, blob) == Ok(w) && Reclaim.Edited(o, w) && |w.data| == 4
            && |w.data[3]| == |blob|
    ensures Starts(w, len, ident, base) && RegionStart(w, true) == Some(PAGE)
  {
    w := StubInstalled(o, blob);
    Finds(o);
    Finds(w);
    SameDrop(o, w, 3);
    ReplacedSampled(DropPrior(o, true), DropPrior(w, true), ident, base);
  }

  lemma StubKept(o: Image)
    requires Sectioned(o) && o.FindSection(STUB) == Some(3)
    ensures Stub.ProgramEntry(o).Ok?
  {
  }

  lemma ReplacedSampled(o: Image, w: Image, ident: seq<byte>, base: nat)
    requires Sampled(o, ident, base) && Sectioned(w) && w == o.(data := w.data, shdrs := w.shdrs)
    requires w.shdrs == o.shdrs[3 := o.shdrs[3].(size := 0)]
    ensures Sampled(w, ident, base)
  {
    forall i, j | 0 <= i < j < 4 ensures AddressesApart(w.shdrs[i], w.shdrs[j]) {
      assert AddressesApart(o.shdrs[i], o.shdrs[j]);
    }
  }

  // ---- One run ----

  lemma StubRun(o: Image, v: Image, file: seq<byte>, ident: seq<byte>, base: nat)
    returns (r: Repatch.Run, out: seq<byte>)
    requires Parse(file) == Ok(o) && Reclaim.Edited(o, v) && Starts(v, |file|, ident, base)
             && IdentOk(ident, Enc(Elf64, Little))
    ensures r.before == v && Repatch.PatchedFiles([file, out], [r]) && |v.data| == 4
            && StubWritten(v.data[3], file, out)
    ensures Parse(out) == Ok(r.after) && Starts(r.after, |out|, ident, base) && RegionStart(r.after, true) == Some(PAGE)
  {
    r, out := StubWrites(v, file, ident, base);
    Repatch.OnePatch(o, r, file, out);
  }

  lemma StubWrites(v: Image, file: seq<byte>, ident: seq<byte>, base: nat) returns (r: Repatch.Run, out: seq<byte>)
    requires Starts(v, |file|, ident, base) && IdentOk(ident, Enc(Elf64, Little))
    ensures r.before == v && Repatch.Patches(r, file, out) && StubWritten(v.data[3], file, out)
    ensures Parse(out) == Ok(r.after) && Starts(r.after, |out|, ident, base) && RegionStart(r.after, true) == Some(PAGE)
  {
    r, out := SampleWrites(v, file, ident, base);
    StubOf(r, v, file, out, ident, base);
  }

  lemma DropKeepsData(v: Image)
    ensures DropPrior(v, true).data == v.data
  {
  }

  lemma StubOf(r: Repatch.Run, v: Image, file: seq<byte>, out: seq<byte>, ident: seq<byte>, base: nat)
    requires Repatch.Patches(r, file, out) && Sampled(r.Base(), ident, base) && 0x200 <= r.CutAt() <= PAGE
    requires r.Flags() == ALL && r.page == PAGE && r.before == v
    ensures |v.data| == 4 && StubWritten(v.data[3], file, out)
  {
    DropKeepsData(v);
    RunStub(r, r.Base(), r.CutAt(), v.data, file, out, ident, base);
  }

  // ---- The two runs ----

  /** A run can start over a region from the image the file parses to. The conditions stand
      behind a quantifier so that they are unfolded only where a proof names them. */
  ghost predicate CanRun(v: Image, file: seq<byte>, ident: seq<byte>)
  {
    forall n: nat :: n == |file| ==>
             Starts(v, n, ident, 0x10000) && RegionStart(v, true) == Some(PAGE) && Parse(file) == Ok(v)
  }

  /** From the second half on, the stub's bytes are the given ones. */
  ghost predicate StubFrom(stub: seq<byte>, blob: seq<byte>)
  {
    |stub| == |blob| && forall x :: STUB_CODE_OFFSET <= x < |blob| ==> stub[x] == blob[x]
  }

  /** The first run: a library and a stub, appended to the program's file. */
  lemma FirstRun(ident: seq<byte>, strings: seq<byte>, lib: seq<byte>, blob: seq<byte>)
    returns (first: Image, file: seq<byte>, r: Repatch.Run, out: seq<byte>)
    requires IdentOk(ident, Enc(Elf64, Little)) && |strings| == 8 && |lib| == 1 && STUB_CODE_OFFSET < |blob| <= 0x1000
    ensures Parse(file) == Ok(first) && |file| == 0x280 && LibraryAndStub(first, r.before, lib, blob)
    ensures |r.before.data| == 4 && StubFrom(r.before.data[3], blob)
    ensures Repatch.PatchedFiles([file, out], [r]) && StubWritten(r.before.data[3], file, out)
    ensures CanRun(r.after, out, ident)
  {
    var tags;
    first, file, tags := FirstExists(ident, strings);
    var v1 := EditsAre(ident, 0x10000, strings, tags, lib, blob);
    EditsStart(ident, 0x10000, strings, tags, lib, blob);
    EditsEdited(ident, 0x10000, strings, tags, lib, blob);
    var v := Edits(ident, 0x10000, strings, tags, lib, blob);
    assert StubFrom(v.data[3], blob);
    r, out := StubRun(first, v, file, ident, 0x10000);
  }

  /** What the first run's stub leaves behind a shorter one is not zero. */
  lemma LongerStubStays(stub: seq<byte>, blob: seq<byte>, file: seq<byte>, out: seq<byte>, n: nat)
    requires StubWritten(stub, file, out) && StubFrom(stub, blob) && STUB_CODE_OFFSET <= n < |blob| && blob[n] != 0
    requires |file| <= 0x2000
    ensures HasOverlay(out) == Ok(false) && 0x2000 + n < |out| && out[0x2000 + n] != 0
  {
    HeldByte(out, Span(0x2000, stub), n);
  }

  lemma ByteBehind(stub: seq<byte>, file: seq<byte>, out: seq<byte>)
    requires StubWritten(stub, file, out) && 0x2000 + |stub| < |file| && file[0x2000 + |stub|] != 0
    ensures HasOverlay(out) == Ok(true)
  {
  }

  /** Another stub over the one a run placed. */
  lemma StubAgain(o: Image, file: seq<byte>, ident: seq<byte>, blob: seq<byte>) returns (r: Repatch.Run, out: seq<byte>)
    requires IdentOk(ident, Enc(Elf64, Little)) && STUB_CODE_OFFSET < |blob| <= 0x1000
    requires CanRun(o, file, ident)
    ensures |o.data| == |o.shdrs| && Stub.Installed(o, blob) == Ok(r.before) && Repatch.PatchedFiles([file, out], [r])
    ensures |r.before.data| == 4 && |r.before.data[3]| == |blob| && StubWritten(r.before.data[3], file, out)
  {
    assert Starts(o, |file|, ident, 0x10000);
    var w := StubReplaced(o, |file|, ident, 0x10000, blob);
    r, out := StubRun(o, w, file, ident, 0x10000);
  }

  /** Two patches in a row. */
  lemma TwoPatches(f0: seq<byte>, f1: seq<byte>, f2: seq<byte>, r0: Repatch.Run, r1: Repatch.Run)
    requires Repatch.PatchedFiles([f0, f1], [r0]) && Repatch.PatchedFiles([f1, f2], [r1])
    ensures Repatch.PatchedFiles([f0, f1, f2], [r0, r1])
  {
    Repatch.PatchedCons(f0, r0, [f1, f2], [r1]);
    assert [f0] + [f1, f2] == [f0, f1, f2] && [r0] + [r1] == [r0, r1];
  }

  /** A program is patched with a library and a stub, then its stub is replaced by a
      shorter one: the second file ends in a byte of the first stub. Its sections and
      segments end before that byte, so the next run takes the byte for an overlay. */
  lemma ReclaimMakesOverlay(ident: seq<byte>, strings: seq<byte>, lib: seq<byte>, blob: seq<byte>, shorter: seq<byte>)
    returns (files: seq<seq<byte>>, rs: seq<Repatch.Run>, first: Image)
    requires IdentOk(ident, Enc(Elf64, Little)) && |strings| == 8 && |lib| == 1
    requires STUB_CODE_OFFSET < |shorter| < |blob| <= 0x1000 && blob[|shorter|] != 0
    ensures |rs| == 2 && Repatch.PatchedFiles(files, rs) && Parse(files[0]) == Ok(first)
    ensures LibraryAndStub(first, rs[0].before, lib, blob)
    ensures |rs[0].after.data| == |rs[0].after.shdrs| && Stub.Installed(rs[0].after, shorter) == Ok(rs[1].before)
    ensures HasOverlay(files[1]) == Ok(false) && HasOverlay(files[2]) == Ok(true)
  {
    var file, r, out, r2, out2;
    first, file, r, out := FirstRun(ident, strings, lib, blob);
    LongerStubStays(r.before.data[3], blob, file, out, |shorter|);
    r2, out2 := StubAgain(r.after, out, ident, shorter);
    ByteBehind(r2.before.data[3], out, out2);
    TwoPatches(file, out, out2, r, r2);
    files, rs := [file, out, out2], [r, r2];
  }
}
