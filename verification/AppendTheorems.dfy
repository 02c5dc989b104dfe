/** What appending guarantees about the file it writes. */
module AppendTheorems {
  import opened Bytes
  import opened Ir
  import opened Codec
  import opened Serialize
  import opened Layout
  import opened Shape
  import opened Placed
  import opened Verify
  import opened Dynamic
  import opened Append
  import opened Loader
  import opened Memory

  /** What `relayout` returns once the sections to move are chosen: the moved
      image is checked, then written over the input. */
  ghost function AppendFile(img: Image, flags: seq<bool>, cut: nat, page: nat, original: seq<byte>): Result<seq<byte>>
    requires WellShaped(img) && |flags| == |img.shdrs|
  {
    var total := AppendGeometry(img, flags, cut, page).total;
    match Appended(img, flags, cut, page)
    case Err(e) => Err(e)
    case Ok(f) =>
      match Run(f, total)
      case Err(e) => Err(e)
      case Ok(_) => WriteSpec(f, original, 0, total)
  }

  lemma AppendedYields(img: Image, flags: seq<bool>, cut: nat, page: nat)
    requires WellShaped(img) && |flags| == |img.shdrs| && Appended(img, flags, cut, page).Ok?
    ensures Yields(AppendJob(img, flags, cut, page), Appended(img, flags, cut, page).value)
  {
    var g := AppendGeometry(img, flags, cut, page);
    ArrangedShape(WithTables(img, g), g, LdcacheNote(img), false);
  }

  /** From a ready input the appended image passes `verify::run`, so the check
      never fires, and the writer fails only on a field too wide for the class. */
  lemma AppendEstablishesVerify(img: Image, flags: seq<bool>, cut: nat, page: nat, original: seq<byte>)
    requires AppendReady(img, flags, cut, page) && Appended(img, flags, cut, page).Ok?
    ensures var f := Appended(img, flags, cut, page).value;
            && Accepts(f, AppendGeometry(img, flags, cut, page).total)
            && (AppendFile(img, flags, cut, page, original).Ok? <==> Headers(f).Ok?)
  {
    var job, f := AppendJob(img, flags, cut, page), Appended(img, flags, cut, page).value;
    AppendIsReady(img, flags, cut, page);
    AppendedYields(img, flags, cut, page);
    FinalAccepted(job, f);
    FinalWrites(job, f, original, 0);
  }

  /** A successful append wrote `f` as `out`. */
  ghost predicate Appends(img: Image, flags: seq<bool>, cut: nat, page: nat, original: seq<byte>, f: Image,
                          out: seq<byte>)
  {
    && AppendReady(img, flags, cut, page)
    && Appended(img, flags, cut, page) == Ok(f)
    && AppendFile(img, flags, cut, page, original) == Ok(out)
  }

  /** The run behind a successful append, its input at unchanged file offsets. */
  lemma AppendOutput(img: Image, flags: seq<bool>, cut: nat, page: nat, original: seq<byte>, f: Image, out: seq<byte>)
    returns (job: Job, w: Written)
    requires Appends(img, flags, cut, page, original, f, out)
    ensures job == AppendJob(img, flags, cut, page) && Ready(job) && Output(job, w)
    ensures w.f == f && w.original == original && w.shift == 0 && w.out == out
    ensures WellShaped(f) && Headers(f) == Ok(w.headers)
  {
    job := AppendJob(img, flags, cut, page);
    AppendEstablishesVerify(img, flags, cut, page, original);
    AppendIsReady(img, flags, cut, page);
    AppendedYields(img, flags, cut, page);
    FinalTables(job, f);
    FinalWrites(job, f, original, 0);
    w := Written(f, Headers(f).value, original, 0, out);
  }

  lemma AppendSettles(img: Image, flags: seq<bool>, cut: nat, page: nat, original: seq<byte>, f: Image, out: seq<byte>)
    returns (job: Job, w: Written)
    requires Appends(img, flags, cut, page, original, f, out) && cut <= |original|
    ensures Settled(job, w) && MovedUp(job, w, img)
    ensures job.flags == flags && job.lo == EhdrSize(img.enc.class_)
    ensures w.f == f && w.original == original && w.shift == 0 && w.out == out
  {
    job, w := AppendOutput(img, flags, cut, page, original, f, out);
    OutputSettles(job, w);
    assert ShiftedPhdrs(img.phdrs, 0) == img.phdrs;
    assert ShiftedShdrs(img.shdrs, 0) == img.shdrs;
  }

  /** File position `i` is past the file header and no kept section changes its byte. */
  ghost predicate AppendKeeps(img: Image, flags: seq<bool>, f: Image, original: seq<byte>, i: nat)
    requires |flags| == |img.shdrs|
  {
    && EhdrSize(img.enc.class_) <= i < |original|
    && forall j: nat {:trigger Kept(img, flags, j)} ::
         Kept(img, flags, j) && img.shdrs[j].offset <= i < img.shdrs[j].offset + img.shdrs[j].size ==>
           j < |f.data| && i - img.shdrs[j].offset < |f.data[j]| && f.data[j][i - img.shdrs[j].offset] == original[i]
  }

  /** Appending preserves the loaded program: every address of a kept load that
      is not in the file header or a rewritten section reads the same byte in the
      output as in the input. */
  lemma AppendPreservesProgram(img: Image, flags: seq<bool>, cut: nat, page: nat, original: seq<byte>, f: Image,
                               out: seq<byte>, p: Phdr, a: nat)
    requires Appends(img, flags, cut, page, original, f, out) && cut <= |original|
    requires p in Loads(img.phdrs) && InMemory(p, a)
    requires a - p.vaddr < p.filesz ==> AppendKeeps(img, flags, f, original, FileIndex(p, a))
    ensures MemAt(out, f.phdrs, a) == MemAt(original, img.phdrs, a)
  {
    AppendKeepsByte(img, flags, cut, page, original, f, out, p, a);
    InputProgram(original, img.phdrs, p, a);
  }

  lemma AppendKeepsByte(img: Image, flags: seq<bool>, cut: nat, page: nat, original: seq<byte>, f: Image,
                        out: seq<byte>, p: Phdr, a: nat)
    requires Appends(img, flags, cut, page, original, f, out) && cut <= |original|
    requires p in Loads(img.phdrs) && InMemory(p, a)
    requires a - p.vaddr < p.filesz ==> AppendKeeps(img, flags, f, original, FileIndex(p, a))
    ensures MemAt(out, f.phdrs, a) == LoadByte(original, p, a)
  {
    var job, w := AppendSettles(img, flags, cut, page, original, f, out);
    PreservedAddressReads(job, w, img, p, a);
  }

  /** Every relocated section is found at its new address with its contents. */
  lemma AppendRelocates(img: Image, flags: seq<bool>, cut: nat, page: nat, original: seq<byte>, f: Image,
                        out: seq<byte>, i: nat)
    requires Appends(img, flags, cut, page, original, f, out)
    requires i < |flags| && flags[i]
    ensures i < |f.shdrs| == |f.data| && (img.DynIdx() != Some(i) ==> i < |img.data| && f.data[i] == img.data[i])
    ensures Reads(out, f.phdrs, f.shdrs[i].addr, f.data[i])
  {
    var job, w := AppendOutput(img, flags, cut, page, original, f, out);
    FinalFields(job.img, job.g, job.note, job.front, f);
    SameDynIdx(img, job.img);
    MovedSectionReads(job, w, i);
  }
}
