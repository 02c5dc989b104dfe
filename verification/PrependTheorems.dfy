/** What prepending guarantees about the file it writes. */
module PrependTheorems {
  import opened Bytes
  import opened Ir
  import opened Serialize
  import opened Layout
  import opened Shape
  import opened Placed
  import opened Verify
  import opened Dynamic
  import opened Prepend
  import opened Loader
  import opened Memory

  /** What `relayout_shift` returns once the sections to move are chosen and
      there is room below the image. */
  ghost function PrependFile(img: Image, flags: seq<bool>, page: nat, keepTail: bool,
                             original: seq<byte>): Result<seq<byte>>
    requires WellShaped(img) && |flags| == |img.shdrs| && page > 0 && CanPrepend(img, flags, page, keepTail)
  {
    var total := PrependGeometry(img, flags, |original|, page, keepTail).total;
    match Prepended(img, flags, |original|, page, keepTail)
    case Err(e) => Err(e)
    case Ok(f) =>
      match Run(f, total)
      case Err(e) => Err(e)
      case Ok(_) => WriteSpec(f, original, PrependShift(img, flags, page, keepTail), total)
  }

  lemma PrependedYields(img: Image, flags: seq<bool>, origLen: nat, page: nat, keepTail: bool)
    requires WellShaped(img) && |flags| == |img.shdrs| && page > 0 && CanPrepend(img, flags, page, keepTail)
    requires Prepended(img, flags, origLen, page, keepTail).Ok?
    ensures Yields(PrependJob(img, flags, origLen, page, keepTail),
                   Prepended(img, flags, origLen, page, keepTail).value)
  {
    var g := PrependGeometry(img, flags, origLen, page, keepTail);
    ArrangedShape(WithTables(Shifted(img, PrependShift(img, flags, page, keepTail)), g), g, LdcacheNote(img), true);
  }

  /** From a ready input the prepended image passes `verify::run`, and the writer
      fails only on a field too wide for the class. */
  lemma PrependEstablishesVerify(img: Image, flags: seq<bool>, page: nat, keepTail: bool, original: seq<byte>)
    requires PrependReady(img, flags, |original|, page, keepTail)
             && Prepended(img, flags, |original|, page, keepTail).Ok?
    ensures var f := Prepended(img, flags, |original|, page, keepTail).value;
            && Accepts(f, PrependGeometry(img, flags, |original|, page, keepTail).total)
            && (PrependFile(img, flags, page, keepTail, original).Ok? <==> Headers(f).Ok?)
  {
    var job, f := PrependJob(img, flags, |original|, page, keepTail),
      Prepended(img, flags, |original|, page, keepTail).value;
    PrependIsReady(img, flags, |original|, page, keepTail);
    PrependedYields(img, flags, |original|, page, keepTail);
    FinalAccepted(job, f);
    FinalWrites(job, f, original, PrependShift(img, flags, page, keepTail));
  }

  /** A successful prepend wrote `f` as `out`, the input moved up by `shift`. */
  ghost predicate Prepends(img: Image, flags: seq<bool>, page: nat, keepTail: bool, original: seq<byte>, shift: nat,
                           f: Image, out: seq<byte>)
  {
    && PrependReady(img, flags, |original|, page, keepTail) && shift == PrependShift(img, flags, page, keepTail)
    && Prepended(img, flags, |original|, page, keepTail) == Ok(f)
    && PrependFile(img, flags, page, keepTail, original) == Ok(out)
  }

  /** The run behind a successful prepend, its input moved up by the shift. */
  lemma PrependOutput(img: Image, flags: seq<bool>, page: nat, keepTail: bool, original: seq<byte>, shift: nat,
                      f: Image, out: seq<byte>)
    returns (job: Job, w: Written)
    requires Prepends(img, flags, page, keepTail, original, shift, f, out)
    ensures job == PrependJob(img, flags, |original|, page, keepTail) && Ready(job) && Output(job, w)
    ensures w.f == f && w.original == original && w.shift == shift && w.out == out
    ensures WellShaped(f) && Headers(f) == Ok(w.headers)
  {
    job := PrependJob(img, flags, |original|, page, keepTail);
    PrependEstablishesVerify(img, flags, page, keepTail, original);
    PrependIsReady(img, flags, |original|, page, keepTail);
    PrependedYields(img, flags, |original|, page, keepTail);
    FinalTables(job, f);
    FinalWrites(job, f, original, shift);
    w := Written(f, Headers(f).value, original, shift, out);
  }

  lemma PrependSettles(img: Image, flags: seq<bool>, page: nat, keepTail: bool, original: seq<byte>, shift: nat,
                       f: Image, out: seq<byte>)
    returns (job: Job, w: Written)
    requires Prepends(img, flags, page, keepTail, original, shift, f, out)
    ensures Settled(job, w) && MovedUp(job, w, img)
    ensures job.flags == flags && job.lo == w.shift && job.hi == w.shift + |original|
    ensures keepTail ==> |out| == job.hi
    ensures w.f == f && w.original == original && w.shift == shift && w.out == out
  {
    job, w := PrependOutput(img, flags, page, keepTail, original, shift, f, out);
    OutputSettles(job, w);
  }

  /** No kept section changes the byte at file position `i`. */
  ghost predicate PrependKeeps(img: Image, flags: seq<bool>, f: Image, original: seq<byte>, i: nat)
    requires |flags| == |img.shdrs|
  {
    && i < |original|
    && forall j: nat {:trigger Kept(img, flags, j)} ::
         Kept(img, flags, j) && img.shdrs[j].offset <= i < img.shdrs[j].offset + img.shdrs[j].size ==>
           j < |f.data| && i - img.shdrs[j].offset < |f.data[j]| && f.data[j][i - img.shdrs[j].offset] == original[i]
  }

  /** Every input byte not rewritten in place moves up by exactly the shift. */
  lemma PrependMovesBytes(img: Image, flags: seq<bool>, page: nat, keepTail: bool, original: seq<byte>, shift: nat,
                          f: Image, out: seq<byte>, i: nat)
    requires Prepends(img, flags, page, keepTail, original, shift, f, out) && PrependKeeps(img, flags, f, original, i)
    ensures i + shift < |out| && out[i + shift] == original[i]
  {
    var job, w := PrependSettles(img, flags, page, keepTail, original, shift, f, out);
    PreservedByteMoves(job, w, img, i);
  }

  /** With `keep_tail` the output ends where the moved-up input ends, so bytes past
      everything the sections describe are still the file's last bytes. */
  lemma PrependKeepsTail(img: Image, flags: seq<bool>, page: nat, original: seq<byte>, shift: nat, f: Image,
                         out: seq<byte>, end: nat)
    requires Prepends(img, flags, page, true, original, shift, f, out) && end <= |original|
    requires |flags| == |img.shdrs| && SectionsEndBy(img, flags, end)
    ensures |out| == |original| + shift
    ensures out[end + shift..] == original[end..]
  {
    var job, w := PrependSettles(img, flags, page, true, original, shift, f, out);
    TailStaysIn(job, w, img, flags, end, original, shift, out);
  }

  lemma TailStaysIn(job: Job, w: Written, img: Image, flags: seq<bool>, end: nat, original: seq<byte>, shift: nat,
                    out: seq<byte>)
    requires MovedUp(job, w, img) && Settled(job, w) && job.flags == flags
    requires job.lo == w.shift && job.hi == w.shift + |w.original| == |w.out|
    requires end <= |w.original| && |flags| == |img.shdrs| && SectionsEndBy(img, flags, end)
    requires w.out == out && w.original == original && w.shift == shift
    ensures |out| == |original| + shift && out[end + shift..] == original[end..]
  {
    TailStays(job, w, img, end);
  }

  /** Every kept section ends at or before file offset `end`. */
  ghost predicate SectionsEndBy(img: Image, flags: seq<bool>, end: nat)
    requires |flags| == |img.shdrs|
  {
    forall j: nat {:trigger Kept(img, flags, j)} :: Kept(img, flags, j) ==>
             img.shdrs[j].offset + img.shdrs[j].size <= end
  }

  lemma TailStays(job: Job, w: Written, img: Image, end: nat)
    requires MovedUp(job, w, img) && Settled(job, w) && job.lo == w.shift && job.hi == w.shift + |w.original| == |w.out|
    requires end <= |w.original| && SectionsEndBy(img, job.flags, end)
    ensures w.out[end + w.shift..] == w.original[end..]
  {
    forall i | end <= i < |w.original|
      ensures w.out[i + w.shift] == w.original[i]
    {
      PreservedByteMoves(job, w, img, i);
    }
  }

  /** Prepending preserves the loaded program at unchanged addresses: every
      address of an original load outside the sections rewritten in place reads
      the same byte in the output as in the input. */
  lemma PrependPreservesProgram(img: Image, flags: seq<bool>, page: nat, keepTail: bool, original: seq<byte>,
                                shift: nat, f: Image, out: seq<byte>, p: Phdr, a: nat)
    requires Prepends(img, flags, page, keepTail, original, shift, f, out)
    requires p in Loads(img.phdrs) && InMemory(p, a)
    requires a - p.vaddr < p.filesz ==> PrependKeeps(img, flags, f, original, FileIndex(p, a))
    ensures MemAt(out, f.phdrs, a) == MemAt(original, img.phdrs, a)
  {
    PrependKeepsByte(img, flags, page, keepTail, original, shift, f, out, p, a);
    InputProgram(original, img.phdrs, p, a);
  }

  lemma PrependKeepsByte(img: Image, flags: seq<bool>, page: nat, keepTail: bool, original: seq<byte>, shift: nat,
                         f: Image, out: seq<byte>, p: Phdr, a: nat)
    requires Prepends(img, flags, page, keepTail, original, shift, f, out)
    requires p in Loads(img.phdrs) && InMemory(p, a)
    requires a - p.vaddr < p.filesz ==> PrependKeeps(img, flags, f, original, FileIndex(p, a))
    ensures MemAt(out, f.phdrs, a) == LoadByte(original, p, a)
  {
    var job, w := PrependSettles(img, flags, page, keepTail, original, shift, f, out);
    PreservedAddressReads(job, w, img, p, a);
  }

  /** Every relocated section is found at its new, lower address with its contents. */
  lemma PrependRelocates(img: Image, flags: seq<bool>, page: nat, keepTail: bool, original: seq<byte>, shift: nat,
                         f: Image, out: seq<byte>, i: nat)
    requires Prepends(img, flags, page, keepTail, original, shift, f, out)
    requires i < |flags| && flags[i]
    ensures i < |f.shdrs| == |f.data| && (img.DynIdx() != Some(i) ==> i < |img.data| && f.data[i] == img.data[i])
    ensures Reads(out, f.phdrs, f.shdrs[i].addr, f.data[i])
  {
    var job, w := PrependOutput(img, flags, page, keepTail, original, shift, f, out);
    FinalFields(job.img, job.g, job.note, job.front, f);
    SameDynIdx(img, job.img);
    MovedSectionReads(job, w, i);
  }
}
