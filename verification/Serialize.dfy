/** The streaming writer (src/serialize.rs): the headers and section contents
    that differ from the input, in file order, over a backdrop of the input
    moved up by `shift`. */
module Serialize {
  import opened Bytes
  import opened Ir
  import opened Codec
  import Sorting

  /** Bytes placed at `at` in the output. */
  datatype Span = Span(at: nat, bytes: seq<byte>) {
    function End(): nat
    {
      at + |bytes|
    }

    predicate Covers(i: nat)
    {
      at <= i < End()
    }
  }

  function At(s: Span): int
  {
    s.at
  }

  /** Two placed spans share no output position. */
  predicate Apart(s: Span, t: Span)
  {
    s.bytes == [] || t.bytes == [] || s.End() <= t.at || t.End() <= s.at
  }

  ghost predicate PairwiseApart(spans: seq<Span>)
  {
    forall i, j :: 0 <= i < j < |spans| ==> Apart(spans[i], spans[j])
  }

  ghost predicate Inside(spans: seq<Span>, total: nat)
  {
    forall s :: s in spans ==> s.End() <= total
  }

  // ---- Where every output byte comes from ----

  /** The shifted input under the spans; zero where the input does not reach. */
  function Backdrop(original: seq<byte>, shift: nat, i: nat): byte
  {
    if shift <= i < shift + |original| then original[i - shift] else 0
  }

  ghost predicate Covered(spans: seq<Span>, i: nat)
  {
    exists s :: s in spans && s.Covers(i)
  }

  ghost function Pixel(spans: seq<Span>, original: seq<byte>, shift: nat, i: nat): byte
  {
    if Covered(spans, i) then
      var s :| s in spans && s.Covers(i);
      s.bytes[i - s.at]
    else Backdrop(original, shift, i)
  }

  /** The output of a writer given these spans, byte by byte. */
  ghost function Render(spans: seq<Span>, original: seq<byte>, shift: nat, total: nat): (out: seq<byte>)
    ensures |out| == total
  {
    seq(total, i requires 0 <= i < total => Pixel(spans, original, shift, i))
  }

  /** A file holds a span's bytes at its place. */
  predicate Holds(out: seq<byte>, s: Span)
  {
    s.bytes == [] || (s.End() <= |out| && out[s.at..s.End()] == s.bytes)
  }

  /** The same, as the property the writer's loop keeps. */
  ghost predicate Rendered(out: seq<byte>, spans: seq<Span>, original: seq<byte>, shift: nat)
  {
    && (forall s :: s in spans ==> Holds(out, s))
    && (forall i :: 0 <= i < |out| && !Covered(spans, i) ==> out[i] == Backdrop(original, shift, i))
  }

  /** Outputs with this property are determined byte for byte. */
  lemma RenderedIsRender(out: seq<byte>, spans: seq<Span>, original: seq<byte>, shift: nat)
    requires Rendered(out, spans, original, shift)
    ensures out == Render(spans, original, shift, |out|)
  {
    forall i | 0 <= i < |out|
      ensures out[i] == Pixel(spans, original, shift, i)
    {
      if Covered(spans, i) {
        forall s | s in spans && s.Covers(i)
          ensures out[i] == s.bytes[i - s.at]
        {
          assert Holds(out, s);
          assert out[s.at..s.End()][i - s.at] == out[i];
        }
      }
    }
  }

  lemma RenderIsRendered(spans: seq<Span>, original: seq<byte>, shift: nat, total: nat)
    requires PairwiseApart(spans) && Inside(spans, total)
    ensures Rendered(Render(spans, original, shift, total), spans, original, shift)
  {
    var out := Render(spans, original, shift, total);
    forall s | s in spans && s.bytes != []
      ensures Holds(out, s)
    {
      forall k | 0 <= k < |s.bytes|
        ensures out[s.at + k] == s.bytes[k]
      {
        var i := s.at + k;
        assert s.Covers(i);
        forall t | t in spans && t.Covers(i)
          ensures t.bytes[i - t.at] == s.bytes[k]
        {
          OneCover(spans, s, t, i);
        }
      }
    }
  }

  lemma OneCover(spans: seq<Span>, s: Span, t: Span, i: nat)
    requires PairwiseApart(spans) && s in spans && t in spans && s.Covers(i) && t.Covers(i)
    ensures s == t
  {
    var m :| 0 <= m < |spans| && spans[m] == s;
    var n :| 0 <= n < |spans| && spans[n] == t;
    if m < n {
    } else if n < m {
    }
  }

  // ---- Spans of an image ----

  /** Concatenation of written records; the first failure wins. */
  function Concat(rs: seq<Result<seq<byte>>>): (r: Result<seq<byte>>)
  {
    if rs == [] then Ok([])
    else
      match Concat(rs[..|rs| - 1])
      case Err(e) => Err(e)
      case Ok(b) =>
        match rs[|rs| - 1]
        case Err(e) => Err(e)
        case Ok(c) => Ok(b + c)
  }

  lemma ConcatSnoc(rs: seq<Result<seq<byte>>>, r: Result<seq<byte>>)
    requires Concat(rs).Ok? && r.Ok?
    ensures Concat(rs + [r]) == Ok(Concat(rs).value + r.value)
  {
    assert (rs + [r])[..|rs|] == rs;
  }

  lemma {:induction false} ConcatOk(rs: seq<Result<seq<byte>>>)
    ensures Concat(rs).Ok? <==> forall k :: 0 <= k < |rs| ==> rs[k].Ok?
  {
    if rs != [] {
      var n := |rs| - 1;
      ConcatOk(rs[..n]);
      assert rs == rs[..n] + [rs[n]];
    }
  }

  /** One more written record. */
  lemma ConcatNext(rs: seq<Result<seq<byte>>>, i: nat, b: seq<byte>, c: seq<byte>)
    requires i < |rs| && Concat(rs[..i]) == Ok(b) && rs[i] == Ok(c)
    ensures Concat(rs[..i + 1]) == Ok(b + c)
  {
    assert rs[..i + 1] == rs[..i] + [rs[i]];
    ConcatSnoc(rs[..i], rs[i]);
  }

  lemma ConcatFails(rs: seq<Result<seq<byte>>>, i: nat)
    requires i < |rs| && rs[i].Err?
    ensures Concat(rs).Err?
  {
    ConcatOk(rs);
  }

  ghost predicate Sized(rs: seq<Result<seq<byte>>>, size: nat)
  {
    forall k :: 0 <= k < |rs| && rs[k].Ok? ==> |rs[k].value| == size
  }

  lemma {:induction false} ConcatLength(rs: seq<Result<seq<byte>>>, size: nat)
    requires Sized(rs, size) && Concat(rs).Ok?
    ensures |Concat(rs).value| == |rs| * size
  {
    if rs != [] {
      var n := |rs| - 1;
      ConcatLength(rs[..n], size);
      assert (n + 1) * size == n * size + size;
    }
  }

  /** A table of equal-sized records holds record `k` at `k` times the size. */
  lemma {:induction false} ConcatChunk(rs: seq<Result<seq<byte>>>, size: nat, k: nat)
    requires Sized(rs, size) && Concat(rs).Ok? && k < |rs|
    ensures 0 <= k * size && k * size + size <= |Concat(rs).value|
    ensures rs[k] == Ok(Concat(rs).value[k * size..k * size + size])
  {
    var n := |rs| - 1;
    var b, c := Concat(rs[..n]).value, rs[n].value;
    ConcatLength(rs[..n], size);
    if k < n {
      ConcatChunk(rs[..n], size, k);
      assert (b + c)[k * size..k * size + size] == b[k * size..k * size + size];
    } else {
      assert (b + c)[k * size..k * size + size] == c;
    }
  }

  function WrittenPhdrs(enc: Enc, phdrs: seq<Phdr>): (rs: seq<Result<seq<byte>>>)
    ensures |rs| == |phdrs|
    ensures Sized(rs, PhdrSize(enc.class_))
  {
    seq(|phdrs|, i requires 0 <= i < |phdrs| => WritePhdr(enc, phdrs[i]))
  }

  function WrittenShdrs(enc: Enc, shdrs: seq<Shdr>): (rs: seq<Result<seq<byte>>>)
    ensures |rs| == |shdrs|
    ensures Sized(rs, ShdrSize(enc.class_))
  {
    seq(|shdrs|, i requires 0 <= i < |shdrs| => WriteShdr(enc, shdrs[i]))
  }

  function WrittenDyns(enc: Enc, dynamic: seq<DynEntry>): (rs: seq<Result<seq<byte>>>)
    ensures |rs| == |dynamic|
    ensures Sized(rs, DynSize(enc.class_))
  {
    seq(|dynamic|, i requires 0 <= i < |dynamic| => WriteDyn(enc, dynamic[i]))
  }

  /** Shape invariants of an image: parallel section lists, a 16-byte ident. */
  predicate WellShaped(img: Image)
  {
    |img.data| == |img.shdrs| && |img.ehdr.ident| == 16
  }

  /** Every non-`SHT_NOBITS` section has as many bytes as its header says. */
  ghost predicate SizesMatch(img: Image)
    requires WellShaped(img)
  {
    forall i :: 0 <= i < |img.shdrs| && img.shdrs[i].shtype != SHT_NOBITS ==> |img.data[i]| == img.shdrs[i].size
  }

  /** Section `i`'s bytes at its file offset; `SHT_NOBITS` occupies none. */
  function SectionSpan(img: Image, i: nat): Span
    requires WellShaped(img) && i < |img.shdrs|
  {
    if img.shdrs[i].shtype == SHT_NOBITS then Span(0, []) else Span(img.shdrs[i].offset, img.data[i])
  }

  function SectionSpans(img: Image): (s: seq<Span>)
    requires WellShaped(img)
    ensures |s| == |img.shdrs|
    ensures forall i :: 0 <= i < |s| ==> s[i] == SectionSpan(img, i)
  {
    seq(|img.shdrs|, i requires 0 <= i < |img.shdrs| => SectionSpan(img, i))
  }

  /** The three encoded header blocks. */
  function Headers(img: Image): (r: Result<seq<Span>>)
    requires WellShaped(img)
    ensures r.Ok? ==> |r.value| == 3
  {
    var ehdr := WriteEhdr(img.enc, img.ehdr, |img.phdrs|, |img.shdrs|);
    var pht := Concat(WrittenPhdrs(img.enc, img.phdrs));
    var sht := Concat(WrittenShdrs(img.enc, img.shdrs));
    if ehdr.Ok? && pht.Ok? && sht.Ok? then
      Ok([Span(0, ehdr.value), Span(img.ehdr.phoff, pht.value), Span(img.ehdr.shoff, sht.value)])
    else Err(SerializeError)
  }

  /** Everything the image places in the file: headers, tables, sections. */
  function Regions(img: Image): seq<Span>
    requires WellShaped(img) && Headers(img).Ok?
  {
    Headers(img).value + SectionSpans(img)
  }

  /** Whether a span has bytes the backdrop would not reproduce. */
  predicate Changed(s: Span, original: seq<byte>, shift: nat)
  {
    s.bytes != [] && !(s.at >= shift && s.End() - shift <= |original|
                       && original[s.at - shift..s.End() - shift] == s.bytes)
  }

  function Delta(spans: seq<Span>, original: seq<byte>, shift: nat): (r: seq<Span>)
  {
    if spans == [] then []
    else Delta(spans[..|spans| - 1], original, shift)
         + if Changed(spans[|spans| - 1], original, shift) then [spans[|spans| - 1]] else []
  }

  lemma DeltaSnoc(spans: seq<Span>, s: Span, original: seq<byte>, shift: nat)
    ensures Delta(spans + [s], original, shift) == Delta(spans, original, shift) + if Changed(s, original, shift)
            then [s] else []
  {
    assert (spans + [s])[..|spans|] == spans;
  }

  lemma DeltaNext(spans: seq<Span>, i: nat, original: seq<byte>, shift: nat)
    requires i < |spans|
    ensures Delta(spans[..i + 1], original, shift)
            == Delta(spans[..i], original, shift) + if Changed(spans[i], original, shift) then [spans[i]] else []
  {
    assert spans[..i + 1] == spans[..i] + [spans[i]];
    DeltaSnoc(spans[..i], spans[i], original, shift);
  }

  lemma {:induction false} DeltaMembers(spans: seq<Span>, original: seq<byte>, shift: nat, s: Span)
    ensures s in Delta(spans, original, shift) <==> s in spans && Changed(s, original, shift)
  {
    if spans != [] {
      var n := |spans| - 1;
      DeltaMembers(spans[..n], original, shift, s);
      assert s in spans <==> s in spans[..n] || s == spans[n];
    }
  }

  lemma {:induction false} DeltaApart(spans: seq<Span>, original: seq<byte>, shift: nat)
    requires PairwiseApart(spans)
    ensures PairwiseApart(Delta(spans, original, shift))
  {
    if spans != [] {
      var n := |spans| - 1;
      var init := Delta(spans[..n], original, shift);
      DeltaApart(spans[..n], original, shift);
      forall i | 0 <= i < |init|
        ensures Apart(init[i], spans[n])
      {
        DeltaMembers(spans[..n], original, shift, init[i]);
        var m :| 0 <= m < n && spans[m] == init[i];
      }
    }
  }

  /** Dropping the spans the input already holds changes no output byte, and
      leaves every dropped span in place, when no two spans touch. */
  lemma DeltaRendersRegions(spans: seq<Span>, original: seq<byte>, shift: nat, total: nat)
    requires PairwiseApart(spans) && Inside(spans, total)
    ensures Rendered(Render(Delta(spans, original, shift), original, shift, total), spans, original, shift)
  {
    var delta := Delta(spans, original, shift);
    var out := Render(delta, original, shift, total);
    DeltaApart(spans, original, shift);
    forall s ensures s in delta <==> s in spans && Changed(s, original, shift) {
      DeltaMembers(spans, original, shift, s);
    }
    RenderIsRendered(delta, original, shift, total);
    forall s | s in spans && s.bytes != []
      ensures Holds(out, s)
    {
      if !Changed(s, original, shift) {
        forall k | 0 <= k < |s.bytes|
          ensures out[s.at + k] == s.bytes[k]
        {
          var i := s.at + k;
          assert s.Covers(i);
          forall t | t in delta && t.Covers(i)
            ensures false
          {
            OneCover(spans, s, t, i);
          }
          assert original[s.at - shift..s.End() - shift][k] == original[i - shift];
        }
      }
    }
    forall i | 0 <= i < |out| && !Covered(spans, i)
      ensures out[i] == Backdrop(original, shift, i)
    {
      assert !Covered(delta, i);
    }
  }

  /** What writing an image yields: an error exactly when a header field is too
      wide, a section's size is stale, or two changed spans collide or overrun. */
  ghost function WriteSpec(img: Image, original: seq<byte>, shift: nat, total: nat): (r: Result<seq<byte>>)
    requires WellShaped(img)
    ensures r.Ok? ==> |r.value| == total
  {
    if !Headers(img).Ok? || !SizesMatch(img) then Err(SerializeError)
    else
      var delta := Delta(Regions(img), original, shift);
      if PairwiseApart(delta) && Inside(delta, total) then Ok(Render(delta, original, shift, total))
      else Err(SerializeError)
  }

  /** With no two regions touching and all of them inside the file, the writer
      succeeds, every region is read back, and all other bytes are the input's. */
  lemma WriteRegions(img: Image, original: seq<byte>, shift: nat, total: nat)
    requires WellShaped(img) && Headers(img).Ok? && SizesMatch(img)
    requires PairwiseApart(Regions(img)) && Inside(Regions(img), total)
    ensures WriteSpec(img, original, shift, total).Ok?
    ensures Rendered(WriteSpec(img, original, shift, total).value, Regions(img), original, shift)
  {
    var spans := Regions(img);
    var delta := Delta(spans, original, shift);
    DeltaApart(spans, original, shift);
    forall s | s in delta
      ensures s.End() <= total
    {
      DeltaMembers(spans, original, shift, s);
    }
    DeltaRendersRegions(spans, original, shift, total);
  }

  /** Sorting neither creates nor removes an overlap. */
  lemma SortApart(spans: seq<Span>)
    ensures PairwiseApart(Sorting.Sort(spans, At)) <==> PairwiseApart(spans)
  {
    Sorting.SortPairwise(spans, At, Apart);
    assert PairwiseApart(spans) <==> Sorting.PairwiseBy(spans, Apart);
    var ss := Sorting.Sort(spans, At);
    assert PairwiseApart(ss) <==> Sorting.PairwiseBy(ss, Apart);
  }
}
