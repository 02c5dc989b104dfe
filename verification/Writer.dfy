/** The writer's loops (src/serialize.rs), proved against `Serialize.WriteSpec`. */
module Writer {
  import opened Bytes
  import opened Ir
  import opened Codec
  import opened Serialize
  import Sorting

  method EncodePhdrs(enc: Enc, phdrs: seq<Phdr>) returns (r: Result<seq<byte>>)
    ensures r.Ok? <==> Concat(WrittenPhdrs(enc, phdrs)).Ok?
    ensures r.Ok? ==> r == Concat(WrittenPhdrs(enc, phdrs))
  {
    var pht: seq<byte> := [];
    ghost var rs := WrittenPhdrs(enc, phdrs);
    for i := 0 to |phdrs|
      invariant Concat(rs[..i]) == Ok(pht)
    {
      var one := WritePhdr(enc, phdrs[i]);
      if one.Err? {
        ConcatFails(rs, i);
        return Err(SerializeError);
      }
      ConcatNext(rs, i, pht, one.value);
      pht := pht + one.value;
    }
    assert rs[..|phdrs|] == rs;
    return Ok(pht);
  }

  method EncodeShdrs(enc: Enc, shdrs: seq<Shdr>) returns (r: Result<seq<byte>>)
    ensures r.Ok? <==> Concat(WrittenShdrs(enc, shdrs)).Ok?
    ensures r.Ok? ==> r == Concat(WrittenShdrs(enc, shdrs))
  {
    var sht: seq<byte> := [];
    ghost var rs := WrittenShdrs(enc, shdrs);
    for i := 0 to |shdrs|
      invariant Concat(rs[..i]) == Ok(sht)
    {
      var one := WriteShdr(enc, shdrs[i]);
      if one.Err? {
        ConcatFails(rs, i);
        return Err(SerializeError);
      }
      ConcatNext(rs, i, sht, one.value);
      sht := sht + one.value;
    }
    assert rs[..|shdrs|] == rs;
    return Ok(sht);
  }

  /** The encoded file header, program header table and section header table. */
  method HeaderSpans(img: Image) returns (r: Result<seq<Span>>)
    requires WellShaped(img)
    ensures r == Headers(img)
  {
    var ehdr := WriteEhdr(img.enc, img.ehdr, |img.phdrs|, |img.shdrs|);
    if ehdr.Err? {
      return Err(SerializeError);
    }
    var pht := EncodePhdrs(img.enc, img.phdrs);
    if pht.Err? {
      return Err(SerializeError);
    }
    var sht := EncodeShdrs(img.enc, img.shdrs);
    if sht.Err? {
      return Err(SerializeError);
    }
    return Ok([Span(0, ehdr.value), Span(img.ehdr.phoff, pht.value), Span(img.ehdr.shoff, sht.value)]);
  }

  /** The changed spans: headers first, then sections in index order. */
  method OwnedSpans(img: Image, original: seq<byte>, shift: nat) returns (r: Result<seq<Span>>)
    requires WellShaped(img)
    ensures r.Ok? <==> Headers(img).Ok? && SizesMatch(img)
    ensures r.Ok? ==> r.value == Delta(Regions(img), original, shift)
  {
    var headers := HeaderSpans(img);
    if headers.Err? {
      return Err(SerializeError);
    }
    var spans := Deltas(headers.value, original, shift);
    DeltaEnds(img, headers.value, original, shift);
    AllSizes(img);
    r := SectionDeltas(img, headers.value, spans, original, shift);
  }

  method Deltas(all: seq<Span>, original: seq<byte>, shift: nat) returns (spans: seq<Span>)
    ensures spans == Delta(all, original, shift)
  {
    spans := [];
    for i := 0 to |all|
      invariant spans == Delta(all[..i], original, shift)
    {
      DeltaNext(all, i, original, shift);
      spans := Push(spans, all[i], original, shift);
    }
    assert all[..|all|] == all;
  }

  /** What changed among the headers and the first `i` sections. */
  ghost function DeltasTo(img: Image, headers: seq<Span>, i: nat, original: seq<byte>, shift: nat): seq<Span>
    requires WellShaped(img) && i <= |img.shdrs|
  {
    Delta((headers + SectionSpans(img))[..|headers| + i], original, shift)
  }

  lemma DeltaEnds(img: Image, headers: seq<Span>, original: seq<byte>, shift: nat)
    requires WellShaped(img)
    ensures DeltasTo(img, headers, 0, original, shift) == Delta(headers, original, shift)
    ensures DeltasTo(img, headers, |img.shdrs|, original, shift) == Delta(headers + SectionSpans(img), original, shift)
  {
    var all := headers + SectionSpans(img);
    assert all[..|headers| + 0] == headers && all[..|headers| + |img.shdrs|] == all;
  }

  /** One more section: nothing for one without file bytes, else its span if it changed. */
  lemma DeltaStep(img: Image, headers: seq<Span>, i: nat, original: seq<byte>, shift: nat)
    requires WellShaped(img) && i < |img.shdrs|
    ensures var s, before := Span(img.shdrs[i].offset, img.data[i]), DeltasTo(img, headers, i, original, shift);
            DeltasTo(img, headers, i + 1, original, shift)
            == if img.shdrs[i].shtype != SHT_NOBITS && Changed(s, original, shift) then before + [s] else before
  {
    DeltaNext(headers + SectionSpans(img), |headers| + i, original, shift);
    SpanAt(img, headers, i);
  }

  predicate SizeMatches(img: Image, i: nat)
    requires WellShaped(img) && i < |img.shdrs|
  {
    img.shdrs[i].shtype != SHT_NOBITS ==> |img.data[i]| == img.shdrs[i].size
  }

  predicate SizesTo(img: Image, n: nat)
    requires WellShaped(img) && n <= |img.shdrs|
  {
    n == 0 || (SizesTo(img, n - 1) && SizeMatches(img, n - 1))
  }

  lemma {:induction false} SizesToAll(img: Image, n: nat)
    requires WellShaped(img) && n <= |img.shdrs|
    ensures SizesTo(img, n) <==> forall j: nat :: j < n ==> SizeMatches(img, j)
  {
    if n > 0 {
      SizesToAll(img, n - 1);
    }
  }

  lemma AllSizes(img: Image)
    requires WellShaped(img)
    ensures SizesTo(img, |img.shdrs|) <==> SizesMatch(img)
  {
    SizesToAll(img, |img.shdrs|);
    if SizesTo(img, |img.shdrs|) {
      forall j: nat | j < |img.shdrs| && img.shdrs[j].shtype != SHT_NOBITS
        ensures |img.data[j]| == img.shdrs[j].size
      {
        assert SizeMatches(img, j);
      }
    }
  }

  lemma SizeFails(img: Image, i: nat)
    requires WellShaped(img) && i < |img.shdrs| && !SizeMatches(img, i)
    ensures !SizesTo(img, |img.shdrs|)
  {
    SizesToAll(img, |img.shdrs|);
  }

  /** One section's span behind the others, unless its size is not that of its contents. */
  method PushSection(spans: seq<Span>, img: Image, i: nat, original: seq<byte>, shift: nat)
    returns (r: Result<seq<Span>>)
    requires WellShaped(img) && i < |img.shdrs|
    ensures r.Ok? <==> SizeMatches(img, i)
    ensures var s := Span(img.shdrs[i].offset, img.data[i]);
            r.Ok? ==>
              r.value == if img.shdrs[i].shtype != SHT_NOBITS && Changed(s, original, shift) then spans + [s] else spans
  {
    if img.shdrs[i].shtype == SHT_NOBITS {
      return Ok(spans);
    }
    if |img.data[i]| != img.shdrs[i].size {
      return Err(SerializeError);
    }
    var pushed := Push(spans, Span(img.shdrs[i].offset, img.data[i]), original, shift);
    return Ok(pushed);
  }

  method SectionDeltas(img: Image, ghost headers: seq<Span>, headerSpans: seq<Span>, original: seq<byte>, shift: nat)
    returns (r: Result<seq<Span>>)
    requires WellShaped(img) && headerSpans == DeltasTo(img, headers, 0, original, shift)
    ensures r.Ok? <==> SizesTo(img, |img.shdrs|)
    ensures r.Ok? ==> r.value == DeltasTo(img, headers, |img.shdrs|, original, shift)
  {
    var spans := headerSpans;
    for i := 0 to |img.shdrs|
      invariant spans == DeltasTo(img, headers, i, original, shift)
      invariant SizesTo(img, i)
    {
      var next := PushSection(spans, img, i, original, shift);
      if next.Err? {
        SizeFails(img, i);
        return Err(SerializeError);
      }
      DeltaStep(img, headers, i, original, shift);
      spans := next.value;
    }
    return Ok(spans);
  }

  lemma SpanAt(img: Image, headers: seq<Span>, i: nat)
    requires WellShaped(img) && i < |img.shdrs|
    ensures (headers + SectionSpans(img))[|headers| + i] == SectionSpan(img, i)
  {
    assert SectionSpans(img)[i] == SectionSpan(img, i);
  }

  /** Keep a span only if the shifted input does not already hold its bytes. */
  method Push(spans: seq<Span>, s: Span, original: seq<byte>, shift: nat) returns (r: seq<Span>)
    ensures r == spans + if Changed(s, original, shift) then [s] else []
  {
    var present := s.at >= shift && s.End() - shift <= |original| && original[s.at - shift..s.End() - shift] == s.bytes;
    if s.bytes == [] || present {
      return spans;
    }
    return spans + [s];
  }

  /** Emit `len` zero bytes in 4096-byte chunks. */
  method ZeroFill(out: seq<byte>, len: nat) returns (r: seq<byte>)
    ensures |r| == |out| + len && r[..|out|] == out
    ensures forall i :: |out| <= i < |r| ==> r[i] == 0
  {
    var remaining := len;
    r := out;
    while remaining > 0
      invariant 0 <= remaining <= len
      invariant |r| == |out| + len - remaining && r[..|out|] == out
      invariant forall i :: |out| <= i < |r| ==> r[i] == 0
    {
      var n := if remaining < 4096 then remaining else 4096;
      r := r + seq(n, i => 0);
      remaining := remaining - n;
    }
  }

  function Min(a: nat, b: nat): nat
  {
    if a < b then a else b
  }

  function SaturatingSub(a: nat, b: nat): nat
  {
    if a < b then 0 else a - b
  }

  /** Emit `[at, at + len)` of the shifted input, zero where it does not reach. */
  method Fill(out: seq<byte>, at: nat, len: nat, original: seq<byte>, shift: nat) returns (r: seq<byte>)
    requires |out| == at
    ensures |r| == at + len && r[..at] == out
    ensures forall i :: at <= i < at + len ==> r[i] == Backdrop(original, shift, i)
  {
    var lead := Min(SaturatingSub(shift, at), len);
    r := ZeroFill(out, lead);
    var start := Min(SaturatingSub(at + lead, shift), |original|);
    var avail := Min(|original| - start, len - lead);
    ghost var led := r;
    r := r + original[start..start + avail];
    ghost var copied := r;
    r := ZeroFill(r, len - lead - avail);
    assert led == copied[..|led|];
    assert forall i :: 0 <= i < |led| ==> r[i] == led[i];
    assert forall i :: 0 <= i < |copied| ==> r[i] == copied[i];
  }

  /** What the loop has established after the first `n` sorted spans. */
  ghost predicate Emitted(out: seq<byte>, ss: seq<Span>, n: nat, original: seq<byte>, shift: nat)
    requires n <= |ss|
  {
    && Rendered(out, ss[..n], original, shift)
    && PairwiseApart(ss[..n])
    && Inside(ss[..n], |out|)
  }

  /** A span held by a file is held by every longer one that starts with it. */
  lemma HoldsLonger(out: seq<byte>, longer: seq<byte>, s: Span)
    requires Holds(out, s) && |out| <= |longer| && longer[..|out|] == out
    ensures Holds(longer, s)
  {
    if s.bytes != [] {
      assert longer[s.at..s.End()] == longer[..|out|][s.at..s.End()];
    }
  }

  lemma EmitStep(out: seq<byte>, filled: seq<byte>, ss: seq<Span>, n: nat, original: seq<byte>, shift: nat)
    requires n < |ss| && Emitted(out, ss, n, original, shift) && |out| <= ss[n].at == |filled|
    requires filled[..|out|] == out
    requires forall i :: |out| <= i < |filled| ==> filled[i] == Backdrop(original, shift, i)
    ensures Emitted(filled + ss[n].bytes, ss, n + 1, original, shift)
  {
    var out' := filled + ss[n].bytes;
    assert ss[..n + 1] == ss[..n] + [ss[n]];
    Sorting.PairwiseSnoc(ss[..n], ss[n], Apart);
    assert Sorting.PairwiseBy(ss[..n], Apart);
    assert Sorting.AllRelated(ss[..n], ss[n], Apart);
    forall s | s in ss[..n + 1] && s.bytes != []
      ensures Holds(out', s)
    {
      if s in ss[..n] {
        assert out'[..|out|] == out;
        HoldsLonger(out, out', s);
      }
    }
    forall i | 0 <= i < |out'| && !Covered(ss[..n + 1], i)
      ensures out'[i] == Backdrop(original, shift, i)
    {
      assert !Covered(ss[..n], i);
      if i < |out| {
        assert filled[..|out|][i] == filled[i];
      } else {
        assert ss[n] in ss[..n + 1];
        assert !ss[n].Covers(i);
      }
    }
  }

  /** A span starting before the output position collides with its predecessor. */
  lemma BehindMeansOverlap(ss: seq<Span>, n: nat, cur: nat)
    requires 0 < n < |ss| && Sorting.SortedBy(ss, At)
    requires ss[n - 1].End() == cur && ss[n].at < cur
    requires ss[n - 1].bytes != [] && ss[n].bytes != []
    ensures !PairwiseApart(ss)
  {
    assert At(ss[n - 1]) <= At(ss[n]);
    assert !Apart(ss[n - 1], ss[n]);
  }

  /** Stream sorted spans front to back. */
  method Stream(spans: seq<Span>, original: seq<byte>, shift: nat, total: nat) returns (r: Result<seq<byte>>)
    requires Sorting.SortedBy(spans, At)
    requires forall s :: s in spans ==> s.bytes != []
    ensures r.Ok? <==> PairwiseApart(spans) && Inside(spans, total)
    ensures r.Ok? ==> |r.value| == total && Rendered(r.value, spans, original, shift)
    ensures r.Err? ==> r.error == SerializeError
  {
    var out: seq<byte> := [];
    for n := 0 to |spans|
      invariant Emitted(out, spans, n, original, shift)
      invariant |out| <= total
      invariant n == 0 ==> |out| == 0
      invariant n > 0 ==> |out| == spans[n - 1].End()
    {
      var s := spans[n];
      if s.at < |out| {
        BehindMeansOverlap(spans, n, |out|);
        return Err(SerializeError);
      }
      if s.End() > total {
        return Err(SerializeError);
      }
      var filled := out;
      if s.at > |out| {
        filled := Fill(out, |out|, s.at - |out|, original, shift);
      }
      EmitStep(out, filled, spans, n, original, shift);
      out := filled + s.bytes;
    }
    ghost var emitted := out;
    if total > |out| {
      out := Fill(out, |out|, total - |out|, original, shift);
    }
    EmitTail(emitted, out, spans, original, shift);
    return Ok(out);
  }

  /** The whole output, or an error exactly when the specification has one. */
  method WriteToShifted(img: Image, original: seq<byte>, shift: nat, total: nat) returns (r: Result<seq<byte>>)
    requires WellShaped(img)
    ensures r == WriteSpec(img, original, shift, total)
  {
    var owned := OwnedSpans(img, original, shift);
    if owned.Err? {
      return Err(SerializeError);
    }
    ghost var regions := Regions(img);
    var spans := Sorting.Sort(owned.value, At);
    SortFacts(regions, original, shift);
    r := Stream(spans, original, shift, total);
    if r.Ok? {
      SameMembersRendered(r.value, spans, owned.value, original, shift);
      RenderedIsRender(r.value, owned.value, original, shift);
    }
  }

  lemma SameMembersRendered(out: seq<byte>, ss: seq<Span>, spans: seq<Span>, original: seq<byte>, shift: nat)
    requires Rendered(out, ss, original, shift)
    requires forall s :: s in ss <==> s in spans
    ensures Rendered(out, spans, original, shift)
  {
    forall s | s in spans
      ensures Holds(out, s)
    {
      assert s in ss;
    }
    forall i | 0 <= i < |out| && !Covered(spans, i)
      ensures out[i] == Backdrop(original, shift, i)
    {
      SameMembersCovered(ss, spans, i);
    }
  }

  lemma SameMembersCovered(ss: seq<Span>, spans: seq<Span>, i: nat)
    requires forall s :: s in ss ==> s in spans
    ensures Covered(ss, i) ==> Covered(spans, i)
  {
    if Covered(ss, i) {
      var s :| s in ss && s.Covers(i);
      assert s in spans;
    }
  }

  lemma SortFacts(regions: seq<Span>, original: seq<byte>, shift: nat)
    ensures var delta := Delta(regions, original, shift);
            var ss := Sorting.Sort(delta, At);
            && Sorting.SortedBy(ss, At)
            && (PairwiseApart(ss) <==> PairwiseApart(delta))
            && (forall s :: s in ss <==> s in delta)
            && (forall s :: s in ss ==> s.bytes != [])
  {
    var delta := Delta(regions, original, shift);
    var ss := Sorting.Sort(delta, At);
    Sorting.SortSorted(delta, At);
    SortApart(delta);
    forall s ensures s in ss <==> s in delta {
      Sorting.PermutationMembers(ss, delta, s);
    }
    forall s | s in ss ensures s.bytes != [] {
      DeltaMembers(regions, original, shift, s);
    }
  }

  lemma EmitTail(emitted: seq<byte>, out: seq<byte>, ss: seq<Span>, original: seq<byte>, shift: nat)
    requires Emitted(emitted, ss, |ss|, original, shift)
    requires |emitted| <= |out| && out[..|emitted|] == emitted
    requires forall i :: |emitted| <= i < |out| ==> out[i] == Backdrop(original, shift, i)
    ensures Rendered(out, ss, original, shift)
    ensures PairwiseApart(ss) && Inside(ss, |out|)
  {
    assert ss[..|ss|] == ss;
    forall s | s in ss && s.bytes != []
      ensures Holds(out, s)
    {
      assert Holds(emitted, s);
      assert out[s.at..s.End()] == emitted[s.at..s.End()];
    }
    forall i | 0 <= i < |out| && !Covered(ss, i)
      ensures out[i] == Backdrop(original, shift, i)
    {
      if i < |emitted| {
        assert out[..|emitted|][i] == emitted[i];
      }
    }
  }
}
