/** Parsing and writing undo each other. */
module RoundTrip {
  import opened Bytes
  import opened Ir
  import opened Codec
  import opened Align
  import opened Serialize
  import opened Layout
  import opened Parser

  // ---- Writing, then parsing ----

  /** The counts fit the file header's own fields, without the section-0 escapes. */
  predicate PlainCounts(f: Image)
  {
    && |f.phdrs| < PN_XNUM && |f.shdrs| < SHN_LORESERVE && f.ehdr.shstrndx < SHN_LORESERVE
    && (f.shdrs != [] || f.ehdr.shoff == 0)
  }

  /** Tables and sections end inside a file of `total` bytes. */
  ghost predicate Bounded(f: Image, total: nat)
    requires WellShaped(f)
  {
    && EhdrSize(f.enc.class_) <= total
    && f.ehdr.phoff + |f.phdrs| * PhdrSize(f.enc.class_) <= total
    && f.ehdr.shoff + |f.shdrs| * ShdrSize(f.enc.class_) <= total
    && forall i :: 0 <= i < |f.shdrs| && f.shdrs[i].shtype != SHT_NOBITS ==>
        f.shdrs[i].offset + f.shdrs[i].size <= total
  }

  /** The dynamic section is the encoded array, padded with whole zero entries. */
  ghost predicate DynamicSynced(f: Image, pad: nat)
    requires WellShaped(f)
  {
    match f.DynIdx()
    case None => f.dynamic == [] && FindPhdr(f.phdrs, PT_DYNAMIC).None?
    case Some(d) =>
      && f.shdrs[d].shtype != SHT_NOBITS
      && var b := Concat(WrittenDyns(f.enc, f.dynamic));
         && b.Ok? && f.data[d] == b.value + Layout.Zeros(pad * DynSize(f.enc.class_))
         && TagsFit(f.enc.class_, f.dynamic)
  }

  /** An image a parser can have produced, but for its dynamic array's tail. */
  ghost predicate Parseable(f: Image, pad: nat)
    requires WellShaped(f)
  {
    && Headers(f).Ok? && SizesMatch(f) && IdentOk(f.ehdr.ident, f.enc) && PlainCounts(f) && DynamicSynced(f, pad)
    && forall i :: 0 <= i < |f.shdrs| && f.shdrs[i].shtype == SHT_NOBITS ==> f.data[i] == []
  }

  function Nulls(n: nat): (r: seq<DynEntry>)
    ensures |r| == n
  {
    seq(n, i => DynEntry(DT_NULL, 0))
  }

  ghost predicate HoldsAll(out: seq<byte>, f: Image)
    requires WellShaped(f) && Headers(f).Ok?
  {
    forall s :: s in Regions(f) ==> Holds(out, s)
  }

  lemma HoldsHeader(out: seq<byte>, f: Image, k: nat)
    requires WellShaped(f) && Headers(f).Ok? && HoldsAll(out, f) && k < 3
    ensures Holds(out, Headers(f).value[k])
  {
    assert Regions(f)[k] == Headers(f).value[k];
  }

  lemma HoldsSection(out: seq<byte>, f: Image, i: nat)
    requires WellShaped(f) && Headers(f).Ok? && HoldsAll(out, f) && i < |f.shdrs|
    ensures Holds(out, SectionSpan(f, i))
  {
    assert Regions(f)[3 + i] == SectionSpans(f)[i];
  }

  /** The file header comes back with the plain counts. */
  lemma EhdrBack(out: seq<byte>, f: Image, pad: nat)
    requires WellShaped(f) && Parseable(f, pad) && HoldsAll(out, f)
    ensures ReadEhdr(out) == Ok(RawEhdr(f.ehdr, f.enc, |f.phdrs|, |f.shdrs|))
  {
    HoldsHeader(out, f, 0);
    var b := WriteEhdr(f.enc, f.ehdr, |f.phdrs|, |f.shdrs|);
    assert Headers(f).value[0] == Span(0, b.value);
    ReadWriteEhdr(f.enc, f.ehdr, |f.phdrs|, |f.shdrs|, out);
  }

  lemma CountsBack(out: seq<byte>, f: Image)
    requires PlainCounts(f)
    ensures ResolveCounts(out, RawEhdr(f.ehdr, f.enc, |f.phdrs|, |f.shdrs|))
            == Ok(Counts(|f.phdrs|, |f.shdrs|, f.ehdr.shstrndx))
  {
  }

  lemma SliceBack(out: seq<byte>, s: Span, off: nat, len: nat)
    requires Holds(out, s) && s.at == off && |s.bytes| == len && off + len <= |out|
    ensures Slice(out, off, len) == Ok(s.bytes)
  {
    if len == 0 {
      assert out[off..off + len] == s.bytes;
    }
  }

  lemma PhtBack(out: seq<byte>, f: Image)
    requires WellShaped(f) && Headers(f).Ok? && HoldsAll(out, f) && Bounded(f, |out|)
    ensures var n, size := |f.phdrs|, PhdrSize(f.enc.class_);
            Slice(out, f.ehdr.phoff, n * size).Ok?
              && PhdrsIn(f.enc, Slice(out, f.ehdr.phoff, n * size).value, n) == f.phdrs
  {
    HoldsHeader(out, f, 1);
    PhdrsBack(f.enc, f.phdrs);
    SliceBack(out, Headers(f).value[1], f.ehdr.phoff, |f.phdrs| * PhdrSize(f.enc.class_));
  }

  lemma ShtBack(out: seq<byte>, f: Image)
    requires WellShaped(f) && Headers(f).Ok? && HoldsAll(out, f) && Bounded(f, |out|)
    ensures var n, size := |f.shdrs|, ShdrSize(f.enc.class_);
            Slice(out, f.ehdr.shoff, n * size).Ok?
              && ShdrsIn(f.enc, Slice(out, f.ehdr.shoff, n * size).value, n) == f.shdrs
  {
    HoldsHeader(out, f, 2);
    ShdrsBack(f.enc, f.shdrs);
    SliceBack(out, Headers(f).value[2], f.ehdr.shoff, |f.shdrs| * ShdrSize(f.enc.class_));
  }

  lemma SectionBack(out: seq<byte>, f: Image, pad: nat, i: nat)
    requires WellShaped(f) && Parseable(f, pad) && HoldsAll(out, f) && Bounded(f, |out|) && i < |f.shdrs|
    ensures SectionBytes(out, f.shdrs[i]) == Ok(f.data[i])
  {
    HoldsSection(out, f, i);
    if f.shdrs[i].shtype != SHT_NOBITS {
      SliceBack(out, SectionSpan(f, i), f.shdrs[i].offset, f.shdrs[i].size);
    }
  }

  lemma SectionsBack(out: seq<byte>, f: Image, pad: nat)
    requires WellShaped(f) && Parseable(f, pad) && HoldsAll(out, f) && Bounded(f, |out|)
    ensures AllBytes(out, f.shdrs) == Ok(f.data)
  {
    forall i | 0 <= i < |f.shdrs|
      ensures SectionBytes(out, f.shdrs[i]) == Ok(f.data[i])
    {
      SectionBack(out, f, pad, i);
    }
    AllBytesOf(out, f.shdrs, f.data);
  }

  // ---- The dynamic array ----

  lemma {:induction false} LeNatZeros(n: nat)
    ensures LeNat(Layout.Zeros(n)) == 0
  {
    if n > 0 {
      LeNatZeros(n - 1);
      assert Layout.Zeros(n)[1..] == Layout.Zeros(n - 1);
    }
  }

  lemma DecodeZeros(e: Endian, n: nat)
    ensures Decode(e, Layout.Zeros(n)) == 0
  {
    LeNatZeros(n);
    assert Reverse(Layout.Zeros(n)) == Layout.Zeros(n);
  }

  /** A zero entry is a `DT_NULL`. */
  lemma ReadZeroDyn(enc: Enc)
    ensures ReadDyn(enc, Layout.Zeros(DynSize(enc.class_))) == Ok(DynEntry(DT_NULL, 0))
  {
    var w, b, e := Word(enc.class_), Layout.Zeros(DynSize(enc.class_)), enc.endian;
    DynWidthsSum(enc.class_);
    assert |b| == w + w;
    var v := DecodeRec(e, DynWidths(enc.class_), b);
    DecodeZeros(e, w);
    assert b[..w] == Layout.Zeros(w) && b[w..] == Layout.Zeros(w);
    assert b[w..][..w] == b[w..];
    assert DynWidths(enc.class_)[1..] == [w];
    assert v == [Decode(e, b[..w])] + DecodeRec(e, [w], b[w..]);
    assert DecodeRec(e, [w], b[w..])[0] == Decode(e, b[w..][..w]);
  }

  lemma PaddedChunk(b: seq<byte>, size: nat, n: nat, pad: nat, k: nat)
    requires |b| == n * size && k < n + pad
    ensures |b + Layout.Zeros(pad * size)| == (n + pad) * size
    ensures Chunk(b + Layout.Zeros(pad * size), size, n + pad, k)
            == if k < n then Chunk(b, size, n, k) else Layout.Zeros(size)
  {
    assert (n + pad) * size == n * size + pad * size;
    ChunkInside(size, n + pad, k);
    var c := Chunk(b + Layout.Zeros(pad * size), size, n + pad, k);
    if k < n {
      ChunkInside(size, n, k);
    } else {
      assert k * size >= n * size by {
        assert k * size == n * size + (k - n) * size;
      }
      assert c == Layout.Zeros(size);
    }
  }

  /** The padded array reads back as its entries followed by nulls. */
  lemma PaddedBack(enc: Enc, ds: seq<DynEntry>, pad: nat)
    requires Concat(WrittenDyns(enc, ds)).Ok? && TagsFit(enc.class_, ds)
    ensures var b, size := Concat(WrittenDyns(enc, ds)).value + Layout.Zeros(pad * DynSize(enc.class_)),
            DynSize(enc.class_);
            && |b| == (|ds| + pad) * size
            && DynsIn(enc, b, |ds| + pad) == ds + Nulls(pad)
  {
    var size, n, raw := DynSize(enc.class_), |ds|, Concat(WrittenDyns(enc, ds)).value;
    DynsBack(enc, ds);
    ReadZeroDyn(enc);
    var b := raw + Layout.Zeros(pad * size);
    assert (n + pad) * size == n * size + pad * size;
    forall k | 0 <= k < n + pad
      ensures DynsIn(enc, b, n + pad)[k] == (ds + Nulls(pad))[k]
    {
      PaddedChunk(raw, size, n, pad, k);
      if k < n {
        assert DynsIn(enc, raw, n)[k] == ds[k];
      }
    }
  }

  lemma WholeArray(out: seq<byte>, enc: Enc, n: nat, off: nat, filesz: nat)
    requires filesz == n * DynSize(enc.class_) && Slice(out, off, filesz).Ok?
    ensures filesz % DynSize(enc.class_) == 0
    ensures ReadDynArray(enc, out, off, filesz) == Ok(ThroughNull(DynsIn(enc, Slice(out, off, filesz).value, n)))
  {
    WholeRecords(n, DynSize(enc.class_));
  }

  lemma DynamicBack(out: seq<byte>, f: Image, pad: nat)
    requires WellShaped(f) && Parseable(f, pad) && HoldsAll(out, f) && Bounded(f, |out|)
    ensures ReadDynamic(f.enc, out, f.shdrs, f.phdrs)
            == Ok(if f.DynIdx().Some? then ThroughNull(f.dynamic + Nulls(pad)) else [])
  {
    if f.DynIdx().Some? {
      SectionBack(out, f, pad, f.DynIdx().value);
      SectionArrayBack(out, f.enc, f.dynamic, pad, f.shdrs, f.phdrs, f.DynIdx().value, f.data[f.DynIdx().value]);
    }
  }

  lemma SectionArrayBack(out: seq<byte>, enc: Enc, ds: seq<DynEntry>, pad: nat, shdrs: seq<Shdr>, phdrs: seq<Phdr>,
                         d: nat, b: seq<byte>)
    requires FirstDynamic(shdrs) == Some(d) && SectionBytes(out, shdrs[d]) == Ok(b)
    requires Concat(WrittenDyns(enc, ds)).Ok? && TagsFit(enc.class_, ds)
    requires b == Concat(WrittenDyns(enc, ds)).value + Layout.Zeros(pad * DynSize(enc.class_))
    ensures ReadDynamic(enc, out, shdrs, phdrs) == Ok(ThroughNull(ds + Nulls(pad)))
  {
    PaddedBack(enc, ds, pad);
    WholeArray(out, enc, |ds| + pad, shdrs[d].offset, shdrs[d].size);
  }

  lemma WholeRecords(n: nat, size: nat)
    requires size > 0
    ensures n * size % size == 0 && n * size / size == n
  {
    ModOfMultiple(n, size);
    DivModFacts(n * size, size);
    BetweenMultiples(n - n * size / size, size, 0);
  }

  /** Parsing a written image gives back its headers, its section contents and
      its dynamic array up to the terminating null. */
  lemma ParseWritten(out: seq<byte>, f: Image, pad: nat)
    requires WellShaped(f) && Parseable(f, pad) && HoldsAll(out, f) && Bounded(f, |out|)
    ensures Parse(out) == Ok(f.(dynamic := if f.DynIdx().Some? then ThroughNull(f.dynamic + Nulls(pad)) else []))
  {
    EhdrBack(out, f, pad);
    CountsBack(out, f);
    PhtBack(out, f);
    ShtBack(out, f);
    SectionsBack(out, f, pad);
    DynamicBack(out, f, pad);
    assert f.ehdr.(shstrndx := f.ehdr.shstrndx) == f.ehdr;
  }

  /** A `WriteSpec` file parses back to the image that was written. */
  lemma WriteThenParse(f: Image, original: seq<byte>, shift: nat, total: nat, pad: nat)
    requires WellShaped(f) && Parseable(f, pad) && Bounded(f, total)
    requires PairwiseApart(Regions(f)) && Inside(Regions(f), total)
    ensures WriteSpec(f, original, shift, total).Ok?
    ensures Parse(WriteSpec(f, original, shift, total).value)
            == Ok(f.(dynamic := if f.DynIdx().Some? then ThroughNull(f.dynamic + Nulls(pad)) else []))
  {
    WriteRegions(f, original, shift, total);
    ParseWritten(WriteSpec(f, original, shift, total).value, f, pad);
  }

  /** A written image without sections but with a table offset defers its count to
      a section 0 it does not have: when that would lie past the end, the file no
      longer parses. */
  lemma SectionlessUnreadable(out: seq<byte>, f: Image)
    requires WellShaped(f) && Headers(f).Ok? && HoldsAll(out, f) && IdentOk(f.ehdr.ident, f.enc)
    requires |f.phdrs| < PN_XNUM && f.ehdr.shstrndx < SHN_LORESERVE
    requires f.shdrs == [] && f.ehdr.shoff != 0 && f.ehdr.shoff + ShdrSize(f.enc.class_) > |out|
    ensures Parse(out).Err?
  {
    HoldsHeader(out, f, 0);
    var b := WriteEhdr(f.enc, f.ehdr, |f.phdrs|, |f.shdrs|);
    assert Headers(f).value[0] == Span(0, b.value);
    ReadWriteEhdr(f.enc, f.ehdr, |f.phdrs|, |f.shdrs|, out);
  }

  // ---- Parsing, then writing ----

  lemma QuotientBelow(k: nat, n: nat, size: nat, i: nat)
    requires size > 0 && k * size <= i < n * size
    ensures k < n
  {
    assert k >= n ==> (k - n) * size >= 0 && k * size == n * size + (k - n) * size;
  }

  /** Tables of equal records are equal when their records are. */
  lemma SameChunks(b: seq<byte>, c: seq<byte>, size: nat, n: nat)
    requires size > 0 && |b| == |c| == n * size
    requires forall k :: 0 <= k < n ==> Chunk(b, size, n, k) == Chunk(c, size, n, k)
    ensures b == c
  {
    forall i | 0 <= i < |b|
      ensures b[i] == c[i]
    {
      var k := i / size;
      DivModFacts(i, size);
      QuotientBelow(k, n, size, i);
      ChunkInside(size, n, k);
      assert Chunk(b, size, n, k)[i - k * size] == b[i] && Chunk(c, size, n, k)[i - k * size] == c[i];
    }
  }

  lemma PhdrsForth(enc: Enc, b: seq<byte>, n: nat)
    requires |b| == n * PhdrSize(enc.class_)
    ensures Concat(WrittenPhdrs(enc, PhdrsIn(enc, b, n))) == Ok(b)
  {
    var size, rs := PhdrSize(enc.class_), WrittenPhdrs(enc, PhdrsIn(enc, b, n));
    forall k | 0 <= k < n
      ensures rs[k] == Ok(Chunk(b, size, n, k))
    {
      WriteReadPhdr(enc, Chunk(b, size, n, k));
    }
    RecordsForth(rs, b, size, n);
  }

  lemma ShdrsForth(enc: Enc, b: seq<byte>, n: nat)
    requires |b| == n * ShdrSize(enc.class_)
    ensures Concat(WrittenShdrs(enc, ShdrsIn(enc, b, n))) == Ok(b)
  {
    var size, rs := ShdrSize(enc.class_), WrittenShdrs(enc, ShdrsIn(enc, b, n));
    forall k | 0 <= k < n
      ensures rs[k] == Ok(Chunk(b, size, n, k))
    {
      WriteReadShdr(enc, Chunk(b, size, n, k));
    }
    RecordsForth(rs, b, size, n);
  }

  lemma RecordsForth(rs: seq<Result<seq<byte>>>, b: seq<byte>, size: nat, n: nat)
    requires size > 0 && |b| == n * size && |rs| == n && Sized(rs, size)
    requires forall k :: 0 <= k < n ==> rs[k] == Ok(Chunk(b, size, n, k))
    ensures Concat(rs) == Ok(b)
  {
    ConcatOk(rs);
    ConcatLength(rs, size);
    var c := Concat(rs).value;
    forall k | 0 <= k < n
      ensures Chunk(c, size, n, k) == Chunk(b, size, n, k)
    {
      ConcatChunk(rs, size, k);
    }
    SameChunks(c, b, size, n);
  }

  lemma {:induction false} AllBytesAre(data: seq<byte>, shdrs: seq<Shdr>, i: nat)
    requires AllBytes(data, shdrs).Ok? && i < |shdrs|
    ensures SectionBytes(data, shdrs[i]) == Ok(AllBytes(data, shdrs).value[i])
  {
    if i < |shdrs| - 1 {
      AllBytesAre(data, shdrs[..|shdrs| - 1], i);
    }
  }

  /** Where each part of a parsed image came from. */
  lemma ParsedParts(b: seq<byte>, f: Image, raw: RawEhdr) returns (pht: seq<byte>, sht: seq<byte>)
    requires Parse(b) == Ok(f) && ReadEhdr(b) == Ok(raw)
    ensures f.enc == raw.enc && f.ehdr == raw.ehdr.(shstrndx := f.ehdr.shstrndx) && |f.data| == |f.shdrs|
    ensures |pht| == |f.phdrs| * PhdrSize(f.enc.class_) && f.phdrs == PhdrsIn(f.enc, pht, |f.phdrs|)
    ensures |sht| == |f.shdrs| * ShdrSize(f.enc.class_) && f.shdrs == ShdrsIn(f.enc, sht, |f.shdrs|)
    ensures Slice(b, f.ehdr.phoff, |pht|) == Ok(pht) && Slice(b, f.ehdr.shoff, |sht|) == Ok(sht)
    ensures AllBytes(b, f.shdrs) == Ok(f.data)
  {
    var c := ResolveCounts(b, raw).value;
    pht := Slice(b, f.ehdr.phoff, c.phnum * PhdrSize(f.enc.class_)).value;
    sht := Slice(b, f.ehdr.shoff, c.shnum * ShdrSize(f.enc.class_)).value;
  }

  lemma UnchangedSlice(b: seq<byte>, off: nat, bytes: seq<byte>)
    requires Slice(b, off, |bytes|) == Ok(bytes)
    ensures !Changed(Span(off, bytes), b, 0)
  {
  }

  /** A parsed image's sections hold the input's own bytes. */
  lemma ParsedSection(b: seq<byte>, f: Image, i: nat)
    requires WellShaped(f) && AllBytes(b, f.shdrs) == Ok(f.data) && i < |f.shdrs|
    ensures !Changed(SectionSpan(f, i), b, 0)
    ensures f.shdrs[i].shtype != SHT_NOBITS ==> |f.data[i]| == f.shdrs[i].size
  {
    AllBytesAre(b, f.shdrs, i);
    if f.shdrs[i].shtype != SHT_NOBITS {
      UnchangedSlice(b, f.shdrs[i].offset, f.data[i]);
    }
  }

  /** So do its two header tables. */
  lemma ParsedTables(b: seq<byte>, f: Image, pht: seq<byte>, sht: seq<byte>)
    requires |pht| == |f.phdrs| * PhdrSize(f.enc.class_) && f.phdrs == PhdrsIn(f.enc, pht, |f.phdrs|)
    requires |sht| == |f.shdrs| * ShdrSize(f.enc.class_) && f.shdrs == ShdrsIn(f.enc, sht, |f.shdrs|)
    requires Slice(b, f.ehdr.phoff, |pht|) == Ok(pht) && Slice(b, f.ehdr.shoff, |sht|) == Ok(sht)
    ensures Concat(WrittenPhdrs(f.enc, f.phdrs)) == Ok(pht) && !Changed(Span(f.ehdr.phoff, pht), b, 0)
    ensures Concat(WrittenShdrs(f.enc, f.shdrs)) == Ok(sht) && !Changed(Span(f.ehdr.shoff, sht), b, 0)
  {
    PhdrsForth(f.enc, pht, |f.phdrs|);
    ShdrsForth(f.enc, sht, |f.shdrs|);
    UnchangedSlice(b, f.ehdr.phoff, pht);
    UnchangedSlice(b, f.ehdr.shoff, sht);
  }

  lemma {:induction false} DeltaNone(spans: seq<Span>, original: seq<byte>, shift: nat)
    requires forall k :: 0 <= k < |spans| ==> !Changed(spans[k], original, shift)
    ensures Delta(spans, original, shift) == []
  {
    if spans != [] {
      DeltaNone(spans[..|spans| - 1], original, shift);
    }
  }

  lemma {:induction false} DeltaHead(s: Span, spans: seq<Span>, original: seq<byte>, shift: nat)
    requires forall k :: 0 <= k < |spans| ==> !Changed(spans[k], original, shift)
    ensures Delta([s] + spans, original, shift) == if Changed(s, original, shift) then [s] else []
    decreases |spans|
  {
    var all := [s] + spans;
    if spans == [] {
      assert all[..0] == [] && Delta([], original, shift) == [];
      assert all == [s];
    } else {
      assert all[..|all| - 1] == [s] + spans[..|spans| - 1];
      DeltaHead(s, spans[..|spans| - 1], original, shift);
    }
  }

  lemma ParsedEhdr(b: seq<byte>, f: Image, raw: RawEhdr)
    requires ReadEhdr(b) == Ok(raw) && f.enc == raw.enc && f.ehdr == raw.ehdr.(shstrndx := f.ehdr.shstrndx)
    ensures |f.ehdr.ident| == 16 && WriteEhdr(f.enc, f.ehdr, |f.phdrs|, |f.shdrs|).Ok?
    ensures var h := WriteEhdr(f.enc, f.ehdr, |f.phdrs|, |f.shdrs|).value;
            && |h| == EhdrSize(f.enc.class_) <= |b|
            && (h == b[..|h|]
                <==> EhdrCounts(f.ehdr.shstrndx, |f.phdrs|, |f.shdrs|) == (raw.phnum, raw.shnum, raw.ehdr.shstrndx))
  {
    WriteReadEhdr(b, f.ehdr.shstrndx, |f.phdrs|, |f.shdrs|);
  }

  lemma NoneInBoth(p: Span, s: Span, spans: seq<Span>, b: seq<byte>)
    requires !Changed(p, b, 0) && !Changed(s, b, 0) && forall i :: 0 <= i < |spans| ==> !Changed(spans[i], b, 0)
    ensures forall k :: 0 <= k < |[p, s] + spans| ==> !Changed(([p, s] + spans)[k], b, 0)
  {
    forall k | 0 <= k < |[p, s] + spans|
      ensures !Changed(([p, s] + spans)[k], b, 0)
    {
      if k >= 2 {
        assert ([p, s] + spans)[k] == spans[k - 2];
      }
    }
  }

  lemma HeadOf<T>(a: T, b: T, c: T, rest: seq<T>)
    ensures [a, b, c] + rest == [a] + ([b, c] + rest)
  {
  }

  lemma RegionsOf(f: Image, h: seq<byte>, pht: seq<byte>, sht: seq<byte>)
    requires WellShaped(f) && WriteEhdr(f.enc, f.ehdr, |f.phdrs|, |f.shdrs|) == Ok(h)
    requires Concat(WrittenPhdrs(f.enc, f.phdrs)) == Ok(pht) && Concat(WrittenShdrs(f.enc, f.shdrs)) == Ok(sht)
    ensures Headers(f).Ok?
    ensures Regions(f) == [Span(0, h)] + ([Span(f.ehdr.phoff, pht), Span(f.ehdr.shoff, sht)] + SectionSpans(f))
  {
    HeadOf(Span(0, h), Span(f.ehdr.phoff, pht), Span(f.ehdr.shoff, sht), SectionSpans(f));
  }

  /** The writer over the unmodified input changes at most the file header. */
  lemma DeltaOfParsed(b: seq<byte>, f: Image, h: seq<byte>, pht: seq<byte>, sht: seq<byte>)
    requires WellShaped(f) && WriteEhdr(f.enc, f.ehdr, |f.phdrs|, |f.shdrs|) == Ok(h)
    requires Concat(WrittenPhdrs(f.enc, f.phdrs)) == Ok(pht) && !Changed(Span(f.ehdr.phoff, pht), b, 0)
    requires Concat(WrittenShdrs(f.enc, f.shdrs)) == Ok(sht) && !Changed(Span(f.ehdr.shoff, sht), b, 0)
    requires forall i :: 0 <= i < |f.shdrs| ==> !Changed(SectionSpan(f, i), b, 0)
    ensures Headers(f).Ok?
    ensures Delta(Regions(f), b, 0) == if Changed(Span(0, h), b, 0) then [Span(0, h)] else []
  {
    RegionsOf(f, h, pht, sht);
    UnchangedSpans(f, b);
    DeltaWhole(Span(0, h), Span(f.ehdr.phoff, pht), Span(f.ehdr.shoff, sht), SectionSpans(f), b, Regions(f));
  }

  lemma UnchangedSpans(f: Image, b: seq<byte>)
    requires WellShaped(f) && forall i :: 0 <= i < |f.shdrs| ==> !Changed(SectionSpan(f, i), b, 0)
    ensures forall i :: 0 <= i < |SectionSpans(f)| ==> !Changed(SectionSpans(f)[i], b, 0)
  {
  }

  lemma DeltaWhole(h: Span, p: Span, s: Span, spans: seq<Span>, b: seq<byte>, all: seq<Span>)
    requires all == [h] + ([p, s] + spans) && !Changed(p, b, 0) && !Changed(s, b, 0)
    requires forall i :: 0 <= i < |spans| ==> !Changed(spans[i], b, 0)
    ensures Delta(all, b, 0) == if Changed(h, b, 0) then [h] else []
  {
    NoneInBoth(p, s, spans, b);
    DeltaHead(h, [p, s] + spans, b, 0);
  }

  /** Overwriting the start of a file with the bytes it has gives it back. */
  lemma RenderHead(b: seq<byte>, h: seq<byte>, delta: seq<Span>)
    requires 0 < |h| <= |b| && delta == if Changed(Span(0, h), b, 0) then [Span(0, h)] else []
    ensures PairwiseApart(delta) && Inside(delta, |b|)
    ensures Render(delta, b, 0, |b|) == b <==> h == b[..|h|]
  {
    var out, s := Render(delta, b, 0, |b|), Span(0, h);
    RenderIsRendered(delta, b, 0, |b|);
    if delta == [] {
      forall i | 0 <= i < |b| ensures out[i] == b[i] {
        assert !Covered(delta, i);
      }
      assert b[0..|h|] == h;
    } else {
      assert s in delta && Holds(out, s);
      assert out[0..|h|] == out[..|h|];
      assert b[0..|h|] == b[..|h|];
    }
  }

  /** Writing an unmodified parsed file gives the file back byte for byte exactly
      when its count fields are the ones the writer would choose. */
  lemma ParseThenWrite(b: seq<byte>, f: Image, raw: RawEhdr)
    requires Parse(b) == Ok(f) && ReadEhdr(b) == Ok(raw)
    ensures WellShaped(f)
    ensures WriteSpec(f, b, 0, |b|) == Ok(b)
            <==> EhdrCounts(f.ehdr.shstrndx, |f.phdrs|, |f.shdrs|) == (raw.phnum, raw.shnum, raw.ehdr.shstrndx)
  {
    var pht, sht := ParsedParts(b, f, raw);
    WriteOfParsed(b, f, raw, pht, sht);
  }

  lemma WriteOfParsed(b: seq<byte>, f: Image, raw: RawEhdr, pht: seq<byte>, sht: seq<byte>)
    requires ReadEhdr(b) == Ok(raw) && f.enc == raw.enc && f.ehdr == raw.ehdr.(shstrndx := f.ehdr.shstrndx)
    requires |f.data| == |f.shdrs| && AllBytes(b, f.shdrs) == Ok(f.data)
    requires |pht| == |f.phdrs| * PhdrSize(f.enc.class_) && f.phdrs == PhdrsIn(f.enc, pht, |f.phdrs|)
    requires |sht| == |f.shdrs| * ShdrSize(f.enc.class_) && f.shdrs == ShdrsIn(f.enc, sht, |f.shdrs|)
    requires Slice(b, f.ehdr.phoff, |pht|) == Ok(pht) && Slice(b, f.ehdr.shoff, |sht|) == Ok(sht)
    ensures WellShaped(f)
    ensures WriteSpec(f, b, 0, |b|) == Ok(b)
            <==> EhdrCounts(f.ehdr.shstrndx, |f.phdrs|, |f.shdrs|) == (raw.phnum, raw.shnum, raw.ehdr.shstrndx)
  {
    ParsedEhdr(b, f, raw);
    ParsedTables(b, f, pht, sht);
    forall i | 0 <= i < |f.shdrs|
      ensures !Changed(SectionSpan(f, i), b, 0)
      ensures f.shdrs[i].shtype != SHT_NOBITS ==> |f.data[i]| == f.shdrs[i].size
    {
      ParsedSection(b, f, i);
    }
    WriteUnchanged(b, f, WriteEhdr(f.enc, f.ehdr, |f.phdrs|, |f.shdrs|).value, pht, sht);
  }

  /** With every table and section as in the input, what is written depends on the
      file header alone. */
  lemma WriteUnchanged(b: seq<byte>, f: Image, h: seq<byte>, pht: seq<byte>, sht: seq<byte>)
    requires WellShaped(f) && SizesMatch(f) && WriteEhdr(f.enc, f.ehdr, |f.phdrs|, |f.shdrs|) == Ok(h) && 0 < |h| <= |b|
    requires Concat(WrittenPhdrs(f.enc, f.phdrs)) == Ok(pht) && !Changed(Span(f.ehdr.phoff, pht), b, 0)
    requires Concat(WrittenShdrs(f.enc, f.shdrs)) == Ok(sht) && !Changed(Span(f.ehdr.shoff, sht), b, 0)
    requires forall i :: 0 <= i < |f.shdrs| ==> !Changed(SectionSpan(f, i), b, 0)
    ensures WriteSpec(f, b, 0, |b|) == Ok(b) <==> h == b[..|h|]
  {
    DeltaOfParsed(b, f, h, pht, sht);
    RenderHead(b, h, Delta(Regions(f), b, 0));
  }
}
