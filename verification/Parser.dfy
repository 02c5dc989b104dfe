/** Bytes to an image (src/parser.rs), and how parsing and writing undo each other. */
module Parser {
  import opened Bytes
  import opened Ir
  import opened Codec
  import opened Align
  import opened Serialize

  /** `len` bytes at `off`, if the file has them. */
  function Slice(data: seq<byte>, off: nat, len: nat): (r: Result<seq<byte>>)
    ensures r.Ok? <==> off + len <= |data|
    ensures r.Ok? ==> |r.value| == len
  {
    if off + len <= |data| then Ok(data[off..off + len]) else Err(ParseError)
  }

  /** Record `k` of a table of `size`-byte records. */
  function Chunk(b: seq<byte>, size: nat, n: nat, k: nat): (c: seq<byte>)
    requires |b| == n * size && k < n
    ensures |c| == size
  {
    ChunkInside(size, n, k);
    b[k * size..k * size + size]
  }

  lemma ChunkInside(size: nat, n: nat, k: nat)
    requires k < n
    ensures 0 <= k * size && k * size + size <= n * size
  {
    SlotInside(k, n, size);
  }

  // ---- The counts ----

  datatype Counts = Counts(phnum: nat, shnum: nat, shstrndx: u32)

  /** The real counts: an escape in the file header defers to section 0. */
  function ResolveCounts(data: seq<byte>, raw: RawEhdr): Result<Counts>
  {
    var h := raw.ehdr;
    var needed := raw.phnum == PN_XNUM || raw.shnum == 0 || h.shstrndx == SHN_XINDEX;
    if h.shoff == 0 || !needed then Ok(Counts(raw.phnum, raw.shnum, h.shstrndx))
    else
      match Slice(data, h.shoff, ShdrSize(raw.enc.class_))
      case Err(e) => Err(e)
      case Ok(b) =>
        var s := ReadShdr(raw.enc, b).value;
        Ok(Counts(if raw.phnum == PN_XNUM then s.info else raw.phnum,
                  if raw.shnum == 0 then s.size else raw.shnum,
                  if h.shstrndx == SHN_XINDEX then s.link else h.shstrndx))
  }

  // ---- The tables ----

  function PhdrsIn(enc: Enc, b: seq<byte>, n: nat): (r: seq<Phdr>)
    requires |b| == n * PhdrSize(enc.class_)
    ensures |r| == n
  {
    seq(n, k requires 0 <= k < n => ReadPhdr(enc, Chunk(b, PhdrSize(enc.class_), n, k)).value)
  }

  function ShdrsIn(enc: Enc, b: seq<byte>, n: nat): (r: seq<Shdr>)
    requires |b| == n * ShdrSize(enc.class_)
    ensures |r| == n
  {
    seq(n, k requires 0 <= k < n => ReadShdr(enc, Chunk(b, ShdrSize(enc.class_), n, k)).value)
  }

  function DynsIn(enc: Enc, b: seq<byte>, n: nat): (r: seq<DynEntry>)
    requires |b| == n * DynSize(enc.class_)
    ensures |r| == n
  {
    seq(n, k requires 0 <= k < n => ReadDyn(enc, Chunk(b, DynSize(enc.class_), n, k)).value)
  }

  function SectionBytes(data: seq<byte>, s: Shdr): Result<seq<byte>>
  {
    if s.shtype == SHT_NOBITS then Ok([]) else Slice(data, s.offset, s.size)
  }

  /** Every section's bytes; the first that is out of bounds fails. */
  function AllBytes(data: seq<byte>, shdrs: seq<Shdr>): (r: Result<seq<seq<byte>>>)
    ensures r.Ok? ==> |r.value| == |shdrs|
  {
    if shdrs == [] then Ok([])
    else
      match AllBytes(data, shdrs[..|shdrs| - 1])
      case Err(e) => Err(e)
      case Ok(ds) =>
        match SectionBytes(data, shdrs[|shdrs| - 1])
        case Err(e) => Err(e)
        case Ok(d) => Ok(ds + [d])
  }

  // ---- The dynamic array ----

  /** Entries up to and including the first `DT_NULL`. */
  function ThroughNull(ds: seq<DynEntry>): (r: seq<DynEntry>)
    ensures |r| <= |ds| && r == ds[..|r|]
  {
    if ds == [] then []
    else if ds[0].tag == DT_NULL then [ds[0]]
    else [ds[0]] + ThroughNull(ds[1..])
  }

  function ReadDynArray(enc: Enc, data: seq<byte>, off: nat, filesz: nat): Result<seq<DynEntry>>
  {
    var size := DynSize(enc.class_);
    assert filesz - filesz % size == filesz / size * size;
    match Slice(data, off, filesz - filesz % size)
    case Err(e) => Err(e)
    case Ok(b) => Ok(ThroughNull(DynsIn(enc, b, filesz / size)))
  }

  /** From the dynamic section, or from the dynamic segment of a file without one. */
  function ReadDynamic(enc: Enc, data: seq<byte>, shdrs: seq<Shdr>, phdrs: seq<Phdr>): Result<seq<DynEntry>>
  {
    match FirstDynamic(shdrs)
    case Some(d) =>
      if shdrs[d].size % DynSize(enc.class_) != 0 then Err(ParseError)
      else ReadDynArray(enc, data, shdrs[d].offset, shdrs[d].size)
    case None =>
      match FindPhdr(phdrs, PT_DYNAMIC)
      case None => Ok([])
      case Some(p) => ReadDynArray(enc, data, phdrs[p].offset, phdrs[p].filesz)
  }

  // ---- The image ----

  function ParseWith(data: seq<byte>, raw: RawEhdr, c: Counts): Result<Image>
  {
    var enc, h := raw.enc, raw.ehdr.(shstrndx := c.shstrndx);
    var pht, sht := Slice(data, h.phoff, c.phnum * PhdrSize(enc.class_)),
      Slice(data, h.shoff, c.shnum * ShdrSize(enc.class_));
    if pht.Err? || sht.Err? then Err(ParseError)
    else
      var phdrs, shdrs := PhdrsIn(enc, pht.value, c.phnum), ShdrsIn(enc, sht.value, c.shnum);
      var ds, dynamic := AllBytes(data, shdrs), ReadDynamic(enc, data, shdrs, phdrs);
      if ds.Err? || dynamic.Err? then Err(ParseError)
      else Ok(Image(enc, h, phdrs, shdrs, ds.value, dynamic.value))
  }

  function Parse(data: seq<byte>): Result<Image>
  {
    match ReadEhdr(data)
    case Err(e) => Err(e)
    case Ok(raw) =>
      match ResolveCounts(data, raw)
      case Err(e) => Err(e)
      case Ok(c) => ParseWith(data, raw, c)
  }

  // ---- Parsing, step by step ----

  method ReadPhdrs(enc: Enc, b: seq<byte>, n: nat) returns (phdrs: seq<Phdr>)
    requires |b| == n * PhdrSize(enc.class_)
    ensures phdrs == PhdrsIn(enc, b, n)
  {
    phdrs := [];
    for k := 0 to n
      invariant phdrs == PhdrsIn(enc, b, n)[..k]
    {
      phdrs := phdrs + [ReadPhdr(enc, Chunk(b, PhdrSize(enc.class_), n, k)).value];
    }
  }

  method ReadShdrs(enc: Enc, b: seq<byte>, n: nat) returns (shdrs: seq<Shdr>)
    requires |b| == n * ShdrSize(enc.class_)
    ensures shdrs == ShdrsIn(enc, b, n)
  {
    shdrs := [];
    for k := 0 to n
      invariant shdrs == ShdrsIn(enc, b, n)[..k]
    {
      shdrs := shdrs + [ReadShdr(enc, Chunk(b, ShdrSize(enc.class_), n, k)).value];
    }
  }

  method ReadSections(data: seq<byte>, shdrs: seq<Shdr>) returns (r: Result<seq<seq<byte>>>)
    ensures r.Ok? == AllBytes(data, shdrs).Ok? && (r.Ok? ==> r == AllBytes(data, shdrs))
  {
    var ds: seq<seq<byte>> := [];
    for i := 0 to |shdrs|
      invariant AllBytes(data, shdrs[..i]) == Ok(ds)
    {
      assert shdrs[..i + 1][..i] == shdrs[..i];
      var d := SectionBytes(data, shdrs[i]);
      if d.Err? {
        StaysOut(data, shdrs, i + 1);
        return Err(ParseError);
      }
      ds := ds + [d.value];
    }
    assert shdrs[..|shdrs|] == shdrs;
    r := Ok(ds);
  }

  lemma {:induction false} StaysOut(data: seq<byte>, shdrs: seq<Shdr>, i: nat)
    requires i <= |shdrs| && AllBytes(data, shdrs[..i]).Err?
    ensures AllBytes(data, shdrs).Err?
    decreases |shdrs|
  {
    if i < |shdrs| {
      assert shdrs[..|shdrs| - 1][..i] == shdrs[..i];
      StaysOut(data, shdrs[..|shdrs| - 1], i);
    } else {
      assert shdrs[..i] == shdrs;
    }
  }

  /** The loop that stops at `DT_NULL`. */
  method ReadEntries(enc: Enc, b: seq<byte>, n: nat) returns (out: seq<DynEntry>)
    requires |b| == n * DynSize(enc.class_)
    ensures out == ThroughNull(DynsIn(enc, b, n))
  {
    out := [];
    ghost var all := DynsIn(enc, b, n);
    for k := 0 to n
      invariant out == all[..k] && ThroughNull(all) == out + ThroughNull(all[k..])
    {
      var entry := ReadDyn(enc, Chunk(b, DynSize(enc.class_), n, k)).value;
      out := out + [entry];
      assert all[k..][0] == entry && all[k..][1..] == all[k + 1..];
      if entry.tag == DT_NULL {
        return;
      }
    }
  }

  method ParseImage(data: seq<byte>) returns (r: Result<Image>)
    ensures r.Ok? == Parse(data).Ok? && (r.Ok? ==> r == Parse(data))
  {
    var raw := ReadEhdr(data);
    if raw.Err? {
      return Err(raw.error);
    }
    var counts := ResolveCounts(data, raw.value);
    if counts.Err? {
      return Err(counts.error);
    }
    var enc, c, h := raw.value.enc, counts.value, raw.value.ehdr;
    var pht := Slice(data, h.phoff, c.phnum * PhdrSize(enc.class_));
    if pht.Err? {
      return Err(ParseError);
    }
    var phdrs := ReadPhdrs(enc, pht.value, c.phnum);
    var sht := Slice(data, h.shoff, c.shnum * ShdrSize(enc.class_));
    if sht.Err? {
      return Err(ParseError);
    }
    var shdrs := ReadShdrs(enc, sht.value, c.shnum);
    var sections := ReadSections(data, shdrs);
    if sections.Err? {
      return Err(ParseError);
    }
    var dynamic := ReadDynamic(enc, data, shdrs, phdrs);
    if dynamic.Err? {
      return Err(ParseError);
    }
    r := Ok(Image(enc, h.(shstrndx := c.shstrndx), phdrs, shdrs, sections.value, dynamic.value));
  }

  // ---- Bytes past everything the headers describe ----

  function LastPhdrByte(phdrs: seq<Phdr>, from: nat): (e: nat)
    ensures e >= from && forall p :: p in phdrs ==> p.offset + p.filesz <= e
  {
    if phdrs == [] then from
    else
      var p := phdrs[|phdrs| - 1];
      var e := LastPhdrByte(phdrs[..|phdrs| - 1], from);
      assert phdrs == phdrs[..|phdrs| - 1] + [p];
      if p.offset + p.filesz > e then p.offset + p.filesz else e
  }

  function LastShdrByte(shdrs: seq<Shdr>, from: nat): (e: nat)
    ensures e >= from && forall s :: s in shdrs && s.shtype != SHT_NOBITS ==> s.offset + s.size <= e
  {
    if shdrs == [] then from
    else
      var s := shdrs[|shdrs| - 1];
      var e := LastShdrByte(shdrs[..|shdrs| - 1], from);
      assert shdrs == shdrs[..|shdrs| - 1] + [s];
      if s.shtype != SHT_NOBITS && s.offset + s.size > e then s.offset + s.size else e
  }

  /** The end of everything an image's headers describe. */
  function DescribedEnd(f: Image): (e: nat)
    ensures f.ehdr.phoff + |f.phdrs| * f.ehdr.phentsize <= e && f.ehdr.shoff + |f.shdrs| * f.ehdr.shentsize <= e
    ensures forall p :: p in f.phdrs ==> p.offset + p.filesz <= e
    ensures forall s :: s in f.shdrs && s.shtype != SHT_NOBITS ==> s.offset + s.size <= e
  {
    var pht, sht := f.ehdr.phoff + |f.phdrs| * f.ehdr.phentsize, f.ehdr.shoff + |f.shdrs| * f.ehdr.shentsize;
    LastPhdrByte(f.phdrs, LastShdrByte(f.shdrs, if pht < sht then sht else pht))
  }

  lemma {:induction false} LastShdrLeast(shdrs: seq<Shdr>, from: nat, e: nat)
    requires from <= e && forall s :: s in shdrs && s.shtype != 8 ==> s.offset + s.size <= e
    ensures LastShdrByte(shdrs, from) <= e
  {
    if shdrs != [] {
      LastShdrLeast(shdrs[..|shdrs| - 1], from, e);
    }
  }

  lemma {:induction false} LastPhdrLeast(phdrs: seq<Phdr>, from: nat, e: nat)
    requires from <= e && forall p :: p in phdrs ==> p.offset + p.filesz <= e
    ensures LastPhdrByte(phdrs, from) <= e
  {
    if phdrs != [] {
      LastPhdrLeast(phdrs[..|phdrs| - 1], from, e);
    }
  }

  /** Both tables, every segment and every section but `SHT_NOBITS` end at or before `e`. */
  ghost predicate EndsBy(f: Image, e: nat)
  {
    && f.ehdr.phoff + |f.phdrs| * f.ehdr.phentsize <= e && f.ehdr.shoff + |f.shdrs| * f.ehdr.shentsize <= e
    && (forall p :: p in f.phdrs ==> p.offset + p.filesz <= e)
    && forall s :: s in f.shdrs && s.shtype != 8 ==> s.offset + s.size <= e
  }

  /** The described end is the least such. */
  lemma DescribedEndLeast(f: Image, e: nat)
    ensures EndsBy(f, e) <==> DescribedEnd(f) <= e
  {
    if EndsBy(f, e) {
      var pht, sht := f.ehdr.phoff + |f.phdrs| * f.ehdr.phentsize, f.ehdr.shoff + |f.shdrs| * f.ehdr.shentsize;
      LastShdrLeast(f.shdrs, if pht < sht then sht else pht, e);
      LastPhdrLeast(f.phdrs, LastShdrByte(f.shdrs, if pht < sht then sht else pht), e);
    }
  }

  /** A file has an overlay exactly when a non-zero byte follows all it describes. */
  lemma OverlayIff(original: seq<byte>, f: Image)
    requires Parse(original) == Ok(f)
    ensures HasOverlay(original)
            == Ok(exists i: nat :: i < |original| && original[i] != 0 && EndsBy(f, i))
  {
    forall i: nat ensures EndsBy(f, i) <==> DescribedEnd(f) <= i {
      DescribedEndLeast(f, i);
    }
  }

  predicate NonZeroFrom(b: seq<byte>, end: nat)
  {
    exists i :: 0 <= i < |b| && end <= i && b[i] != 0
  }

  /** Whether a file ends in non-zero bytes past everything it describes. */
  function HasOverlay(original: seq<byte>): Result<bool>
  {
    match Parse(original)
    case Err(e) => Err(e)
    case Ok(f) => Ok(NonZeroFrom(original, DescribedEnd(f)))
  }

  // ---- Reading back what was written ----

  lemma PhdrsBack(enc: Enc, phdrs: seq<Phdr>)
    requires Concat(WrittenPhdrs(enc, phdrs)).Ok?
    ensures |Concat(WrittenPhdrs(enc, phdrs)).value| == |phdrs| * PhdrSize(enc.class_)
    ensures PhdrsIn(enc, Concat(WrittenPhdrs(enc, phdrs)).value, |phdrs|) == phdrs
  {
    var rs, size, n := WrittenPhdrs(enc, phdrs), PhdrSize(enc.class_), |phdrs|;
    ConcatLength(rs, size);
    var b := Concat(rs).value;
    forall k | 0 <= k < n
      ensures PhdrsIn(enc, b, n)[k] == phdrs[k]
    {
      ConcatChunk(rs, size, k);
      assert WritePhdr(enc, phdrs[k]) == Ok(Chunk(b, size, n, k));
      ReadWritePhdr(enc, phdrs[k]);
    }
  }

  lemma ShdrsBack(enc: Enc, shdrs: seq<Shdr>)
    requires Concat(WrittenShdrs(enc, shdrs)).Ok?
    ensures |Concat(WrittenShdrs(enc, shdrs)).value| == |shdrs| * ShdrSize(enc.class_)
    ensures ShdrsIn(enc, Concat(WrittenShdrs(enc, shdrs)).value, |shdrs|) == shdrs
  {
    var rs, size, n := WrittenShdrs(enc, shdrs), ShdrSize(enc.class_), |shdrs|;
    ConcatLength(rs, size);
    var b := Concat(rs).value;
    forall k | 0 <= k < n
      ensures ShdrsIn(enc, b, n)[k] == shdrs[k]
    {
      ConcatChunk(rs, size, k);
      assert WriteShdr(enc, shdrs[k]) == Ok(Chunk(b, size, n, k));
      ReadWriteShdr(enc, shdrs[k]);
    }
  }

  ghost predicate TagsFit(c: Class, ds: seq<DynEntry>)
  {
    forall j :: 0 <= j < |ds| ==> TagFits(c, ds[j].tag)
  }

  /** The entries read back exactly when every tag fits the class's signed word. */
  lemma DynsBack(enc: Enc, ds: seq<DynEntry>)
    requires Concat(WrittenDyns(enc, ds)).Ok?
    ensures |Concat(WrittenDyns(enc, ds)).value| == |ds| * DynSize(enc.class_)
    ensures DynsIn(enc, Concat(WrittenDyns(enc, ds)).value, |ds|) == ds <==> TagsFit(enc.class_, ds)
  {
    var rs, size, n := WrittenDyns(enc, ds), DynSize(enc.class_), |ds|;
    ConcatLength(rs, size);
    var b := Concat(rs).value;
    forall k | 0 <= k < n
      ensures DynsIn(enc, b, n)[k] == ds[k] <==> TagFits(enc.class_, ds[k].tag)
    {
      ConcatChunk(rs, size, k);
      assert WriteDyn(enc, ds[k]) == Ok(Chunk(b, size, n, k));
      ReadWriteDyn(enc, ds[k]);
    }
  }

  lemma {:induction false} AllBytesOf(data: seq<byte>, shdrs: seq<Shdr>, ds: seq<seq<byte>>)
    requires |ds| == |shdrs| && forall i :: 0 <= i < |shdrs| ==> SectionBytes(data, shdrs[i]) == Ok(ds[i])
    ensures AllBytes(data, shdrs) == Ok(ds)
  {
    if shdrs != [] {
      var n := |shdrs| - 1;
      AllBytesOf(data, shdrs[..n], ds[..n]);
      assert ds == ds[..n] + [ds[n]];
    }
  }
}
