/** Headers to bytes and back (src/codec.rs). Every ELF record is a list of
    fixed-width integers, so one record codec, proved once, carries the four
    header kinds in both classes and byte orders. */
module Codec {
  import opened Bytes
  import opened Ir

  // ---- Records of fixed-width integers ----

  function Sum(widths: seq<nat>): nat
  {
    if widths == [] then 0 else widths[0] + Sum(widths[1..])
  }

  predicate Fits(widths: seq<nat>, vals: seq<nat>)
  {
    |vals| == |widths| && forall k :: 0 <= k < |vals| ==> vals[k] < Pow256(widths[k])
  }

  function EncodeRec(e: Endian, widths: seq<nat>, vals: seq<nat>): (b: seq<byte>)
    requires |vals| == |widths|
    ensures |b| == Sum(widths)
  {
    if widths == [] then [] else Encode(e, vals[0], widths[0]) + EncodeRec(e, widths[1..], vals[1..])
  }

  function DecodeRec(e: Endian, widths: seq<nat>, b: seq<byte>): (vals: seq<nat>)
    requires |b| >= Sum(widths)
    ensures Fits(widths, vals)
  {
    if widths == [] then []
    else
      var w := widths[0];
      DecodeBound(e, b[..w]);
      [Decode(e, b[..w])] + DecodeRec(e, widths[1..], b[w..])
  }

  /** Reading a written record gives its fields back. */
  lemma {:induction false} DecodeEncodeRec(e: Endian, widths: seq<nat>, vals: seq<nat>)
    requires Fits(widths, vals)
    ensures DecodeRec(e, widths, EncodeRec(e, widths, vals)) == vals
  {
    if widths != [] {
      var b := EncodeRec(e, widths, vals);
      var w := widths[0];
      DecodeEncode(e, vals[0], w);
      DecodeEncodeRec(e, widths[1..], vals[1..]);
      assert b[..w] == Encode(e, vals[0], w) && b[w..] == EncodeRec(e, widths[1..], vals[1..]);
      assert vals == [vals[0]] + vals[1..];
    }
  }

  /** Writing a read record gives its bytes back. */
  lemma {:induction false} EncodeDecodeRec(e: Endian, widths: seq<nat>, b: seq<byte>)
    requires |b| == Sum(widths)
    ensures EncodeRec(e, widths, DecodeRec(e, widths, b)) == b
  {
    if widths != [] {
      var w := widths[0];
      var vals := DecodeRec(e, widths, b);
      EncodeDecode(e, b[..w]);
      EncodeDecodeRec(e, widths[1..], b[w..]);
      assert vals[1..] == DecodeRec(e, widths[1..], b[w..]);
      assert b == b[..w] + b[w..];
    }
  }

  /** Only the record's own bytes matter. */
  lemma {:induction false} DecodeRecPrefix(e: Endian, widths: seq<nat>, b: seq<byte>)
    requires |b| >= Sum(widths)
    ensures DecodeRec(e, widths, b) == DecodeRec(e, widths, b[..Sum(widths)])
  {
    if widths != [] {
      var w, n := widths[0], Sum(widths);
      DecodeRecPrefix(e, widths[1..], b[w..]);
      DecodeRecPrefix(e, widths[1..], b[..n][w..]);
      assert b[w..][..Sum(widths[1..])] == b[..n][w..][..Sum(widths[1..])];
      assert b[..n][..w] == b[..w];
    }
  }

  /** Bytes hold a record exactly when reading them gives its fields. */
  lemma RecordInBytes(e: Endian, widths: seq<nat>, b: seq<byte>, lo: nat, hi: nat, vals: seq<nat>)
    requires lo <= hi <= |b| && hi - lo == Sum(widths) && Fits(widths, vals)
    ensures b[lo..hi] == EncodeRec(e, widths, vals) <==> DecodeRec(e, widths, b[lo..]) == vals
  {
    DecodeRecPrefix(e, widths, b[lo..]);
    assert b[lo..][..hi - lo] == b[lo..hi];
    EncodeDecodeRec(e, widths, b[lo..hi]);
    DecodeEncodeRec(e, widths, vals);
  }

  /** What a writer returns: the bytes, or an error when some value does not fit its field. */
  function Written(e: Endian, widths: seq<nat>, vals: seq<nat>): (r: Result<seq<byte>>)
    requires |vals| == |widths|
    ensures r.Ok? ==> |r.value| == Sum(widths)
  {
    if Fits(widths, vals) then Ok(EncodeRec(e, widths, vals)) else Err(SerializeError)
  }

  // ---- Sizes ----

  function Word(c: Class): nat
  {
    if c.Elf64? then 8 else 4
  }

  /** One more than the largest address or size the class can express. */
  function Limit(c: Class): nat
    ensures Limit(c) >= 2
  {
    Pow256Widths();
    Pow256(Word(c))
  }

  function PhdrSize(c: Class): (n: nat)
    ensures n > 0
  {
    if c.Elf64? then 56 else 32
  }

  function ShdrSize(c: Class): (n: nat)
    ensures n > 0
  {
    if c.Elf64? then 64 else 40
  }

  function DynSize(c: Class): (n: nat)
    ensures n > 0
  {
    if c.Elf64? then 16 else 8
  }

  function EhdrSize(c: Class): (n: nat)
    ensures n > 0
  {
    if c.Elf64? then 64 else 52
  }

  // ---- Program headers ----

  function PhdrWidths(c: Class): (w: seq<nat>)
    ensures |w| == 8
  {
    if c.Elf64? then [4, 4, 8, 8, 8, 8, 8, 8] else [4, 4, 4, 4, 4, 4, 4, 4]
  }

  function PhdrVals(c: Class, p: Phdr): (v: seq<nat>)
    ensures |v| == 8
  {
    if c.Elf64? then [p.ptype, p.flags, p.offset, p.vaddr, p.paddr, p.filesz, p.memsz, p.align]
    else [p.ptype, p.offset, p.vaddr, p.paddr, p.filesz, p.memsz, p.flags, p.align]
  }

  function PhdrOf(c: Class, v: seq<nat>): Phdr
    requires Fits(PhdrWidths(c), v)
  {
    Pow256Widths();
    if c.Elf64? then Phdr(v[0], v[1], v[2], v[3], v[4], v[5], v[6], v[7])
    else Phdr(v[0], v[6], v[1], v[2], v[3], v[4], v[5], v[7])
  }

  lemma PhdrWidthsSum(c: Class)
    ensures Sum(PhdrWidths(c)) == PhdrSize(c)
  {
    if c.Elf64? {
      assert Sum([4, 4, 8, 8, 8, 8, 8, 8]) == 56;
    } else {
      assert Sum([4, 4, 4, 4, 4, 4, 4, 4]) == 32;
    }
  }

  function ReadPhdr(enc: Enc, b: seq<byte>): (r: Result<Phdr>)
    ensures r.Ok? <==> |b| >= PhdrSize(enc.class_)
  {
    PhdrWidthsSum(enc.class_);
    if |b| < PhdrSize(enc.class_) then Err(ParseError)
    else Ok(PhdrOf(enc.class_, DecodeRec(enc.endian, PhdrWidths(enc.class_), b)))
  }

  function WritePhdr(enc: Enc, p: Phdr): (r: Result<seq<byte>>)
    ensures r.Ok? ==> |r.value| == PhdrSize(enc.class_)
  {
    PhdrWidthsSum(enc.class_);
    Written(enc.endian, PhdrWidths(enc.class_), PhdrVals(enc.class_, p))
  }

  lemma ReadWritePhdr(enc: Enc, p: Phdr)
    requires WritePhdr(enc, p).Ok?
    ensures ReadPhdr(enc, WritePhdr(enc, p).value) == Ok(p)
  {
    PhdrWidthsSum(enc.class_);
    DecodeEncodeRec(enc.endian, PhdrWidths(enc.class_), PhdrVals(enc.class_, p));
  }

  lemma WriteReadPhdr(enc: Enc, b: seq<byte>)
    requires |b| == PhdrSize(enc.class_)
    ensures WritePhdr(enc, ReadPhdr(enc, b).value) == Ok(b)
  {
    PhdrWidthsSum(enc.class_);
    var v := DecodeRec(enc.endian, PhdrWidths(enc.class_), b);
    assert PhdrVals(enc.class_, PhdrOf(enc.class_, v)) == v;
    EncodeDecodeRec(enc.endian, PhdrWidths(enc.class_), b);
  }

  // ---- Section headers ----

  function ShdrWidths(c: Class): (w: seq<nat>)
    ensures |w| == 10
  {
    if c.Elf64? then [4, 4, 8, 8, 8, 8, 4, 4, 8, 8] else [4, 4, 4, 4, 4, 4, 4, 4, 4, 4]
  }

  function ShdrVals(s: Shdr): (v: seq<nat>)
    ensures |v| == 10
  {
    [s.name, s.shtype, s.flags, s.addr, s.offset, s.size, s.link, s.info, s.addralign, s.entsize]
  }

  function ShdrOf(c: Class, v: seq<nat>): Shdr
    requires Fits(ShdrWidths(c), v)
  {
    Pow256Widths();
    Shdr(v[0], v[1], v[2], v[3], v[4], v[5], v[6], v[7], v[8], v[9])
  }

  lemma ShdrWidthsSum(c: Class)
    ensures Sum(ShdrWidths(c)) == ShdrSize(c)
  {
    if c.Elf64? {
      assert Sum([4, 4, 8, 8, 8, 8, 4, 4, 8, 8]) == 64;
    } else {
      assert Sum([4, 4, 4, 4, 4, 4, 4, 4, 4, 4]) == 40;
    }
  }

  function ReadShdr(enc: Enc, b: seq<byte>): (r: Result<Shdr>)
    ensures r.Ok? <==> |b| >= ShdrSize(enc.class_)
  {
    ShdrWidthsSum(enc.class_);
    if |b| < ShdrSize(enc.class_) then Err(ParseError)
    else Ok(ShdrOf(enc.class_, DecodeRec(enc.endian, ShdrWidths(enc.class_), b)))
  }

  function WriteShdr(enc: Enc, s: Shdr): (r: Result<seq<byte>>)
    ensures r.Ok? ==> |r.value| == ShdrSize(enc.class_)
  {
    ShdrWidthsSum(enc.class_);
    Written(enc.endian, ShdrWidths(enc.class_), ShdrVals(s))
  }

  lemma ReadWriteShdr(enc: Enc, s: Shdr)
    requires WriteShdr(enc, s).Ok?
    ensures ReadShdr(enc, WriteShdr(enc, s).value) == Ok(s)
  {
    ShdrWidthsSum(enc.class_);
    DecodeEncodeRec(enc.endian, ShdrWidths(enc.class_), ShdrVals(s));
  }

  lemma WriteReadShdr(enc: Enc, b: seq<byte>)
    requires |b| == ShdrSize(enc.class_)
    ensures WriteShdr(enc, ReadShdr(enc, b).value) == Ok(b)
  {
    ShdrWidthsSum(enc.class_);
    var v := DecodeRec(enc.endian, ShdrWidths(enc.class_), b);
    assert ShdrVals(ShdrOf(enc.class_, v)) == v;
    EncodeDecodeRec(enc.endian, ShdrWidths(enc.class_), b);
  }

  // ---- Dynamic entries ----

  function DynWidths(c: Class): (w: seq<nat>)
    ensures |w| == 2
  {
    [Word(c), Word(c)]
  }

  /** `d_tag` is signed: its two's-complement pattern in the class's word. */
  function TagBits(c: Class, tag: i64): (v: nat)
    ensures v < Limit(c)
  {
    tag % Limit(c)
  }

  function TagOf(c: Class, v: nat): i64
    requires v < Limit(c)
  {
    Pow256Widths();
    if v < Limit(c) / 2 then v else v - Limit(c)
  }

  lemma DynWidthsSum(c: Class)
    ensures Sum(DynWidths(c)) == DynSize(c)
  {
    if c.Elf64? {
      assert Sum([8, 8]) == 16;
    } else {
      assert Sum([4, 4]) == 8;
    }
  }

  function ReadDyn(enc: Enc, b: seq<byte>): (r: Result<DynEntry>)
    ensures r.Ok? <==> |b| >= DynSize(enc.class_)
  {
    DynWidthsSum(enc.class_);
    if |b| < DynSize(enc.class_) then Err(ParseError)
    else
      var v := DecodeRec(enc.endian, DynWidths(enc.class_), b);
      Ok(DynEntry(TagOf(enc.class_, v[0]), v[1]))
  }

  function WriteDyn(enc: Enc, d: DynEntry): (r: Result<seq<byte>>)
    ensures r.Ok? ==> |r.value| == DynSize(enc.class_)
  {
    DynWidthsSum(enc.class_);
    Written(enc.endian, DynWidths(enc.class_), [TagBits(enc.class_, d.tag), d.val])
  }

  /** The tags an ELF32 entry can carry are those of a signed 32-bit word. */
  predicate TagFits(c: Class, tag: i64)
  {
    -(Limit(c) / 2) <= tag < Limit(c) / 2
  }

  lemma TagOfBits(c: Class, tag: i64)
    ensures TagOf(c, TagBits(c, tag)) == tag <==> TagFits(c, tag)
  {
    Pow256Widths();
    var m := Limit(c);
    assert TagFits(c, tag) && tag >= 0 ==> tag % m == tag;
    assert TagFits(c, tag) && tag < 0 ==> tag % m == tag + m;
  }

  /** A dynamic entry survives exactly when its tag fits the class's signed word. */
  lemma ReadWriteDyn(enc: Enc, d: DynEntry)
    requires WriteDyn(enc, d).Ok?
    ensures ReadDyn(enc, WriteDyn(enc, d).value) == Ok(d) <==> TagFits(enc.class_, d.tag)
  {
    var c, v := enc.class_, [TagBits(enc.class_, d.tag), d.val];
    DynWidthsSum(c);
    DecodeEncodeRec(enc.endian, DynWidths(c), v);
    TagOfBits(c, d.tag);
    assert ReadDyn(enc, WriteDyn(enc, d).value) == Ok(DynEntry(TagOf(c, v[0]), v[1]));
  }

  lemma WriteReadDyn(enc: Enc, b: seq<byte>)
    requires |b| == DynSize(enc.class_)
    ensures WriteDyn(enc, ReadDyn(enc, b).value) == Ok(b)
  {
    var c := enc.class_;
    DynWidthsSum(c);
    Pow256Widths();
    var v := DecodeRec(enc.endian, DynWidths(c), b);
    assert TagBits(c, TagOf(c, v[0])) == v[0];
    assert [TagBits(c, TagOf(c, v[0])), v[1]] == v;
    EncodeDecodeRec(enc.endian, DynWidths(c), b);
  }

  // ---- The file header ----

  const PN_XNUM: nat := 0xffff
  const SHN_LORESERVE: nat := 0xff00
  const SHN_XINDEX: nat := 0xffff

  /** The on-disk count fields, with the section-0 escapes substituted. */
  function EhdrCounts(shstrndx: nat, phnum: nat, shnum: nat): (r: (nat, nat, nat))
    ensures r.0 < 0x1_0000 && r.1 < 0x1_0000 && r.2 < 0x1_0000
  {
    (if phnum >= PN_XNUM then PN_XNUM else phnum,
     if shnum >= SHN_LORESERVE then 0 else shnum,
     if shstrndx >= SHN_LORESERVE then SHN_XINDEX else shstrndx)
  }

  function EhdrWidths(c: Class): (w: seq<nat>)
    ensures |w| == 13
  {
    [2, 2, 4, Word(c), Word(c), Word(c), 4, 2, 2, 2, 2, 2, 2]
  }

  function EhdrVals(h: Ehdr, counts: (nat, nat, nat)): (v: seq<nat>)
    ensures |v| == 13
  {
    [h.eType, h.machine, h.version, h.entry, h.phoff, h.shoff, h.flags,
     h.ehsize, h.phentsize, counts.0, h.shentsize, counts.1, counts.2]
  }

  lemma EhdrWidthsSum(c: Class)
    ensures 16 + Sum(EhdrWidths(c)) == EhdrSize(c)
  {
    if c.Elf64? {
      assert Sum([2, 2, 4, 8, 8, 8, 4, 2, 2, 2, 2, 2, 2]) == 48;
    } else {
      assert Sum([2, 2, 4, 4, 4, 4, 4, 2, 2, 2, 2, 2, 2]) == 36;
    }
  }

  const MAGIC: seq<byte> := [0x7f, 0x45, 0x4c, 0x46]

  predicate IdentOk(ident: seq<byte>, enc: Enc)
  {
    && |ident| == 16
    && ident[..4] == MAGIC
    && ident[4] == (if enc.class_.Elf32? then 1 else 2)
    && ident[5] == (if enc.endian.Little? then 1 else 2)
  }

  datatype RawEhdr = RawEhdr(ehdr: Ehdr, enc: Enc, phnum: u16, shnum: u16)

  function EhdrOf(enc: Enc, ident: seq<byte>, v: seq<nat>): RawEhdr
    requires Fits(EhdrWidths(enc.class_), v)
  {
    Pow256Widths();
    RawEhdr(
      Ehdr(v[0], v[1], v[2], v[3], v[4], v[5], v[6], v[7], v[8], v[10], v[12], ident), enc, v[9], v[11])
  }

  /** Class and byte order, from the identification bytes. */
  function ReadIdent(b: seq<byte>): (r: Result<Enc>)
    ensures r.Ok? ==> |b| >= 16 && IdentOk(b[..16], r.value)
  {
    if |b| < 16 || b[..4] != MAGIC then Err(ParseError)
    else if b[4] != 1 && b[4] != 2 then Err(UnsupportedError)
    else if b[5] != 1 && b[5] != 2 then Err(UnsupportedError)
    else
      assert b[..16][..4] == b[..4];
      Ok(Enc(if b[4] == 1 then Elf32 else Elf64, if b[5] == 1 then Little else Big))
  }

  function EhdrFields(enc: Enc, b: seq<byte>): (v: seq<nat>)
    requires |b| >= EhdrSize(enc.class_)
    ensures Fits(EhdrWidths(enc.class_), v)
  {
    EhdrWidthsSum(enc.class_);
    DecodeRec(enc.endian, EhdrWidths(enc.class_), b[16..])
  }

  function ReadEhdr(b: seq<byte>): Result<RawEhdr>
  {
    match ReadIdent(b)
    case Err(e) => Err(e)
    case Ok(enc) =>
      if |b| < EhdrSize(enc.class_) then Err(ParseError)
      else Ok(EhdrOf(enc, b[..16], EhdrFields(enc, b)))
  }

  function WriteEhdr(enc: Enc, h: Ehdr, phnum: nat, shnum: nat): (r: Result<seq<byte>>)
    requires |h.ident| == 16
    ensures r.Ok? ==> |r.value| == EhdrSize(enc.class_)
  {
    EhdrWidthsSum(enc.class_);
    match Written(enc.endian, EhdrWidths(enc.class_), EhdrVals(h, EhdrCounts(h.shstrndx, phnum, shnum)))
    case Err(e) => Err(e)
    case Ok(b) => Ok(h.ident + b)
  }

  lemma ReadIdentOf(ident: seq<byte>, enc: Enc, b: seq<byte>)
    requires IdentOk(ident, enc) && |b| >= 16 && b[..16] == ident
    ensures ReadIdent(b) == Ok(enc)
  {
    assert b[..4] == ident[..4];
    assert b[4] == ident[4] && b[5] == ident[5];
  }

  /** The fields depend on the record's own bytes, and are what was encoded there. */
  lemma EhdrFieldsOf(enc: Enc, b: seq<byte>, v: seq<nat>)
    requires |b| >= EhdrSize(enc.class_)
    requires Fits(EhdrWidths(enc.class_), v)
    ensures b[16..EhdrSize(enc.class_)] == EncodeRec(enc.endian, EhdrWidths(enc.class_), v) <==> EhdrFields(enc, b) == v
  {
    EhdrWidthsSum(enc.class_);
    RecordInBytes(enc.endian, EhdrWidths(enc.class_), b, 16, EhdrSize(enc.class_), v);
  }

  /** The file starts with a header whose identification and fields are these. */
  predicate StartsWith(enc: Enc, b: seq<byte>, ident: seq<byte>, v: seq<nat>)
  {
    |b| >= EhdrSize(enc.class_) && b[..16] == ident && EhdrFields(enc, b) == v
  }

  lemma StartsWithBytes(enc: Enc, b: seq<byte>, ident: seq<byte>, v: seq<nat>)
    requires |b| >= EhdrSize(enc.class_) && |ident| == 16 && Fits(EhdrWidths(enc.class_), v)
    ensures StartsWith(enc, b, ident, v)
            <==> b[..EhdrSize(enc.class_)] == ident + EncodeRec(enc.endian, EhdrWidths(enc.class_), v)
  {
    var n, rec := EhdrSize(enc.class_), EncodeRec(enc.endian, EhdrWidths(enc.class_), v);
    EhdrFieldsOf(enc, b, v);
    SplitAt(b, n, ident, rec);
  }

  lemma SplitAt(b: seq<byte>, n: nat, head: seq<byte>, rest: seq<byte>)
    requires |head| <= n <= |b|
    ensures b[..n] == head + rest <==> b[..|head|] == head && b[|head|..n] == rest
  {
    assert b[..n] == b[..|head|] + b[|head|..n];
    assert (head + rest)[..|head|] == head && (head + rest)[|head|..] == rest;
    assert b[..n][..|head|] == b[..|head|] && b[..n][|head|..] == b[|head|..n];
  }

  lemma EhdrWritten(enc: Enc, h: Ehdr, phnum: nat, shnum: nat)
    requires |h.ident| == 16 && Fits(EhdrWidths(enc.class_), EhdrVals(h, EhdrCounts(h.shstrndx, phnum, shnum)))
    ensures WriteEhdr(enc, h, phnum, shnum)
            == Ok(h.ident + EncodeRec(enc.endian, EhdrWidths(enc.class_),
                                      EhdrVals(h, EhdrCounts(h.shstrndx, phnum, shnum))))
  {
  }

  lemma EhdrOfVals(enc: Enc, h: Ehdr, c: (nat, nat, nat))
    requires Fits(EhdrWidths(enc.class_), EhdrVals(h, c))
    requires c.0 < 0x1_0000 && c.1 < 0x1_0000 && c.2 < 0x1_0000
    ensures EhdrOf(enc, h.ident, EhdrVals(h, c)) == RawEhdr(h.(shstrndx := c.2), enc, c.0, c.1)
  {
  }

  /** Reading a written file header gives its fields and the three count fields. */
  lemma ReadWriteEhdr(enc: Enc, h: Ehdr, phnum: nat, shnum: nat, b: seq<byte>)
    requires IdentOk(h.ident, enc)
    requires WriteEhdr(enc, h, phnum, shnum).Ok?
    requires |b| >= EhdrSize(enc.class_) && b[..EhdrSize(enc.class_)] == WriteEhdr(enc, h, phnum, shnum).value
    ensures var c := EhdrCounts(h.shstrndx, phnum, shnum);
            ReadEhdr(b) == Ok(RawEhdr(h.(shstrndx := c.2), enc, c.0, c.1))
  {
    var c := EhdrCounts(h.shstrndx, phnum, shnum);
    StartsWithBytes(enc, b, h.ident, EhdrVals(h, c));
    ReadIdentOf(h.ident, enc, b);
    EhdrOfVals(enc, h, c);
  }

  /** The fields of a header that was read, as the writer would list them. */
  lemma EhdrValsOfRead(b: seq<byte>)
    requires ReadEhdr(b).Ok?
    ensures var r := ReadEhdr(b).value;
            && |b| >= EhdrSize(r.enc.class_)
            && r.ehdr.ident == b[..16]
            && IdentOk(r.ehdr.ident, r.enc)
            && EhdrFields(r.enc, b) == EhdrVals(r.ehdr, (r.phnum, r.shnum, r.ehdr.shstrndx))
  {
  }

  /** Writing a read file header gives its bytes back exactly when the count
      fields are the ones the writer would choose. */
  lemma WriteReadEhdr(b: seq<byte>, shstrndx: u32, phnum: nat, shnum: nat)
    requires ReadEhdr(b).Ok?
    ensures var r := ReadEhdr(b).value;
            && |r.ehdr.ident| == 16
            && |b| >= EhdrSize(r.enc.class_)
            && var out := WriteEhdr(r.enc, r.ehdr.(shstrndx := shstrndx), phnum, shnum);
            && out.Ok?
            && (out.value == b[..EhdrSize(r.enc.class_)]
                <==> EhdrCounts(shstrndx, phnum, shnum) == (r.phnum, r.shnum, r.ehdr.shstrndx))
  {
    var r := ReadEhdr(b).value;
    EhdrValsOfRead(b);
    var v, c := EhdrFields(r.enc, b), EhdrCounts(shstrndx, phnum, shnum);
    var v' := EhdrVals(r.ehdr.(shstrndx := shstrndx), c);
    FitsCounts(EhdrWidths(r.enc.class_), v, v');
    EhdrWritten(r.enc, r.ehdr.(shstrndx := shstrndx), phnum, shnum);
    StartsWithBytes(r.enc, b, b[..16], v');
    SameVals(r.ehdr, shstrndx, c, (r.phnum, r.shnum, r.ehdr.shstrndx));
  }

  lemma SameVals(h: Ehdr, shstrndx: u32, c: (nat, nat, nat), c': (nat, nat, nat))
    ensures EhdrVals(h.(shstrndx := shstrndx), c) == EhdrVals(h, c') <==> c == c'
  {
    var v, v' := EhdrVals(h.(shstrndx := shstrndx), c), EhdrVals(h, c');
    assert v[9] == c.0 && v[11] == c.1 && v[12] == c.2;
    assert v'[9] == c'.0 && v'[11] == c'.1 && v'[12] == c'.2;
  }

  lemma FitsCounts(w: seq<nat>, v: seq<nat>, v': seq<nat>)
    requires Fits(w, v) && |v| == |v'| == 13 && w[9] == w[11] == w[12] == 2
    requires forall k :: 0 <= k < 13 && k != 9 && k != 11 && k != 12 ==> v'[k] == v[k]
    requires v'[9] < 0x1_0000 && v'[11] < 0x1_0000 && v'[12] < 0x1_0000
    ensures Fits(w, v')
  {
    Pow256Widths();
  }
}
