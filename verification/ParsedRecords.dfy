/** What a parsed image is, field by field, in terms of the file's bytes (src/parser.rs):
    every header, section and dynamic entry at the place the gABI gives it. */
module ParsedRecords {
  import opened Bytes
  import opened Ir
  import opened Codec
  import opened Parser
  import opened Records
  import RoundTrip

  // ---- The steps of the parser ----

  lemma ParseSteps(data: seq<byte>, o: Image) returns (raw: RawEhdr, c: Counts)
    requires Parse(data) == Ok(o)
    ensures ReadEhdr(data) == Ok(raw) && ResolveCounts(data, raw) == Ok(c) && ParseWith(data, raw, c) == Ok(o)
  {
    raw := ReadEhdr(data).value;
    c := ResolveCounts(data, raw).value;
  }

  lemma WithSteps(data: seq<byte>, raw: RawEhdr, c: Counts, o: Image) returns (pht: seq<byte>, sht: seq<byte>)
    requires ParseWith(data, raw, c) == Ok(o)
    ensures o.enc == raw.enc && o.ehdr == raw.ehdr.(shstrndx := c.shstrndx)
    ensures Slice(data, o.ehdr.phoff, c.phnum * PhdrSize(o.enc.class_)) == Ok(pht)
    ensures Slice(data, o.ehdr.shoff, c.shnum * ShdrSize(o.enc.class_)) == Ok(sht)
    ensures o.phdrs == PhdrsIn(o.enc, pht, c.phnum) && o.shdrs == ShdrsIn(o.enc, sht, c.shnum)
    ensures AllBytes(data, o.shdrs) == Ok(o.data) && ReadDynamic(o.enc, data, o.shdrs, o.phdrs) == Ok(o.dynamic)
  {
    pht := Slice(data, raw.ehdr.phoff, c.phnum * PhdrSize(raw.enc.class_)).value;
    sht := Slice(data, raw.ehdr.shoff, c.shnum * ShdrSize(raw.enc.class_)).value;
  }

  lemma Parts(data: seq<byte>, o: Image) returns (raw: RawEhdr, c: Counts, pht: seq<byte>, sht: seq<byte>)
    requires Parse(data) == Ok(o)
    ensures ReadEhdr(data) == Ok(raw) && ResolveCounts(data, raw) == Ok(c)
    ensures o.enc == raw.enc && o.ehdr == raw.ehdr.(shstrndx := c.shstrndx)
    ensures Slice(data, o.ehdr.phoff, c.phnum * PhdrSize(o.enc.class_)) == Ok(pht)
    ensures Slice(data, o.ehdr.shoff, c.shnum * ShdrSize(o.enc.class_)) == Ok(sht)
    ensures o.phdrs == PhdrsIn(o.enc, pht, c.phnum) && o.shdrs == ShdrsIn(o.enc, sht, c.shnum)
    ensures AllBytes(data, o.shdrs) == Ok(o.data) && ReadDynamic(o.enc, data, o.shdrs, o.phdrs) == Ok(o.dynamic)
  {
    raw, c := ParseSteps(data, o);
    pht, sht := WithSteps(data, raw, c, o);
  }

  // ---- A table of records ----

  /** Record `k` of a slice of the file. */
  lemma ChunkOfSlice(data: seq<byte>, off: nat, size: nat, n: nat, b: seq<byte>, k: nat)
    requires Slice(data, off, n * size) == Ok(b) && k < n
    ensures |b| == n * size && off + k * size + size <= |data|
    ensures Chunk(b, size, n, k) == data[off + k * size..off + k * size + size]
  {
    ChunkInside(size, n, k);
    SliceOfSlice(data, off, n * size, b, k * size, size);
  }

  lemma SliceOfSlice(data: seq<byte>, off: nat, len: nat, b: seq<byte>, lo: nat, size: nat)
    requires off + len <= |data| && b == data[off..off + len] && lo + size <= len
    ensures b[lo..lo + size] == data[off + lo..off + lo + size]
  {
    assert forall i :: 0 <= i < len ==> b[i] == data[off + i];
  }

  /** Program header `k` of a parsed file, field by field in the file. */
  lemma PhdrParsed(data: seq<byte>, o: Image, k: nat)
    requires Parse(data) == Ok(o) && k < |o.phdrs|
    ensures IsPhdr(o.enc, data, o.ehdr.phoff + k * if o.enc.class_.Elf64? then 56 else 32, o.phdrs[k])
  {
    var raw, c, pht, sht := Parts(data, o);
    var size := PhdrSize(o.enc.class_);
    ChunkOfSlice(data, o.ehdr.phoff, size, c.phnum, pht, k);
    var lo := o.ehdr.phoff + k * size;
    PhdrRead(o.enc, data[lo..lo + size]);
    PhdrInside(o.enc, data, lo, lo + size, o.phdrs[k]);
  }

  /** Section header `i` of a parsed file, field by field in the file. */
  lemma ShdrParsed(data: seq<byte>, o: Image, i: nat)
    requires Parse(data) == Ok(o) && i < |o.shdrs|
    ensures IsShdr(o.enc, data, o.ehdr.shoff + i * if o.enc.class_.Elf64? then 64 else 40, o.shdrs[i])
  {
    var raw, c, pht, sht := Parts(data, o);
    var size := ShdrSize(o.enc.class_);
    ChunkOfSlice(data, o.ehdr.shoff, size, c.shnum, sht, i);
    var lo := o.ehdr.shoff + i * size;
    ShdrRead(o.enc, data[lo..lo + size]);
    ShdrInside(o.enc, data, lo, lo + size, o.shdrs[i]);
  }

  /** A section's contents are the file's bytes at its place; `SHT_NOBITS` has none. */
  lemma SectionParsed(data: seq<byte>, o: Image, i: nat)
    requires Parse(data) == Ok(o) && i < |o.shdrs|
    ensures |o.data| == |o.shdrs|
    ensures var s := o.shdrs[i];
            if s.shtype == 8 then o.data[i] == []
            else s.offset + s.size <= |data| && o.data[i] == data[s.offset..s.offset + s.size]
  {
    var raw, c, pht, sht := Parts(data, o);
    RoundTrip.AllBytesAre(data, o.shdrs, i);
  }

  // ---- The file header ----

  /** The counts the header gives, or section 0 in their place when they are escaped. */
  ghost predicate CountedAs(data: seq<byte>, o: Image, phnum: nat, shnum: nat, shstrndx: nat)
  {
    var e, z, wide := o.enc.endian, o.ehdr.shoff, o.enc.class_.Elf64?;
    var escaped := phnum == 0xffff || shnum == 0 || shstrndx == 0xffff;
    if z == 0 || !escaped then |o.phdrs| == phnum && |o.shdrs| == shnum && o.ehdr.shstrndx == shstrndx
    else
      && z + (if wide then 64 else 40) <= |data|
      && |o.phdrs| == (if phnum != 0xffff then phnum else Get(e, data, z + if wide then 44 else 28, 4))
      && |o.shdrs| == (if shnum != 0 then shnum else if wide then Get(e, data, z + 32, 8) else Get(e, data, z + 20, 4))
      && o.ehdr.shstrndx
         == (if shstrndx != 0xffff then shstrndx else Get(e, data, z + if wide then 40 else 24, 4))
  }

  /** The file header of a parsed file: identification, fields and counts. */
  lemma HeaderParsed(data: seq<byte>, o: Image) returns (raw: RawEhdr)
    requires Parse(data) == Ok(o)
    ensures IsEhdr(data, raw) && raw.enc == o.enc && o.ehdr == raw.ehdr.(shstrndx := o.ehdr.shstrndx)
    ensures CountedAs(data, o, raw.phnum, raw.shnum, raw.ehdr.shstrndx)
  {
    var c, pht, sht;
    raw, c, pht, sht := Parts(data, o);
    EhdrRead(data);
    CountsResolved(data, raw, c);
    assert |o.phdrs| == c.phnum && |o.shdrs| == c.shnum;
    CountsAre(data, o, raw, c);
  }

  lemma CountsAre(data: seq<byte>, o: Image, raw: RawEhdr, c: Counts)
    requires |o.phdrs| == c.phnum && |o.shdrs| == c.shnum && o.ehdr.shstrndx == c.shstrndx
    requires o.enc == raw.enc && o.ehdr.shoff == raw.ehdr.shoff && Resolved(data, raw, c)
    ensures CountedAs(data, o, raw.phnum, raw.shnum, raw.ehdr.shstrndx)
  {
  }

  ghost predicate Resolved(data: seq<byte>, raw: RawEhdr, c: Counts)
  {
    var z, escaped := raw.ehdr.shoff, raw.phnum == 0xffff || raw.shnum == 0 || raw.ehdr.shstrndx == 0xffff;
    if z == 0 || !escaped then c == Counts(raw.phnum, raw.shnum, raw.ehdr.shstrndx)
    else exists s :: IsShdr(raw.enc, data, z, s)
           && c == Counts(if raw.phnum == 0xffff then s.info else raw.phnum,
                          if raw.shnum == 0 then s.size else raw.shnum,
                          if raw.ehdr.shstrndx == 0xffff then s.link else raw.ehdr.shstrndx)
  }

  lemma CountsResolved(data: seq<byte>, raw: RawEhdr, c: Counts)
    requires ResolveCounts(data, raw) == Ok(c)
    ensures Resolved(data, raw, c)
  {
    var z, size := raw.ehdr.shoff, ShdrSize(raw.enc.class_);
    if z != 0 && (raw.phnum == 0xffff || raw.shnum == 0 || raw.ehdr.shstrndx == 0xffff) {
      var b := Slice(data, z, size).value;
      ShdrRead(raw.enc, b);
      ShdrInside(raw.enc, data, z, z + size, ReadShdr(raw.enc, b).value);
    }
  }

  // ---- The dynamic array ----

  /** Entries are 16 bytes long in ELF64, 8 in ELF32. */
  function EntryPlace(enc: Enc, j: nat): nat
  {
    if enc.class_.Elf64? then j * 16 else j * 8
  }

  /** `ds` are the entries from `off` on, `n` of them or up to the first null. */
  ghost predicate ArrayAt(enc: Enc, data: seq<byte>, off: nat, n: nat, ds: seq<DynEntry>)
  {
    && |ds| <= n && (|ds| < n ==> ds != [] && ds[|ds| - 1].tag == 0)
    && (forall j :: 0 <= j < |ds| - 1 ==> ds[j].tag != 0)
    && forall j: nat :: j < |ds| ==> IsDyn(enc, data, off + EntryPlace(enc, j), ds[j])
  }

  lemma {:induction false} NullEnds(ds: seq<DynEntry>)
    ensures var r := ThroughNull(ds);
            && (|r| < |ds| ==> r != [] && r[|r| - 1].tag == 0) && forall j :: 0 <= j < |r| - 1 ==> r[j].tag != 0
  {
    if ds != [] && ds[0].tag != DT_NULL {
      NullEnds(ds[1..]);
    }
  }

  lemma ArrayRead(enc: Enc, data: seq<byte>, off: nat, filesz: nat, ds: seq<DynEntry>)
    requires ReadDynArray(enc, data, off, filesz) == Ok(ds)
    ensures ArrayAt(enc, data, off, filesz / DynSize(enc.class_), ds)
  {
    var size := DynSize(enc.class_);
    var b := Slice(data, off, filesz - filesz % size).value;
    WholeEntries(filesz, size);
    EntriesRead(enc, data, off, filesz / size, b, ds);
  }

  lemma WholeEntries(filesz: nat, size: nat)
    requires size > 0
    ensures filesz - filesz % size == filesz / size * size
  {
  }

  lemma EntriesRead(enc: Enc, data: seq<byte>, off: nat, n: nat, b: seq<byte>, ds: seq<DynEntry>)
    requires Slice(data, off, n * DynSize(enc.class_)) == Ok(b) && ds == ThroughNull(DynsIn(enc, b, n))
    ensures ArrayAt(enc, data, off, n, ds)
  {
    NullEnds(DynsIn(enc, b, n));
    forall j: nat | j < |ds| ensures IsDyn(enc, data, off + EntryPlace(enc, j), ds[j]) {
      EntryRead(enc, data, off, n, b, j);
    }
  }

  lemma EntryRead(enc: Enc, data: seq<byte>, off: nat, n: nat, b: seq<byte>, j: nat)
    requires Slice(data, off, n * DynSize(enc.class_)) == Ok(b) && j < n
    ensures IsDyn(enc, data, off + EntryPlace(enc, j), DynsIn(enc, b, n)[j])
  {
    var size := DynSize(enc.class_);
    ChunkOfSlice(data, off, size, n, b, j);
    var lo := off + j * size;
    DynRead(enc, data[lo..lo + size]);
    DynInside(enc, data, lo, lo + size, DynsIn(enc, b, n)[j]);
  }

  ghost predicate FirstOf(types: seq<u32>, t: u32, i: nat)
  {
    i < |types| && types[i] == t && forall j :: 0 <= j < i ==> types[j] != t
  }

  function SectionTypes(o: Image): (r: seq<u32>)
  {
    seq(|o.shdrs|, i requires 0 <= i < |o.shdrs| => o.shdrs[i].shtype)
  }

  function SegmentTypes(o: Image): (r: seq<u32>)
  {
    seq(|o.phdrs|, i requires 0 <= i < |o.phdrs| => o.phdrs[i].ptype)
  }

  lemma FirstUnique(types: seq<u32>, t: u32, i: nat, j: nat)
    requires FirstOf(types, t, i) && FirstOf(types, t, j)
    ensures i == j
  {
  }

  /** The array a parsed file takes from its first dynamic section. */
  ghost predicate FromSection(data: seq<byte>, o: Image, d: nat)
    requires d < |o.shdrs|
  {
    var s := o.shdrs[d];
    if o.enc.class_.Elf64? then s.size % 16 == 0 && ArrayAt(o.enc, data, s.offset, s.size / 16, o.dynamic)
    else s.size % 8 == 0 && ArrayAt(o.enc, data, s.offset, s.size / 8, o.dynamic)
  }

  /** The array a parsed file takes from its first dynamic segment, at its file offset. */
  ghost predicate FromSegment(data: seq<byte>, o: Image, p: nat)
    requires p < |o.phdrs|
  {
    var s := o.phdrs[p];
    ArrayAt(o.enc, data, s.offset, if o.enc.class_.Elf64? then s.filesz / 16 else s.filesz / 8, o.dynamic)
  }

  lemma SectionRead(data: seq<byte>, o: Image, d: nat)
    requires ReadDynamic(o.enc, data, o.shdrs, o.phdrs) == Ok(o.dynamic) && FirstDynamic(o.shdrs) == Some(d)
    ensures FromSection(data, o, d) && FirstOf(SectionTypes(o), 6, d)
  {
    FirstDynamicFacts(o.shdrs);
    ArrayRead(o.enc, data, o.shdrs[d].offset, o.shdrs[d].size, o.dynamic);
  }

  lemma SegmentRead(data: seq<byte>, o: Image)
    requires ReadDynamic(o.enc, data, o.shdrs, o.phdrs) == Ok(o.dynamic) && FirstDynamic(o.shdrs).None?
    ensures 6 !in SectionTypes(o)
    ensures forall p: nat :: FirstOf(SegmentTypes(o), 2, p) ==> FromSegment(data, o, p)
    ensures 2 !in SegmentTypes(o) ==> o.dynamic == []
  {
    FirstDynamicFacts(o.shdrs);
    var first := FindPhdr(o.phdrs, PT_DYNAMIC);
    if first.Some? {
      assert SegmentTypes(o)[first.value] == 2;
      ArrayRead(o.enc, data, o.phdrs[first.value].offset, o.phdrs[first.value].filesz, o.dynamic);
    }
    forall p: nat | FirstOf(SegmentTypes(o), 2, p) ensures FromSegment(data, o, p) {
      assert o.phdrs[p].ptype == 2;
      SegmentFound(o, p);
    }
  }

  lemma SegmentFound(o: Image, p: nat)
    requires FirstOf(SegmentTypes(o), 2, p)
    ensures FindPhdr(o.phdrs, PT_DYNAMIC) == Some(p)
  {
    assert SegmentTypes(o)[p] == 2;
    forall j | 0 <= j < p ensures o.phdrs[j].ptype != 2 {
      assert SegmentTypes(o)[j] != 2;
    }
    FindPhdrIs(o.phdrs, 2, p);
  }

  /** The dynamic array of a parsed file: that of its first dynamic section, a whole
      number of entries; without one that of its first dynamic segment, at the
      segment's file offset; without either, empty. */
  lemma DynamicParsed(data: seq<byte>, o: Image)
    requires Parse(data) == Ok(o)
    ensures forall d: nat :: FirstOf(SectionTypes(o), 6, d) ==> FromSection(data, o, d)
    ensures 6 !in SectionTypes(o) ==> forall p: nat :: FirstOf(SegmentTypes(o), 2, p) ==> FromSegment(data, o, p)
    ensures 6 !in SectionTypes(o) && 2 !in SegmentTypes(o) ==> o.dynamic == []
  {
    var raw, c, pht, sht := Parts(data, o);
    match FirstDynamic(o.shdrs) {
      case Some(d) =>
        SectionRead(data, o, d);
        assert SectionTypes(o)[d] in SectionTypes(o);
        forall e: nat | FirstOf(SectionTypes(o), 6, e) ensures FromSection(data, o, e) {
          FirstUnique(SectionTypes(o), 6, d, e);
        }
      case None => SegmentRead(data, o);
    }
  }

  // ---- Section names ----

  /** Section `i` has this name: the bytes from its `sh_name` in the section name table
      up to a NUL or the table's end. */
  ghost predicate HasName(o: Image, i: nat, name: seq<byte>)
  {
    && i < |o.shdrs| && o.ehdr.shstrndx < |o.data| && 0 !in name
    && var tab, from := o.data[o.ehdr.shstrndx], o.shdrs[i].name;
       && from + |name| <= |tab| && tab[from..from + |name|] == name
       && (from + |name| == |tab| || tab[from + |name|] == 0)
  }

  lemma NameIs(o: Image, i: nat, name: seq<byte>)
    ensures o.SectionName(i) == Some(name) <==> HasName(o, i, name)
  {
    if i < |o.shdrs| && o.ehdr.shstrndx < |o.data| {
      StringIs(o.data[o.ehdr.shstrndx], o.shdrs[i].name, name);
    }
  }

  lemma StringIs(tab: seq<byte>, off: nat, s: seq<byte>)
    ensures CStr(tab, off) == Some(s)
            <==> 0 !in s && off + |s| <= |tab| && tab[off..off + |s|] == s
                 && (off + |s| == |tab| || tab[off + |s|] == 0)
  {
    if 0 !in s && off + |s| <= |tab| && tab[off..off + |s|] == s && (off + |s| == |tab| || tab[off + |s|] == 0) {
      forall i | off <= i < off + |s| ensures tab[i] != 0 {
        assert tab[i] == s[i - off];
      }
      NulEndUnique(tab, off, off + |s|);
    }
  }

  /** A section found by name is the first that has it. */
  lemma SectionFound(o: Image, name: seq<byte>, i: nat)
    ensures o.FindSection(name) == Some(i) <==> HasName(o, i, name) && forall j: nat :: j < i ==> !HasName(o, j, name)
    ensures o.FindSection(name).None? <==> forall j: nat :: !HasName(o, j, name)
  {
    forall j: nat ensures o.SectionName(j) == Some(name) <==> HasName(o, j, name) {
      NameIs(o, j, name);
    }
    var bs := o.Named(name);
    if HasName(o, i, name) && forall j: nat :: j < i ==> !HasName(o, j, name) {
      FirstTrueIs(bs, i);
    }
  }
}
