/** A small program: one load, a section-name table, and headers whose fields fit. */
module Example {
  import opened Bytes
  import opened Ir
  import opened Codec
  import opened Align
  import opened Serialize
  import opened Layout
  import opened Shape
  import opened Verify

  const PAGE: nat := 0x1000

  const PT_GNU_RELRO: u32 := 0x6474_e552

  function OneLoad(base: nat): Phdr
  {
    Phdr(PT_LOAD, PF_R + PF_X, 0, base, base, 0x200, 0x200, PAGE)
  }

  /** What the loader makes read-only once it has relocated the program. */
  function Relro(base: nat): Phdr
  {
    Phdr(PT_GNU_RELRO, PF_R, 0x100, base + 0x100, base + 0x100, 0x80, 0x80, 1)
  }

  function Names(): Shdr
  {
    Shdr(0, SHT_STRTAB, 0, 0, 0x180, 1, 0, 0, 1, 0)
  }

  function Table(base: nat, relro: bool): seq<Phdr>
  {
    if relro then [OneLoad(base), Relro(base)] else [OneLoad(base)]
  }

  /** A 64-bit little-endian program of 512 bytes whose code starts at its base. */
  function Program(ident: seq<byte>, base: nat, relro: bool, phoff: nat): Image
  {
    Image(Enc(Elf64, Little), Ehdr(ET_DYN, 62, 1, base + 0x100, phoff, 0x1c0, 0, 64, 56, 64, 0, ident),
          Table(base, relro), [Names()], [[0]], [])
  }

  predicate Based(base: nat)
  {
    base == 0 || base == 0x10000
  }

  lemma OnlyLoad(base: nat, relro: bool)
    ensures Loads(Table(base, relro)) == [OneLoad(base)]
  {
    var one := [OneLoad(base)];
    assert one[..0] == [] && Loads(one[..0]) == [];
    assert Table(base, true)[..1] == one;
  }

  lemma Measures(base: nat)
    requires Based(base)
    ensures MaxAlign([OneLoad(base)], PAGE) == PAGE && MaxEnd([OneLoad(base)]) == base + 0x200
    ensures MinVaddr([OneLoad(base)]) == base && base % PAGE == 0
  {
    assert [OneLoad(base)][..0] == [];
  }

  lemma PowersHere()
    ensures PowerOfTwo(4) && PowerOfTwo(PAGE)
  {
    assert PowerOfTwo(2) && PAGE == 4096;
  }

  lemma OneLoadOk(base: nat)
    requires Based(base)
    ensures LoadOk(OneLoad(base)) && MemoryDisjoint([OneLoad(base)])
  {
    Measures(base);
    assert [OneLoad(base)][..0] == [];
    assert HasFlag(PF_R + PF_X, PF_X) && !HasFlag(PF_R + PF_X, PF_W);
  }

  lemma AlignsHold(base: nat, relro: bool)
    ensures forall p :: p in Table(base, relro) ==> ValidAlign(p.align)
  {
    PowersHere();
    forall p | p in Table(base, relro) ensures p == OneLoad(base) || p == Relro(base) {
    }
  }

  lemma LoadsHold(base: nat, relro: bool)
    requires Based(base)
    ensures forall p :: p in Loads(Table(base, relro)) ==> LoadOk(p)
    ensures MemoryDisjoint(Loads(Table(base, relro)))
  {
    OnlyLoad(base, relro);
    OneLoadOk(base);
    OneOfThem(Loads(Table(base, relro)), OneLoad(base));
  }

  lemma OneOfThem(loads: seq<Phdr>, p: Phdr)
    requires loads == [p] && LoadOk(p) && MemoryDisjoint([p])
    ensures (forall q :: q in loads ==> LoadOk(q)) && MemoryDisjoint(loads)
  {
  }

  lemma EntryInLoad(base: nat)
    ensures HasFlag(OneLoad(base).flags, PF_X) && InMemory(OneLoad(base), base + 0x100)
  {
  }

  /** Its one section has no name, so no section is found by name. */
  lemma NoSections(img: Image)
    requires |img.shdrs| == |img.data| == 1 && img.shdrs[0].name == 0 && img.shdrs[0].shtype == SHT_STRTAB
    requires img.data[0] == [0] && img.ehdr.shstrndx == 0
    ensures forall name: seq<byte> :: name != [] ==> img.FindSection(name).None?
    ensures img.DynIdx().None?
  {
    NulEndUnique([0], 0, 0);
    assert img.SectionName(0) == Some([]);
    forall name: seq<byte> | name != [] ensures img.FindSection(name).None? {
      assert !img.Named(name)[0];
    }
  }

  /** Without a dynamic section there is nothing to encode. */
  lemma ArrangedOk(w: Image, g: Geometry, note: Option<nat>, front: bool)
    requires Arrangeable(w, g) && forall i :: 0 <= i < |w.shdrs| ==> w.shdrs[i].shtype != SHT_DYNAMIC
    ensures Arranged(w, g, note, front).Ok?
  {
    var p := Pushed(w, g, front);
    PushedShape(w, g, front);
    FirstDynamicFacts(p.shdrs);
  }

  // ---- Header fields that fit ----

  predicate SmallPhdr(p: Phdr)
  {
    && p.offset < 0x100_0000 && p.vaddr < 0x100_0000 && p.paddr < 0x100_0000
    && p.filesz < 0x100_0000 && p.memsz < 0x100_0000 && p.align < 0x100_0000
  }

  predicate SmallShdr(s: Shdr)
  {
    && s.flags < 0x100_0000 && s.addr < 0x100_0000 && s.offset < 0x100_0000 && s.size < 0x100_0000
    && s.addralign < 0x100_0000 && s.entsize < 0x100_0000
  }

  predicate SmallEhdr(h: Ehdr)
  {
    h.entry < 0x100_0000 && h.phoff < 0x100_0000 && h.shoff < 0x100_0000
  }

  lemma PhdrEncodes(enc: Enc, p: Phdr)
    requires enc.class_.Elf64? && SmallPhdr(p)
    ensures WritePhdr(enc, p).Ok?
  {
    Pow256Widths();
  }

  lemma ShdrEncodes(enc: Enc, s: Shdr)
    requires enc.class_.Elf64? && SmallShdr(s)
    ensures WriteShdr(enc, s).Ok?
  {
    Pow256Widths();
  }

  lemma EhdrEncodes(enc: Enc, h: Ehdr, phnum: nat, shnum: nat)
    requires enc.class_.Elf64? && |h.ident| == 16 && SmallEhdr(h)
    ensures WriteEhdr(enc, h, phnum, shnum).Ok?
  {
    Pow256Widths();
  }

  lemma PhdrsEncode(enc: Enc, phdrs: seq<Phdr>)
    requires enc.class_.Elf64? && forall p :: p in phdrs ==> SmallPhdr(p)
    ensures Concat(WrittenPhdrs(enc, phdrs)).Ok?
  {
    forall i | 0 <= i < |phdrs| ensures WritePhdr(enc, phdrs[i]).Ok? {
      assert phdrs[i] in phdrs;
      PhdrEncodes(enc, phdrs[i]);
    }
    ConcatOk(WrittenPhdrs(enc, phdrs));
  }

  lemma ShdrsEncode(enc: Enc, shdrs: seq<Shdr>)
    requires enc.class_.Elf64? && forall s :: s in shdrs ==> SmallShdr(s)
    ensures Concat(WrittenShdrs(enc, shdrs)).Ok?
  {
    forall i | 0 <= i < |shdrs| ensures WriteShdr(enc, shdrs[i]).Ok? {
      assert shdrs[i] in shdrs;
      ShdrEncodes(enc, shdrs[i]);
    }
    ConcatOk(WrittenShdrs(enc, shdrs));
  }

  lemma HeadersEncode(f: Image)
    requires WellShaped(f) && f.enc.class_.Elf64? && SmallEhdr(f.ehdr)
    requires (forall p :: p in f.phdrs ==> SmallPhdr(p)) && forall s :: s in f.shdrs ==> SmallShdr(s)
    ensures Headers(f).Ok?
  {
    EhdrEncodes(f.enc, f.ehdr, |f.phdrs|, |f.shdrs|);
    PhdrsEncode(f.enc, f.phdrs);
    ShdrsEncode(f.enc, f.shdrs);
  }
}
