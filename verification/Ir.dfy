/** The arch-agnostic ELF model (src/ir.rs): header records with offsets,
    addresses and sizes widened to unbounded naturals, the immutable snapshot
    `Image`, and the mutable object `ElfImage` that the operations edit. */
module Ir {
  import opened Bytes

  datatype Option<+T> = None | Some(value: T)

  datatype Error = ParseError | UnsupportedError | MissingError | ConstraintError | SerializeError | CliError

  datatype Result<+T> = Ok(value: T) | Err(error: Error)

  datatype Class = Elf32 | Elf64
  datatype Enc = Enc(class_: Class, endian: Endian)

  datatype Ehdr = Ehdr(
    eType: u16, machine: u16, version: u32, entry: nat, phoff: nat, shoff: nat, flags: u32,
    ehsize: u16, phentsize: u16, shentsize: u16, shstrndx: u32, ident: seq<byte>)

  datatype Phdr = Phdr(
    ptype: u32, flags: u32, offset: nat, vaddr: nat, paddr: nat, filesz: nat, memsz: nat, align: nat)

  datatype Shdr = Shdr(
    name: u32, shtype: u32, flags: nat, addr: nat, offset: nat, size: nat, link: u32, info: u32,
    addralign: nat, entsize: nat)

  datatype DynEntry = DynEntry(tag: i64, val: nat)

  const SHT_PROGBITS: u32 := 1
  const SHT_SYMTAB: u32 := 2
  const SHT_STRTAB: u32 := 3
  const SHT_RELA: u32 := 4
  const SHT_DYNAMIC: u32 := 6
  const SHT_NOTE: u32 := 7
  const SHT_NOBITS: u32 := 8
  const SHT_REL: u32 := 9
  const SHT_DYNSYM: u32 := 11

  const SHF_ALLOC: nat := 2
  const SHF_EXECINSTR: nat := 4

  const ET_EXEC: u16 := 2
  const ET_DYN: u16 := 3

  const PT_LOAD: u32 := 1
  const PT_DYNAMIC: u32 := 2
  const PT_INTERP: u32 := 3
  const PT_NOTE: u32 := 4
  const PT_PHDR: u32 := 6
  const PT_MIPS_ABIFLAGS: u32 := 0x7000_0003

  const PF_X: u32 := 1
  const PF_W: u32 := 2
  const PF_R: u32 := 4

  const DT_NULL: i64 := 0
  const DT_NEEDED: i64 := 1
  const DT_PLTGOT: i64 := 3
  const DT_HASH: i64 := 4
  const DT_STRTAB: i64 := 5
  const DT_SYMTAB: i64 := 6
  const DT_RELA: i64 := 7
  const DT_STRSZ: i64 := 10
  const DT_INIT: i64 := 12
  const DT_FINI: i64 := 13
  const DT_SONAME: i64 := 14
  const DT_RPATH: i64 := 15
  const DT_REL: i64 := 17
  const DT_JMPREL: i64 := 23
  const DT_INIT_ARRAY: i64 := 25
  const DT_FINI_ARRAY: i64 := 26
  const DT_RUNPATH: i64 := 29
  const DT_PREINIT_ARRAY: i64 := 32
  const DT_RELR: i64 := 36
  const DT_GNU_HASH: i64 := 0x6fff_fef5
  const DT_VERSYM: i64 := 0x6fff_fff0
  const DT_VERDEF: i64 := 0x6fff_fffc
  const DT_VERNEED: i64 := 0x6fff_fffe
  const DT_MIPS_RLD_MAP_REL: i64 := 0x7000_0035
  const DT_MIPS_XHASH: i64 := 0x7000_0036

  /** Whether the power of two `bit` is set in a flag word. */
  predicate HasFlag(flags: nat, bit: nat)
    requires bit > 0
  {
    flags / bit % 2 == 1
  }

  function Ascii(s: string): (b: seq<byte>)
    ensures |b| == |s|
  {
    seq(|s|, i requires 0 <= i < |s| => s[i] as int % 0x100)
  }

  const INTERP: seq<byte> := Ascii(".interp")
  const DYNSTR: seq<byte> := Ascii(".dynstr")
  const ABIFLAGS: seq<byte> := Ascii(".MIPS.abiflags")
  const LDCACHE: seq<byte> := Ascii(".note.nixos.ldcache")
  const RLD_MAP: seq<byte> := Ascii(".rld_map")
  const BUN: seq<byte> := Ascii(".bun")
  const STUB: seq<byte> := Ascii(".formatelf.entry")

  /** Index of the first `true`. */
  function FirstTrue(bs: seq<bool>): (r: Option<nat>)
    ensures r.Some? ==> r.value < |bs| && bs[r.value] && forall j :: 0 <= j < r.value ==> !bs[j]
    ensures r.None? ==> forall j :: 0 <= j < |bs| ==> !bs[j]
  {
    if bs == [] then None
    else if bs[0] then Some(0)
    else match FirstTrue(bs[1..])
      case None => None
      case Some(i) => Some(i + 1)
  }

  lemma {:induction false} FirstTrueIs(bs: seq<bool>, i: nat)
    requires i < |bs| && bs[i] && forall j :: 0 <= j < i ==> !bs[j]
    ensures FirstTrue(bs) == Some(i)
  {
    match FirstTrue(bs) {
      case None =>
      case Some(k) =>
    }
  }

  /** Position of the first segment of a type. */
  function FindPhdr(phdrs: seq<Phdr>, t: u32): (r: Option<nat>)
    ensures r.Some? ==> r.value < |phdrs| && phdrs[r.value].ptype == t
    ensures r.None? ==> forall i :: 0 <= i < |phdrs| ==> phdrs[i].ptype != t
  {
    var bs := seq(|phdrs|, i requires 0 <= i < |phdrs| => phdrs[i].ptype == t);
    assert forall i :: 0 <= i < |phdrs| ==> bs[i] == (phdrs[i].ptype == t);
    FirstTrue(bs)
  }

  lemma FindPhdrIs(phdrs: seq<Phdr>, t: u32, p: nat)
    requires p < |phdrs| && phdrs[p].ptype == t && forall i :: 0 <= i < p ==> phdrs[i].ptype != t
    ensures FindPhdr(phdrs, t) == Some(p)
  {
    FirstTrueIs(seq(|phdrs|, i requires 0 <= i < |phdrs| => phdrs[i].ptype == t), p);
  }

  /** Position of the first `SHT_DYNAMIC` section. */
  function FirstDynamic(shdrs: seq<Shdr>): (r: Option<nat>)
    ensures r.Some? ==> r.value < |shdrs| && shdrs[r.value].shtype == SHT_DYNAMIC
  {
    FirstTrue(seq(|shdrs|, i requires 0 <= i < |shdrs| => shdrs[i].shtype == SHT_DYNAMIC))
  }

  /** It depends on the sections' types alone. */
  lemma SameFirstDynamic(a: seq<Shdr>, b: seq<Shdr>)
    requires |a| == |b| && forall i :: 0 <= i < |a| ==> a[i].shtype == b[i].shtype
    ensures FirstDynamic(a) == FirstDynamic(b)
  {
    assert seq(|a|, i requires 0 <= i < |a| => a[i].shtype == SHT_DYNAMIC)
        == seq(|b|, i requires 0 <= i < |b| => b[i].shtype == SHT_DYNAMIC);
  }

  lemma FirstDynamicFacts(shdrs: seq<Shdr>)
    ensures match FirstDynamic(shdrs)
            case None => forall i :: 0 <= i < |shdrs| ==> shdrs[i].shtype != SHT_DYNAMIC
            case Some(d) => forall i :: 0 <= i < d ==> shdrs[i].shtype != SHT_DYNAMIC
  {
    var bs := seq(|shdrs|, i requires 0 <= i < |shdrs| => shdrs[i].shtype == SHT_DYNAMIC);
    assert forall i :: 0 <= i < |shdrs| ==> bs[i] == (shdrs[i].shtype == SHT_DYNAMIC);
  }

  lemma FirstDynamicIs(shdrs: seq<Shdr>, d: nat)
    requires d < |shdrs| && shdrs[d].shtype == SHT_DYNAMIC && forall i :: 0 <= i < d ==> shdrs[i].shtype != SHT_DYNAMIC
    ensures FirstDynamic(shdrs) == Some(d)
  {
    FirstTrueIs(seq(|shdrs|, i requires 0 <= i < |shdrs| => shdrs[i].shtype == SHT_DYNAMIC), d);
  }

  /** The string table position of the NUL ending the string at `off`. */
  function NulEnd(tab: seq<byte>, off: nat): (e: nat)
    requires off <= |tab|
    ensures off <= e <= |tab|
    ensures forall i :: off <= i < e ==> tab[i] != 0
    ensures e < |tab| ==> tab[e] == 0
    decreases |tab| - off
  {
    if off == |tab| || tab[off] == 0 then off else NulEnd(tab, off + 1)
  }

  /** The NUL-terminated string at `off`; an offset past the table has none. */
  function CStr(tab: seq<byte>, off: nat): Option<seq<byte>>
  {
    if off > |tab| then None else Some(tab[off..NulEnd(tab, off)])
  }

  /** The NUL position is determined by its two defining properties. */
  lemma {:induction false} NulEndUnique(tab: seq<byte>, off: nat, e: nat)
    requires off <= e <= |tab|
    requires forall i :: off <= i < e ==> tab[i] != 0
    requires e < |tab| ==> tab[e] == 0
    ensures NulEnd(tab, off) == e
  {
    if NulEnd(tab, off) < e {
    } else if e < NulEnd(tab, off) {
    }
  }

  datatype Image = Image(
    enc: Enc, ehdr: Ehdr, phdrs: seq<Phdr>, shdrs: seq<Shdr>, data: seq<seq<byte>>, dynamic: seq<DynEntry>)
  {
    function SectionName(i: nat): Option<seq<byte>>
    {
      if ehdr.shstrndx >= |data| || i >= |shdrs| then None
      else CStr(data[ehdr.shstrndx], shdrs[i].name)
    }

    function Named(name: seq<byte>): (bs: seq<bool>)
      ensures |bs| == |shdrs|
      ensures forall i :: 0 <= i < |shdrs| ==> bs[i] == (SectionName(i) == Some(name))
    {
      seq(|shdrs|, i requires 0 <= i < |shdrs| => SectionName(i) == Some(name))
    }

    function FindSection(name: seq<byte>): (r: Option<nat>)
      ensures r.Some? ==> r.value < |shdrs| && SectionName(r.value) == Some(name)
    {
      FirstTrue(Named(name))
    }

    /** Position of the dynamic section. */
    function DynIdx(): (r: Option<nat>)
      ensures r.Some? ==> r.value < |shdrs| && shdrs[r.value].shtype == SHT_DYNAMIC
    {
      FirstDynamic(shdrs)
    }

    /** The table `.dynamic` links to, when its link names a string table. */
    function Dynstr(): Option<seq<byte>>
    {
      match DynIdx()
      case None => None
      case Some(d) =>
        var link := shdrs[d].link;
        if link < |shdrs| && link < |data| && shdrs[link].shtype == SHT_STRTAB then Some(data[link]) else None
    }
  }

  /** The `PT_LOAD` entries, in table order. */
  function Loads(phdrs: seq<Phdr>): (r: seq<Phdr>)
    ensures |r| <= |phdrs|
  {
    if phdrs == [] then []
    else Loads(phdrs[..|phdrs| - 1]) + LoadOf(phdrs[|phdrs| - 1])
  }

  function LoadOf(p: Phdr): (r: seq<Phdr>)
    ensures |r| <= 1
  {
    if p.ptype == PT_LOAD then [p] else []
  }

  lemma {:induction false} LoadsMembers(phdrs: seq<Phdr>, p: Phdr)
    ensures p in Loads(phdrs) <==> p in phdrs && p.ptype == PT_LOAD
  {
    if phdrs != [] {
      var n := |phdrs| - 1;
      LoadsMembers(phdrs[..n], p);
      assert phdrs == phdrs[..n] + [phdrs[n]];
    }
  }

  lemma {:induction false} LoadsConcat(a: seq<Phdr>, b: seq<Phdr>)
    ensures Loads(a + b) == Loads(a) + Loads(b)
    decreases |b|
  {
    if b == [] {
      assert a + b == a;
      assert Loads(a) + [] == Loads(a);
    } else {
      var b', q := b[..|b| - 1], b[|b| - 1];
      calc {
        Loads(a + b);
        { assert a + b == (a + b') + [q]; }
        Loads((a + b') + [q]);
        { LoadsSnoc(a + b', q); }
        Loads(a + b') + LoadOf(q);
        { LoadsConcat(a, b'); }
        (Loads(a) + Loads(b')) + LoadOf(q);
        { SeqAssoc(Loads(a), Loads(b'), LoadOf(q)); }
        Loads(a) + (Loads(b') + LoadOf(q));
        Loads(a) + Loads(b);
      }
    }
  }

  lemma SeqAssoc<T>(a: seq<T>, b: seq<T>, c: seq<T>)
    ensures (a + b) + c == a + (b + c)
  {
  }

  lemma LoadsSnoc(a: seq<Phdr>, q: Phdr)
    ensures Loads(a + [q]) == Loads(a) + LoadOf(q)
  {
    assert (a + [q])[..|a|] == a;
  }

  /** The mutable image the operations work on. `View` is its contents. */
  class ElfImage {
    var enc: Enc
    var ehdr: Ehdr
    var phdrs: seq<Phdr>
    var shdrs: seq<Shdr>
    var data: seq<seq<byte>>
    var dynamic: seq<DynEntry>

    constructor (v: Image)
      ensures View() == v
    {
      enc, ehdr, phdrs, shdrs, data, dynamic := v.enc, v.ehdr, v.phdrs, v.shdrs, v.data, v.dynamic;
    }

    function View(): Image
      reads this
    {
      Image(enc, ehdr, phdrs, shdrs, data, dynamic)
    }
  }
}
