/** The loadable-ELF invariants checked before a file is written (src/verify.rs). */
module Verify {
  import opened Bytes
  import opened Ir
  import opened Align
  import Sorting

  const ADDR_TAGS: seq<i64> := [
    DT_PLTGOT, DT_HASH, DT_GNU_HASH, DT_STRTAB, DT_SYMTAB, DT_RELA, DT_REL, DT_JMPREL, DT_INIT, DT_FINI,
    DT_INIT_ARRAY, DT_FINI_ARRAY, DT_PREINIT_ARRAY, DT_RELR, DT_VERDEF, DT_VERNEED, DT_VERSYM]

  const STR_TAGS: seq<i64> := [DT_NEEDED, DT_SONAME, DT_RPATH, DT_RUNPATH]

  function VaddrOf(p: Phdr): int
  {
    p.vaddr
  }

  /** Index of the first dynamic entry with this tag. */
  function DynPos(dynamic: seq<DynEntry>, tag: i64): (r: Option<nat>)
    ensures r.Some? ==> r.value < |dynamic| && dynamic[r.value].tag == tag && forall j :: 0 <= j < r.value ==>
              dynamic[j].tag != tag
    ensures r.None? ==> forall j :: 0 <= j < |dynamic| ==> dynamic[j].tag != tag
  {
    var bs := seq(|dynamic|, j requires 0 <= j < |dynamic| => dynamic[j].tag == tag);
    assert forall j :: 0 <= j < |dynamic| ==> bs[j] == (dynamic[j].tag == tag);
    FirstTrue(bs)
  }

  function DynVal(dynamic: seq<DynEntry>, tag: i64): Option<nat>
  {
    match DynPos(dynamic, tag)
    case None => None
    case Some(j) => Some(dynamic[j].val)
  }

  lemma SamePos(a: seq<DynEntry>, b: seq<DynEntry>, tag: i64)
    requires |a| == |b| && forall j :: 0 <= j < |a| ==> a[j].tag == b[j].tag
    ensures DynPos(a, tag) == DynPos(b, tag)
  {
  }

  /** The first load with the least file offset. */
  function MinOffset(loads: seq<Phdr>): (p: Phdr)
    requires loads != []
    ensures p in loads
  {
    if |loads| == 1 then loads[0]
    else
      var p := MinOffset(loads[..|loads| - 1]);
      if loads[|loads| - 1].offset < p.offset then loads[|loads| - 1] else p
  }

  predicate LoadOk(p: Phdr)
  {
    && (p.align > 1 ==> p.vaddr % p.align == p.offset % p.align)
    && !(HasFlag(p.flags, PF_W) && HasFlag(p.flags, PF_X))
    && p.filesz <= p.memsz
  }

  /** In ascending address order no load reaches into the next. */
  predicate Ascending(loads: seq<Phdr>)
  {
    forall i :: 0 <= i < |loads| - 1 ==> loads[i].vaddr + loads[i].memsz <= loads[i + 1].vaddr
  }

  predicate MemoryDisjoint(loads: seq<Phdr>)
  {
    Ascending(Sorting.Sort(loads, VaddrOf))
  }

  /** A file range inside the file range of a load. */
  predicate FileRangeIn(p: Phdr, off: nat, end: nat)
  {
    p.offset <= off && end <= p.offset + p.filesz
  }

  predicate PhtCovered(img: Image, loads: seq<Phdr>)
  {
    exists p :: p in loads && FileRangeIn(p, img.ehdr.phoff, img.ehdr.phoff + |img.phdrs| * img.ehdr.phentsize)
  }

  predicate PhdrAnchor(img: Image, loads: seq<Phdr>)
  {
    match FindPhdr(img.phdrs, PT_PHDR)
    case None => true
    case Some(i) =>
      && loads != []
      && img.phdrs[i].offset == img.ehdr.phoff
      && var base := MinOffset(loads);
      img.phdrs[i].vaddr == base.vaddr + (if img.ehdr.phoff < base.offset then 0 else img.ehdr.phoff - base.offset)
  }

  predicate FileBounds(img: Image, total: nat)
  {
    && (img.ehdr.phoff != 0 ==> img.ehdr.phoff + |img.phdrs| * img.ehdr.phentsize <= total)
    && (img.ehdr.shoff != 0 ==> img.ehdr.shoff + |img.shdrs| * img.ehdr.shentsize <= total)
    && (forall p :: p in img.phdrs ==> p.offset + p.filesz <= total)
    && (forall s :: s in img.shdrs && s.shtype != SHT_NOBITS ==> s.offset + s.size <= total)
  }

  predicate UsesLink(t: u32)
  {
    t == SHT_SYMTAB || t == SHT_DYNSYM || t == SHT_DYNAMIC || t == SHT_RELA || t == SHT_REL
  }

  predicate SectionLinks(img: Image)
  {
    |img.shdrs| == 0
    || (img.ehdr.shstrndx < |img.shdrs|
        && forall s :: s in img.shdrs && UsesLink(s.shtype) ==> s.link < |img.shdrs|)
  }

  predicate InterpOk(img: Image, loads: seq<Phdr>)
  {
    match FindPhdr(img.phdrs, PT_INTERP)
    case None => true
    case Some(i) =>
      var seg := img.phdrs[i];
      && seg.filesz != 0
      && (exists p :: p in loads && FileRangeIn(p, seg.offset, seg.offset + seg.filesz))
      && match img.FindSection(INTERP)
         case None => true
         case Some(s) =>
           && seg.offset == img.shdrs[s].offset
           && seg.filesz == img.shdrs[s].size
           && s < |img.data| && img.data[s] != []
           && img.data[s][|img.data[s]| - 1] == 0
  }

  predicate InMemory(p: Phdr, a: nat)
  {
    p.vaddr <= a < p.vaddr + p.memsz
  }

  predicate EntryOk(img: Image, loads: seq<Phdr>)
  {
    || img.ehdr.entry == 0
    || (img.ehdr.eType != ET_EXEC && img.ehdr.eType != ET_DYN)
    || exists p :: p in loads && HasFlag(p.flags, PF_X) && InMemory(p, img.ehdr.entry)
  }

  predicate Mapped(loads: seq<Phdr>, a: nat)
  {
    exists p :: p in loads && InMemory(p, a)
  }

  predicate DynamicAddrs(img: Image, loads: seq<Phdr>)
  {
    loads == [] || forall d :: d in img.dynamic && d.tag in ADDR_TAGS && d.val != 0 ==> Mapped(loads, d.val)
  }

  predicate DynstrConsistent(img: Image)
  {
    match img.FindSection(DYNSTR)
    case None => true
    case Some(i) =>
      && (DynVal(img.dynamic, DT_STRTAB).Some? ==> DynVal(img.dynamic, DT_STRTAB).value == img.shdrs[i].addr)
      && (DynVal(img.dynamic, DT_STRSZ).Some? ==> DynVal(img.dynamic, DT_STRSZ).value <= img.shdrs[i].size)
  }

  predicate StringsInTable(img: Image)
  {
    DynVal(img.dynamic, DT_STRSZ).Some? ==>
      forall d :: d in img.dynamic && d.tag in STR_TAGS ==> d.val < DynVal(img.dynamic, DT_STRSZ).value
  }

  predicate DynamicSegment(img: Image)
  {
    var seg, sec := FindPhdr(img.phdrs, PT_DYNAMIC), img.DynIdx();
    seg.Some? && sec.Some? ==>
      && img.phdrs[seg.value].vaddr == img.shdrs[sec.value].addr
      && img.phdrs[seg.value].offset == img.shdrs[sec.value].offset
  }

  /** Everything `verify::run` demands of an image about to become a file of `total` bytes. */
  predicate Accepts(img: Image, total: nat)
  {
    var loads := Loads(img.phdrs);
    && (forall p :: p in img.phdrs ==> ValidAlign(p.align))
    && (forall p :: p in loads ==> LoadOk(p))
    && MemoryDisjoint(loads)
    && PhtCovered(img, loads)
    && PhdrAnchor(img, loads)
    && FileBounds(img, total)
    && SectionLinks(img)
    && InterpOk(img, loads)
    && EntryOk(img, loads)
    && DynstrConsistent(img)
    && StringsInTable(img)
    && DynamicSegment(img)
    && DynamicAddrs(img, loads)
  }

  function Run(img: Image, total: nat): Result<()>
  {
    if Accepts(img, total) then Ok(()) else Err(ConstraintError)
  }
}
