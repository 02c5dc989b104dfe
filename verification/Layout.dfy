/** The layout engine's decisions (src/layout.rs) as functions of an image: what
    is relocated, where it goes, and the image that results. The methods that
    carry them out in place are in module `LayoutOps`. */
module Layout {
  import opened Bytes
  import opened Ir
  import opened Codec
  import opened Align
  import opened Serialize

  const STUB_CODE_OFFSET: nat := 16

  // ---- Index lists ----

  /** The positions of `true`, ascending. */
  function Indices(bs: seq<bool>): seq<nat>
  {
    if bs == [] then []
    else Indices(bs[..|bs| - 1]) + if bs[|bs| - 1] then [|bs| - 1] else []
  }

  predicate Distinct(s: seq<nat>)
  {
    forall i, j :: 0 <= i < j < |s| ==> s[i] != s[j]
  }

  lemma {:induction false} IndicesBounded(bs: seq<bool>, k: nat)
    requires k < |Indices(bs)|
    ensures Indices(bs)[k] < |bs| && bs[Indices(bs)[k]]
  {
    var init := bs[..|bs| - 1];
    if k < |Indices(init)| {
      IndicesBounded(init, k);
    }
  }

  lemma {:induction false} IndicesComplete(bs: seq<bool>, x: nat)
    requires x < |bs| && bs[x]
    ensures x in Indices(bs)
  {
    if x < |bs| - 1 {
      IndicesComplete(bs[..|bs| - 1], x);
    }
  }

  lemma {:induction false} IndicesAscend(bs: seq<bool>, i: nat, j: nat)
    requires i < j < |Indices(bs)|
    ensures Indices(bs)[i] < Indices(bs)[j]
  {
    var init := bs[..|bs| - 1];
    if j < |Indices(init)| {
      IndicesAscend(init, i, j);
    } else {
      IndicesBounded(init, i);
    }
  }

  lemma IndicesFacts(bs: seq<bool>)
    ensures forall x :: x in Indices(bs) <==> 0 <= x < |bs| && bs[x]
    ensures forall k :: 0 <= k < |Indices(bs)| ==> Indices(bs)[k] < |bs| && bs[Indices(bs)[k]]
    ensures Distinct(Indices(bs))
  {
    forall k | 0 <= k < |Indices(bs)|
      ensures Indices(bs)[k] < |bs| && bs[Indices(bs)[k]]
    {
      IndicesBounded(bs, k);
    }
    forall x | 0 <= x < |bs| && bs[x]
      ensures x in Indices(bs)
    {
      IndicesComplete(bs, x);
    }
    forall i, j | 0 <= i < j < |Indices(bs)|
      ensures Indices(bs)[i] != Indices(bs)[j]
    {
      IndicesAscend(bs, i, j);
    }
  }

  function IndexOf(s: seq<nat>, x: nat): (k: nat)
    requires x in s
    ensures k < |s| && s[k] == x
  {
    if s[0] == x then 0 else 1 + IndexOf(s[1..], x)
  }

  function Remove<T>(s: seq<T>, i: nat): seq<T>
    requires i < |s|
  {
    s[..i] + s[i + 1..]
  }

  // ---- What moves ----

  /** Final on-disk size: `.dynamic` is re-encoded from the array and never shrinks. */
  function SectionLen(img: Image, i: nat): nat
    requires WellShaped(img) && i < |img.shdrs|
  {
    if img.DynIdx() == Some(i) then Max(|img.dynamic| * DynSize(img.enc.class_), img.shdrs[i].size)
    else |img.data[i]|
  }

  predicate Resized(img: Image, i: nat)
    requires WellShaped(img) && i < |img.shdrs|
  {
    img.shdrs[i].shtype != SHT_NOBITS && SectionLen(img, i) != img.shdrs[i].size
  }

  function GrownSections(img: Image): seq<nat>
    requires WellShaped(img)
  {
    Indices(seq(|img.shdrs|, i requires 0 <= i < |img.shdrs| => Resized(img, i)))
  }

  predicate IsPrior(p: Phdr, phoff: nat)
  {
    p.ptype == PT_LOAD && p.offset == phoff
  }

  function Priors(img: Image): (r: seq<bool>)
    ensures |r| == |img.phdrs| && forall i :: 0 <= i < |r| ==> r[i] == IsPrior(img.phdrs[i], img.ehdr.phoff)
  {
    seq(|img.phdrs|, i requires 0 <= i < |img.phdrs| => IsPrior(img.phdrs[i], img.ehdr.phoff))
  }

  /** The load a previous append left behind: it starts at the program header table. */
  function PriorLoad(img: Image): (r: Option<nat>)
    ensures r.Some? ==> r.value < |img.phdrs| && IsPrior(img.phdrs[r.value], img.ehdr.phoff)
  {
    FirstTrue(Priors(img))
  }

  predicate IsStubLoad(p: Phdr, s: Shdr)
  {
    p.ptype == PT_LOAD && HasFlag(p.flags, PF_X) && p.offset == s.offset && p.vaddr == s.addr
  }

  /** The executable load covering a previous entry stub. */
  function StubLoad(img: Image): (r: Option<nat>)
    ensures r.Some? ==> r.value < |img.phdrs|
  {
    match img.FindSection(STUB)
    case None => None
    case Some(s) => FirstTrue(seq(|img.phdrs|, i requires 0 <= i < |img.phdrs| =>
                                  IsStubLoad(img.phdrs[i], img.shdrs[s])))
  }

  /** The image without the loads of a previous append region. */
  function DropPrior(img: Image, reclaim: bool): Image
  {
    if !reclaim then img
    else
      match PriorLoad(img)
      case None => img
      case Some(i) =>
        var img1 := img.(phdrs := Remove(img.phdrs, i));
        match StubLoad(img1)
        case None => img1
        case Some(x) => img1.(phdrs := Remove(img1.phdrs, x))
  }

  /** File offset at which a previous append region starts. */
  function RegionStart(img: Image, reclaim: bool): Option<nat>
  {
    if !reclaim then None
    else
      match PriorLoad(img)
      case None => None
      case Some(i) => Some(img.phdrs[i].offset)
  }

  predicate Relocates(img: Image, grown: seq<nat>, start: Option<nat>, i: nat)
    requires WellShaped(img) && i < |img.shdrs|
  {
    && img.shdrs[i].shtype != SHT_NOBITS
    && img.data[i] != []
    && (i in grown || (start.Some? && img.shdrs[i].offset >= start.value))
  }

  function RelocationFlags(img: Image, grown: seq<nat>, start: Option<nat>): (bs: seq<bool>)
    requires WellShaped(img)
    ensures |bs| == |img.shdrs|
    ensures forall i :: 0 <= i < |bs| ==> bs[i] == Relocates(img, grown, start, i)
  {
    seq(|img.shdrs|, i requires 0 <= i < |img.shdrs| => Relocates(img, grown, start, i))
  }

  // ---- The new region ----

  predicate Executable(s: Shdr)
  {
    HasFlag(s.flags, SHF_EXECINSTR)
  }

  function SecAlign(img: Image, i: nat): nat
    requires i < |img.shdrs|
    ensures SecAlign(img, i) > 0
  {
    Max(DynSize(img.enc.class_), Max(img.shdrs[i].addralign, 1))
  }

  predicate InRange(img: Image, secs: seq<nat>)
  {
    WellShaped(img) && forall k :: 0 <= k < |secs| ==> secs[k] < |img.shdrs|
  }

  /** Where the next section may start after laying out `secs` from `start`. */
  function LayoutEnd(img: Image, secs: seq<nat>, start: nat): (end: nat)
    requires InRange(img, secs)
    ensures end >= start
  {
    if secs == [] then start
    else
      var n := |secs| - 1;
      RoundUpFacts(LayoutEnd(img, secs[..n], start), SecAlign(img, secs[n]));
      RoundUp(LayoutEnd(img, secs[..n], start), SecAlign(img, secs[n])) + SectionLen(img, secs[n])
  }

  function OffsetAt(img: Image, secs: seq<nat>, start: nat, k: nat): nat
    requires InRange(img, secs) && k < |secs|
  {
    RoundUp(LayoutEnd(img, secs[..k], start), SecAlign(img, secs[k]))
  }

  function Offsets(img: Image, secs: seq<nat>, start: nat): (r: seq<nat>)
    requires InRange(img, secs)
    ensures |r| == |secs|
    ensures forall k :: 0 <= k < |secs| ==> r[k] == OffsetAt(img, secs, start, k)
  {
    seq(|secs|, k requires 0 <= k < |secs| => OffsetAt(img, secs, start, k))
  }

  /** `head` bytes for headers, then the data sections up to `dataLen`, then the
      executable ones from `dataLen` to `len`. Offsets are region-relative. */
  datatype Region = Region(sections: seq<nat>, offsets: seq<nat>, dataLen: nat, len: nat, loads: nat)

  predicate Placeable(img: Image, r: Region)
  {
    InRange(img, r.sections) && |r.offsets| == |r.sections|
  }

  function DataFlags(img: Image, flags: seq<bool>): (bs: seq<bool>)
    requires |flags| == |img.shdrs|
  {
    seq(|flags|, i requires 0 <= i < |flags| => flags[i] && !Executable(img.shdrs[i]))
  }

  function ExecFlags(img: Image, flags: seq<bool>): (bs: seq<bool>)
    requires |flags| == |img.shdrs|
  {
    seq(|flags|, i requires 0 <= i < |flags| => flags[i] && Executable(img.shdrs[i]))
  }

  function PlanFrom(img: Image, data: seq<nat>, exec: seq<nat>, head: nat, page: nat): (r: Region)
    requires InRange(img, data) && InRange(img, exec)
    ensures Placeable(img, r) && head <= r.dataLen <= r.len
  {
    var end := LayoutEnd(img, data, head);
    RoundUpFacts(end, page);
    if exec == [] then Region(data, Offsets(img, data, head), end, end, 1)
    else
      var dataLen := RoundUp(end, page);
      Region(data + exec, Offsets(img, data, head) + Offsets(img, exec, dataLen), dataLen,
             LayoutEnd(img, exec, dataLen), 2)
  }

  /** `head1` and `head2` are the header sizes with one and with two new loads. */
  function Plan(img: Image, flags: seq<bool>, head1: nat, head2: nat, page: nat): (r: Region)
    requires WellShaped(img) && |flags| == |img.shdrs|
    ensures Placeable(img, r) && r.dataLen <= r.len
  {
    var data, exec := Indices(DataFlags(img, flags)), Indices(ExecFlags(img, flags));
    IndicesFacts(DataFlags(img, flags));
    IndicesFacts(ExecFlags(img, flags));
    PlanFrom(img, data, exec, if exec == [] then head1 else head2, page)
  }

  // ---- Placing ----

  function PlacedShdr(img: Image, r: Region, off: nat, vaddr: nat, i: nat): Shdr
    requires Placeable(img, r) && i < |img.shdrs|
  {
    if i in r.sections then
      var rel := r.offsets[IndexOf(r.sections, i)];
      img.shdrs[i].(offset := off + rel, addr := vaddr + rel, size := SectionLen(img, i))
    else img.shdrs[i]
  }

  function PlacedShdrs(img: Image, r: Region, off: nat, vaddr: nat): (s: seq<Shdr>)
    requires Placeable(img, r)
    ensures |s| == |img.shdrs|
    ensures forall i :: 0 <= i < |s| ==> s[i] == PlacedShdr(img, r, off, vaddr, i)
  {
    seq(|img.shdrs|, i requires 0 <= i < |img.shdrs| => PlacedShdr(img, r, off, vaddr, i))
  }

  datatype Moved = Moved(oldAddr: nat, oldSize: nat, newAddr: nat) {
    predicate Contains(v: nat)
    {
      oldAddr <= v < oldAddr + oldSize
    }
  }

  /** The old ranges and new addresses of the first `n` relocated sections that had an address. */
  function Moves(img: Image, r: Region, vaddr: nat, n: nat): seq<Moved>
    requires Placeable(img, r) && n <= |r.sections|
  {
    if n == 0 then []
    else
      var s := img.shdrs[r.sections[n - 1]];
      Moves(img, r, vaddr, n - 1) + if s.addr == 0 then [] else [Moved(s.addr, s.size, vaddr + r.offsets[n - 1])]
  }

  function Rebase(moves: seq<Moved>, v: nat): nat
  {
    if moves == [] then v
    else if moves[0].Contains(v) then moves[0].newAddr + (v - moves[0].oldAddr)
    else Rebase(moves[1..], v)
  }

  /** Where the region sits and how its loads are described. */
  datatype Site = Site(off: nat, vaddr: nat, filesz: nat, align: nat, page: nat)

  function NewLoad(flags: u32, offset: nat, vaddr: nat, size: nat, align: nat): Phdr
  {
    Phdr(PT_LOAD, flags, offset, vaddr, vaddr, size, size, align)
  }

  function DataLoad(at: Site): Phdr
  {
    NewLoad(PF_R + PF_W, at.off, at.vaddr, at.filesz, at.align)
  }

  function ExecLoad(r: Region, at: Site): Phdr
    requires r.dataLen <= r.len
  {
    NewLoad(PF_R + PF_X, at.off + r.dataLen, at.vaddr + r.dataLen, r.len - r.dataLen, at.page)
  }

  function NewLoads(r: Region, at: Site): (s: seq<Phdr>)
    requires r.dataLen <= r.len
    ensures |s| == if r.loads == 2 then 2 else 1
  {
    if r.loads == 2 then [DataLoad(at), ExecLoad(r, at)] else [DataLoad(at)]
  }

  /** The image with the region's sections placed, its loads pushed, and the
      entry moved onto an entry stub. */
  function Emitted(img: Image, r: Region, at: Site): Image
    requires Placeable(img, r) && r.dataLen <= r.len
  {
    var shdrs := PlacedShdrs(img, r, at.off, at.vaddr);
    var placed := img.(shdrs := shdrs, phdrs := img.phdrs + NewLoads(r, at));
    match placed.FindSection(STUB)
    case Some(s) =>
      if r.loads == 2 then placed.(ehdr := img.ehdr.(entry := shdrs[s].addr + STUB_CODE_OFFSET)) else placed
    case None => placed
  }

  // ---- References that cannot be fixed up ----

  /** Some record's `width`-byte field lands in a range. */
  ghost predicate AnyField(e: Endian, data: seq<byte>, stride: nat, fo: nat, width: nat, ranges: seq<(nat, nat)>)
    requires fo + width <= stride && stride > 0
  {
    exists r :: 0 <= r < |data| / stride && FieldHits(e, data, r, stride, fo, width, ranges)
  }

  lemma RecordInside(n: nat, stride: nat, r: nat)
    requires stride > 0 && r < n / stride
    ensures 0 <= r * stride && r * stride + stride <= n
  {
    DivModFacts(n, stride);
    SlotInside(r, n / stride, stride);
  }

  predicate FieldHits(e: Endian, data: seq<byte>, r: nat, stride: nat, fo: nat, width: nat, ranges: seq<(nat, nat)>)
    requires fo + width <= stride && stride > 0 && r < |data| / stride
  {
    RecordInside(|data|, stride, r);
    Hits(ranges, Get(e, data, r * stride + fo, width))
  }

  predicate Hits(ranges: seq<(nat, nat)>, v: nat)
  {
    exists x :: x in ranges && x.0 <= v < x.0 + x.1
  }

  /** Stride, field offset and width of the address field in a table's records. */
  datatype FieldSpec = NoField | Field(stride: nat, fo: nat, width: nat)

  function AddressField(c: Class, t: u32): (f: FieldSpec)
    ensures f.Field? ==> f.fo + f.width <= f.stride && f.stride > 0
  {
    var elf64 := c.Elf64?;
    if t == SHT_RELA then (if elf64 then Field(24, 0, 8) else Field(12, 0, 4))
    else if t == SHT_REL then (if elf64 then Field(16, 0, 8) else Field(8, 0, 4))
    else if t == SHT_DYNSYM || t == SHT_SYMTAB then (if elf64 then Field(24, 8, 8) else Field(16, 4, 4))
    else NoField
  }

  ghost predicate References(img: Image, i: nat, ranges: seq<(nat, nat)>)
    requires WellShaped(img) && i < |img.shdrs|
  {
    var f := AddressField(img.enc.class_, img.shdrs[i].shtype);
    HasFlag(img.shdrs[i].flags, SHF_ALLOC) && f.Field?
      && AnyField(img.enc.endian, img.data[i], f.stride, f.fo, f.width, ranges)
  }

  /** No loaded relocation target or symbol value lies in a range. */
  ghost predicate NoAddressRefs(img: Image, ranges: seq<(nat, nat)>)
    requires WellShaped(img)
  {
    ranges == [] || forall i :: 0 <= i < |img.shdrs| ==> !References(img, i, ranges)
  }

  /** The old address ranges of the first `n` sections that had an address. */
  function OldRanges(img: Image, secs: seq<nat>, n: nat): seq<(nat, nat)>
    requires InRange(img, secs) && n <= |secs|
  {
    if n == 0 then []
    else
      var s := img.shdrs[secs[n - 1]];
      OldRanges(img, secs, n - 1) + if s.addr == 0 then [] else [(s.addr, s.size)]
  }

  // ---- Following the moves ----

  datatype Extent = Extent(offset: nat, addr: nat, size: nat)

  function ExtentOf(s: Shdr): Extent
  {
    Extent(s.offset, s.addr, s.size)
  }

  function SetSegment(p: Phdr, x: Extent): Phdr
  {
    p.(offset := x.offset, vaddr := x.addr, paddr := x.addr, filesz := x.size, memsz := x.size)
  }

  function SectionExtent(img: Image, s: Option<nat>): Option<Extent>
    requires s.Some? ==> s.value < |img.shdrs|
  {
    match s
    case None => None
    case Some(i) => Some(ExtentOf(img.shdrs[i]))
  }

  /** What each kind of segment must frame, if anything. */
  function Target(img: Image, phdrVaddr: nat, t: u32): Option<Extent>
  {
    if t == PT_PHDR then Some(Extent(img.ehdr.phoff, phdrVaddr, |img.phdrs| * PhdrSize(img.enc.class_)))
    else if t == PT_INTERP then SectionExtent(img, img.FindSection(INTERP))
    else if t == PT_DYNAMIC then SectionExtent(img, img.DynIdx())
    else if t == PT_MIPS_ABIFLAGS then SectionExtent(img, img.FindSection(ABIFLAGS))
    else None
  }

  /** What segment `i` must frame, the ld-cache note included. */
  function TargetAt(img: Image, note: Option<nat>, phdrVaddr: nat, i: nat): Option<Extent>
    requires i < |img.phdrs|
  {
    var x := Target(img, phdrVaddr, img.phdrs[i].ptype);
    if x.Some? then x
    else if note == Some(i) then SectionExtent(img, img.FindSection(LDCACHE))
    else None
  }

  function SyncedPhdr(img: Image, note: Option<nat>, phdrVaddr: nat, i: nat): Phdr
    requires i < |img.phdrs|
  {
    match TargetAt(img, note, phdrVaddr, i)
    case None => img.phdrs[i]
    case Some(x) => SetSegment(img.phdrs[i], x)
  }

  function SyncedPhdrs(img: Image, note: Option<nat>, phdrVaddr: nat): (s: seq<Phdr>)
    ensures |s| == |img.phdrs|
    ensures forall i :: 0 <= i < |s| ==> s[i] == SyncedPhdr(img, note, phdrVaddr, i)
  {
    seq(|img.phdrs|, i requires 0 <= i < |img.phdrs| => SyncedPhdr(img, note, phdrVaddr, i))
  }

  /** The `PT_NOTE` at the ld-cache note's file offset. */
  function LdcacheNote(img: Image): (r: Option<nat>)
    ensures r.Some? ==> r.value < |img.phdrs| && img.phdrs[r.value].ptype == PT_NOTE
    ensures r.Some? ==> img.FindSection(LDCACHE).Some?
  {
    match img.FindSection(LDCACHE)
    case None => None
    case Some(s) =>
      FirstTrue(seq(|img.phdrs|, i requires 0 <= i < |img.phdrs| =>
        img.phdrs[i].ptype == PT_NOTE && img.phdrs[i].offset == img.shdrs[s].offset))
  }

  const MOVED_TAGS: seq<i64> := [
    DT_HASH, DT_PLTGOT, DT_STRTAB, DT_SYMTAB, DT_RELA, DT_REL, DT_JMPREL, DT_VERSYM, DT_VERNEED, DT_VERDEF,
    DT_GNU_HASH, DT_RELR, DT_INIT, DT_FINI, DT_INIT_ARRAY, DT_FINI_ARRAY, DT_PREINIT_ARRAY, DT_MIPS_XHASH]

  function SectionAddr(img: Image, s: Option<nat>): nat
    requires s.Some? ==> s.value < |img.shdrs|
  {
    match s
    case None => 0
    case Some(i) => img.shdrs[i].addr
  }

  /** The wrapped distance from the tag's own slot `j` to `.rld_map`, or 0 without one. */
  function RldMapRel(img: Image, j: nat): nat
  {
    match img.FindSection(RLD_MAP)
    case None => 0
    case Some(s) =>
      (img.shdrs[s].addr - j * DynSize(img.enc.class_) - SectionAddr(img, img.DynIdx())) % Limit(img.enc.class_)
  }

  function FixedEntry(img: Image, moves: seq<Moved>, j: nat): DynEntry
    requires j < |img.dynamic|
  {
    var d := img.dynamic[j];
    if d.tag in MOVED_TAGS then d.(val := Rebase(moves, d.val))
    else if d.tag == DT_MIPS_RLD_MAP_REL then d.(val := RldMapRel(img, j))
    else if d.tag == DT_STRSZ then
      match img.FindSection(DYNSTR)
      case None => d
      case Some(s) => d.(val := img.shdrs[s].size)
    else d
  }

  function FixedDynamic(img: Image, moves: seq<Moved>): (r: seq<DynEntry>)
    ensures |r| == |img.dynamic|
    ensures forall j :: 0 <= j < |r| ==> r[j] == FixedEntry(img, moves, j)
  {
    seq(|img.dynamic|, j requires 0 <= j < |img.dynamic| => FixedEntry(img, moves, j))
  }

  /** `DT_MIPS_RLD_MAP_REL` alone, as the in-place path recomputes it. */
  function RldFixed(img: Image): (r: seq<DynEntry>)
    ensures |r| == |img.dynamic|
  {
    seq(|img.dynamic|, j requires 0 <= j < |img.dynamic| =>
      if img.dynamic[j].tag == DT_MIPS_RLD_MAP_REL then img.dynamic[j].(val := RldMapRel(img, j)) else img.dynamic[j])
  }

  function Zeros(n: nat): (b: seq<byte>)
    ensures |b| == n
  {
    seq(n, i => 0)
  }

  /** The encoded dynamic array, zero-padded to its section's size. */
  function PaddedDynamic(img: Image, want: nat): (r: Result<seq<byte>>)
    ensures r.Ok? ==> |r.value| >= want
  {
    match Concat(WrittenDyns(img.enc, img.dynamic))
    case Err(e) => Err(SerializeError)
    case Ok(b) => Ok(b + Zeros(if want < |b| then 0 else want - |b|))
  }

  function SyncedDynamic(img: Image): (r: Result<Image>)
    requires WellShaped(img)
    ensures r.Ok? ==> WellShaped(r.value)
  {
    match img.DynIdx()
    case None => Ok(img)
    case Some(d) =>
      match PaddedDynamic(img, img.shdrs[d].size)
      case Err(e) => Err(SerializeError)
      case Ok(b) => Ok(img.(data := img.data[d := b]))
  }

  /** Segments, tags and the dynamic section brought in line with the new addresses. */
  function Finished(img: Image, note: Option<nat>, phdrVaddr: nat, moves: seq<Moved>): (r: Result<Image>)
    requires WellShaped(img)
    ensures r.Ok? ==> WellShaped(r.value)
  {
    SyncedDynamic(img.(phdrs := SyncedPhdrs(img, note, phdrVaddr), dynamic := FixedDynamic(img, moves)))
  }

  // ---- Both layouts: place, push, rotate, bring in line ----

  datatype Geometry = Geometry(region: Region, at: Site, phoff: nat, shoff: nat, total: nat)

  /** The address of the program header table inside the region. */
  function PhdrVaddr(g: Geometry): nat
  {
    if g.phoff < g.at.off then g.at.vaddr else g.at.vaddr + (g.phoff - g.at.off)
  }

  function FirstLoad(phdrs: seq<Phdr>): (r: nat)
    ensures r <= |phdrs|
    ensures r < |phdrs| ==> phdrs[r].ptype == PT_LOAD || r == 0
  {
    match FirstTrue(seq(|phdrs|, i requires 0 <= i < |phdrs| => phdrs[i].ptype == PT_LOAD))
    case None => 0
    case Some(i) => i
  }

  /** The last `n` entries moved in front of the first load. */
  function Rotated(phdrs: seq<Phdr>, n: nat): (s: seq<Phdr>)
    requires n <= |phdrs| - FirstLoad(phdrs)
    ensures |s| == |phdrs|
  {
    var f := FirstLoad(phdrs);
    phdrs[..f] + phdrs[|phdrs| - n..] + phdrs[f..|phdrs| - n]
  }

  lemma FirstLoadBeforePushed(phdrs: seq<Phdr>, loads: seq<Phdr>)
    requires loads != [] && loads[0].ptype == PT_LOAD
    ensures FirstLoad(phdrs + loads) <= |phdrs|
  {
    var all := phdrs + loads;
    var bs := seq(|all|, i requires 0 <= i < |all| => all[i].ptype == PT_LOAD);
    assert bs[|phdrs|];
  }

  /** The image after the region's loads are in their final table positions. */
  function Pushed(img: Image, g: Geometry, front: bool): (r: Image)
    requires Placeable(img, g.region) && g.region.dataLen <= g.region.len
    ensures WellShaped(r)
  {
    var e := Emitted(img, g.region, g.at);
    FirstLoadBeforePushed(img.phdrs, NewLoads(g.region, g.at));
    if front then e.(phdrs := Rotated(e.phdrs, |NewLoads(g.region, g.at)|)) else e
  }

  /** The final image of a layout, `img` already carrying its tables' offsets. */
  function Arranged(img: Image, g: Geometry, note: Option<nat>, front: bool): (r: Result<Image>)
    requires Placeable(img, g.region) && g.region.dataLen <= g.region.len
    ensures r.Ok? ==> WellShaped(r.value)
  {
    Finished(Pushed(img, g, front), note, PhdrVaddr(g), Moves(img, g.region, g.at.vaddr, |g.region.sections|))
  }

  // ---- Append: a new region past everything else ----

  /** The largest alignment any header asks for, at least a page. */
  function MaxAlign(phdrs: seq<Phdr>, page: nat): (a: nat)
    ensures a >= page
  {
    if phdrs == [] then page else Max(MaxAlign(phdrs[..|phdrs| - 1], page), phdrs[|phdrs| - 1].align)
  }

  /** The end of the highest segment in memory. */
  function MaxEnd(phdrs: seq<Phdr>): nat
  {
    if phdrs == [] then 0
    else Max(MaxEnd(phdrs[..|phdrs| - 1]), phdrs[|phdrs| - 1].vaddr + phdrs[|phdrs| - 1].memsz)
  }

  /** The lowest address of any of the loads. */
  function MinVaddr(loads: seq<Phdr>): nat
    requires loads != []
  {
    if |loads| == 1 then loads[0].vaddr
    else
      var m := MinVaddr(loads[..|loads| - 1]);
      if loads[|loads| - 1].vaddr < m then loads[|loads| - 1].vaddr else m
  }

  function BaseVaddr(loads: seq<Phdr>): nat
  {
    if loads == [] then 0 else MinVaddr(loads)
  }

  function AppendPhtSize(img: Image, n: nat): nat
  {
    RoundUp((|img.phdrs| + n) * PhdrSize(img.enc.class_) + img.ehdr.ehsize, DynSize(img.enc.class_))
  }

  function ShtSize(img: Image): nat
  {
    RoundUp(|img.shdrs| * ShdrSize(img.enc.class_), DynSize(img.enc.class_))
  }

  function AppendRegion(img: Image, flags: seq<bool>, page: nat): (r: Region)
    requires WellShaped(img) && |flags| == |img.shdrs|
    ensures Placeable(img, r) && r.dataLen <= r.len
  {
    Plan(img, flags, AppendPhtSize(img, 1) + ShtSize(img), AppendPhtSize(img, 2) + ShtSize(img), page)
  }

  /** First file offset past the kept content whose address lies past every segment. */
  function AppendOffset(img: Image, cut: nat, page: nat): nat
  {
    var align := MaxAlign(img.phdrs, page);
    var startPage := RoundUp(MaxEnd(img.phdrs), align);
    var base := BaseVaddr(Loads(img.phdrs));
    RoundUp(Max(cut, if startPage < base then 0 else startPage - base), align)
  }

  function AppendGeometry(img: Image, flags: seq<bool>, cut: nat, page: nat): (g: Geometry)
    requires WellShaped(img) && |flags| == |img.shdrs|
    ensures Placeable(img, g.region) && g.region.dataLen <= g.region.len
  {
    var r := AppendRegion(img, flags, page);
    var off := AppendOffset(img, cut, page);
    var vaddr := BaseVaddr(Loads(img.phdrs)) + off;
    Geometry(r, Site(off, vaddr, r.dataLen, MaxAlign(img.phdrs, page), page),
             off, off + AppendPhtSize(img, r.loads), off + r.len + 1)
  }

  function WithTables(img: Image, g: Geometry): Image
  {
    img.(ehdr := img.ehdr.(phoff := g.phoff, shoff := g.shoff))
  }

  /** The appended image: `img` has already dropped a previous region. */
  ghost function Appended(img: Image, flags: seq<bool>, cut: nat, page: nat): (r: Result<Image>)
    requires WellShaped(img) && |flags| == |img.shdrs|
    ensures r.Ok? ==> WellShaped(r.value)
  {
    var g := AppendGeometry(img, flags, cut, page);
    if !NoAddressRefs(img, OldRanges(img, g.region.sections, |g.region.sections|)) then Err(UnsupportedError)
    else Arranged(WithTables(img, g), g, LdcacheNote(img), false)
  }

  // ---- Prepend: a new region in front, everything else moved up ----

  function ShiftedPhdrs(phdrs: seq<Phdr>, shift: nat): (s: seq<Phdr>)
    ensures |s| == |phdrs|
    ensures forall i :: 0 <= i < |s| ==> s[i] == phdrs[i].(offset := phdrs[i].offset + shift)
  {
    seq(|phdrs|, i requires 0 <= i < |phdrs| => phdrs[i].(offset := phdrs[i].offset + shift))
  }

  function ShiftedShdrs(shdrs: seq<Shdr>, shift: nat): (s: seq<Shdr>)
    ensures |s| == |shdrs|
    ensures forall i :: 0 <= i < |s| ==> s[i] == shdrs[i].(offset := shdrs[i].offset + shift)
  {
    seq(|shdrs|, i requires 0 <= i < |shdrs| => shdrs[i].(offset := shdrs[i].offset + shift))
  }

  function Shifted(img: Image, shift: nat): (r: Image)
    ensures WellShaped(img) ==> WellShaped(r)
  {
    img.(phdrs := ShiftedPhdrs(img.phdrs, shift), shdrs := ShiftedShdrs(img.shdrs, shift))
  }

  function PrependPhtSize(img: Image, n: nat): nat
  {
    img.ehdr.ehsize + (|img.phdrs| + n) * PhdrSize(img.enc.class_)
  }

  function PrependHead(img: Image, n: nat, keepTail: bool): nat
  {
    RoundUp(PrependPhtSize(img, n), DynSize(img.enc.class_)) + if keepTail then ShtSize(img) else 0
  }

  function PrependRegion(img: Image, flags: seq<bool>, page: nat, keepTail: bool): (r: Region)
    requires WellShaped(img) && |flags| == |img.shdrs|
    ensures Placeable(img, r) && r.dataLen <= r.len
  {
    Plan(img, flags, PrependHead(img, 1, keepTail), PrependHead(img, 2, keepTail), page)
  }

  /** How far the input moves up: whole segments' worth of region. */
  function PrependShift(img: Image, flags: seq<bool>, page: nat, keepTail: bool): nat
    requires WellShaped(img) && |flags| == |img.shdrs|
  {
    RoundUp(PrependRegion(img, flags, page, keepTail).len, MaxAlign(Loads(img.phdrs), page))
  }

  /** Room for the region below an aligned image base. */
  predicate CanPrepend(img: Image, flags: seq<bool>, page: nat, keepTail: bool)
    requires WellShaped(img) && |flags| == |img.shdrs| && page > 0
  {
    var loads := Loads(img.phdrs);
    && loads != []
    && MinVaddr(loads) % MaxAlign(loads, page) == 0
    && PrependShift(img, flags, page, keepTail) <= MinVaddr(loads)
  }

  /** The region in front of a base address, and where the tables go. */
  function PrependSite(img: Image, r: Region, base: nat, align: nat, shift: nat, origLen: nat, page: nat,
                       keepTail: bool): Geometry
    requires shift <= base
  {
    var tables := if keepTail then PrependPhtSize(img, r.loads) else origLen + shift;
    var shoff := RoundUp(tables, DynSize(img.enc.class_));
    Geometry(r, Site(0, base - shift, if r.loads == 1 then shift else r.dataLen, align, page),
             img.ehdr.ehsize, shoff,
             if keepTail then origLen + shift else shoff + |img.shdrs| * ShdrSize(img.enc.class_))
  }

  function PrependGeometry(img: Image, flags: seq<bool>, origLen: nat, page: nat, keepTail: bool): (g: Geometry)
    requires WellShaped(img) && |flags| == |img.shdrs| && page > 0
    requires CanPrepend(img, flags, page, keepTail)
    ensures Placeable(img, g.region) && g.region.dataLen <= g.region.len
  {
    var loads := Loads(img.phdrs);
    var r := PrependRegion(img, flags, page, keepTail);
    var shift := PrependShift(img, flags, page, keepTail);
    PrependSite(img, r, MinVaddr(loads), MaxAlign(loads, page), shift, origLen, page, keepTail)
  }

  /** The prepended image: `img` has already dropped a previous append region. */
  ghost function Prepended(img: Image, flags: seq<bool>, origLen: nat, page: nat, keepTail: bool): (r: Result<Image>)
    requires WellShaped(img) && |flags| == |img.shdrs| && page > 0 && CanPrepend(img, flags, page, keepTail)
    ensures r.Ok? ==> WellShaped(r.value)
  {
    var g := PrependGeometry(img, flags, origLen, page, keepTail);
    var shift := PrependShift(img, flags, page, keepTail);
    if !NoAddressRefs(img, OldRanges(img, g.region.sections, |g.region.sections|)) then Err(UnsupportedError)
    else Arranged(WithTables(Shifted(img, shift), g), g, LdcacheNote(img), true)
  }
}
