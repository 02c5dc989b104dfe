/** Symbols and relocations through a dynamic rename (src/symbols.rs), at the places
    the gABI gives them in their sections. */
module RenamedRecords {
  import opened Bytes
  import opened Ir
  import opened Words
  import opened Reorder
  import opened SymbolNames
  import opened Symbols
  import opened Rename
  import opened RenameOps
  import opened RenameTheorems
  import AddressRefs
  import GnuHash
  import GnuTable
  import ParsedRecords
  import Relocs

  // ---- Symbols ----

  /** Symbol `k` is record `k` of the table, 24 or 16 bytes long; its name is the string
      its first four bytes say, and its version the `k`-th pair of bytes. */
  lemma SymbolPlaces(v: Image, dynsym: nat, dynstr: nat, n: nat, k: nat)
    requires Covered(v, dynsym, dynstr, n) && k < n
    ensures var b, size := v.data[dynsym], if v.enc.class_.Elf64? then 24 else 16;
            && k * size >= 0 && k * size + size <= |b|
            && SymName(v, dynsym, dynstr, n, k) == NameAt(v.data[dynstr], Get(v.enc.endian, b, k * size, 4))
            && SymRest(v, dynsym, dynstr, n, k) == b[k * size + 4..k * size + size]
    ensures match v.FindSection(GNU_VERSION)
            case None => Version(v, n, k) == None
            case Some(i) => 2 * k + 2 <= |v.data[i]| && Version(v, n, k) == Some(v.data[i][2 * k..2 * k + 2])
  {
    RecordPlace(v.data[dynsym], SymSize(v.enc.class_), n, k);
    NamePlace(v.enc, SymTables(v, dynsym, dynstr), k, k * SymSize(v.enc.class_));
    VersionPlace(v, n, k);
  }

  lemma RecordPlace(b: seq<byte>, size: nat, n: nat, k: nat)
    requires Span(n, size) <= |b| && k < n
    ensures 0 <= k * size == Span(k, size) && k * size + size <= |b|
    ensures Record(b, size, k) == b[k * size..k * size + size]
  {
    SpanBounds(k, n, size);
    SpanIsProduct(k, size);
  }

  lemma NamePlace(enc: Enc, t: Tables, k: nat, at: nat)
    requires at == Span(k, SymSize(enc.class_)) && at + SymSize(enc.class_) <= |t.sym|
    ensures NameOf(enc, t, k) == NameAt(t.str, Get(enc.endian, t.sym, at, 4))
    ensures Record(t.sym, SymSize(enc.class_), k)[4..] == t.sym[at + 4..at + SymSize(enc.class_)]
  {
    InSlice(enc.endian, t.sym, at, SymSize(enc.class_), 0, 4);
    TailOfSlice(t.sym, at, SymSize(enc.class_));
  }

  lemma TailOfSlice(b: seq<byte>, at: nat, len: nat)
    requires at + len <= |b| && 4 <= len
    ensures b[at..at + len][4..] == b[at + 4..at + len]
  {
  }

  lemma VersionPlace(v: Image, n: nat, k: nat)
    requires |v.data| == |v.shdrs| && VersionsCover(v, n) && k < n
    ensures match v.FindSection(GNU_VERSION)
            case None => Version(v, n, k) == None
            case Some(i) => 2 * k + 2 <= |v.data[i]| && Version(v, n, k) == Some(v.data[i][2 * k..2 * k + 2])
  {
    if v.FindSection(GNU_VERSION).Some? {
      RecordPlace(v.data[v.FindSection(GNU_VERSION).value], 2, n, k);
    }
  }

  // ---- Hash sections ----

  /** Word `k` of an array of words. */
  lemma WordPlace(e: Endian, b: seq<byte>, o: nat, w: nat, n: nat, k: nat)
    requires o + Span(n, w) <= |b| && k < n
    ensures 0 <= k * w && o + k * w + w <= |b| && GetWords(e, b, o, w, n)[k] == Get(e, b, o + k * w, w)
  {
    SpanBounds(k, n, w);
    SpanIsProduct(k, w);
  }

  ghost predicate WordsAt(e: Endian, b: seq<byte>, o: nat, w: nat, ws: seq<nat>)
  {
    forall k: nat :: k < |ws| ==> IsWord(e, b, o + k * w, w, ws[k])
  }

  ghost predicate IsWord(e: Endian, b: seq<byte>, o: int, w: nat, x: nat)
  {
    0 <= o && o + w <= |b| && x == Get(e, b, o, w)
  }

  lemma WordsPlaced(e: Endian, b: seq<byte>, o: nat, w: nat, n: nat)
    requires o + Span(n, w) <= |b|
    ensures WordsAt(e, b, o, w, GetWords(e, b, o, w, n))
  {
    forall k: nat | k < n ensures IsWord(e, b, o + k * w, w, GetWords(e, b, o, w, n)[k]) {
      WordPlace(e, b, o, w, n, k);
    }
  }

  /** The header of a `.gnu.hash` section: number of buckets, first hashed symbol, number
      of bloom words, and shift. */
  lemma GnuHeaderPlaces(enc: Enc, data: seq<byte>)
    requires |data| >= 16
    ensures var h := GnuTable.ReadHeader(enc, data);
            && h.nbuckets == Get(enc.endian, data, 0, 4) && h.symndx == Get(enc.endian, data, 4, 4)
            && h.maskwords == Get(enc.endian, data, 8, 4) && h.shift2 == Get(enc.endian, data, 12, 4)
            && h.wordbits == if enc.class_.Elf64? then 64 else 32
  {
  }

  lemma GnuOffsets(enc: Enc, h: GnuHash.Header)
    ensures var w := if enc.class_.Elf64? then 8 else 4;
            && GnuTable.BucketsOff(enc, h) == 16 + h.maskwords * w
            && GnuTable.ChainOff(enc, h) == 16 + h.maskwords * w + h.nbuckets * 4
  {
    SpanIsProduct(h.maskwords, GnuTable.WordSize(enc.class_));
    SpanIsProduct(h.nbuckets, 4);
  }

  /** Behind it stand the bloom words, the buckets, and the chain. */
  lemma GnuPlaces(enc: Enc, data: seq<byte>, count: nat)
    requires |data| >= 16 && GnuTable.ChainOff(enc, GnuTable.ReadHeader(enc, data)) + Span(count, 4) <= |data|
    ensures var h, t := GnuTable.ReadHeader(enc, data), GnuTable.ReadTable(enc, data, count);
            var w, buckets, chain := GnuTable.WordSize(enc.class_), GnuTable.BucketsOff(enc, h),
              GnuTable.ChainOff(enc, h);
            && |t.bloom| == h.maskwords && |t.buckets| == h.nbuckets && |t.chain| == count
            && WordsAt(enc.endian, data, 16, w, t.bloom) && WordsAt(enc.endian, data, buckets, 4, t.buckets)
            && WordsAt(enc.endian, data, chain, 4, t.chain)
  {
    var h := GnuTable.ReadHeader(enc, data);
    WordsPlaced(enc.endian, data, 16, GnuTable.WordSize(enc.class_), h.maskwords);
    WordsPlaced(enc.endian, data, GnuTable.BucketsOff(enc, h), 4, h.nbuckets);
    WordsPlaced(enc.endian, data, GnuTable.ChainOff(enc, h), 4, count);
  }

  /** A usable `.hash` section: the number of buckets, that of chain words, then both arrays. */
  lemma SysvPlaces(v: Image, i: nat, nbuckets: nat, nchain: nat)
    requires |v.data| == |v.shdrs| && SysvFound(v) == Some((i, nbuckets, nchain))
    ensures v.FindSection(Ascii(".hash")) == Some(i) && |v.data[i]| >= 8 + 4 * (nbuckets + nchain)
    ensures nbuckets == Get(v.enc.endian, v.data[i], 0, 4) && nchain == Get(v.enc.endian, v.data[i], 4, 4)
    ensures 8 + Span(nbuckets + nchain, 4) <= |v.data[i]|
            && WordsAt(v.enc.endian, v.data[i], 8, 4, GetWords(v.enc.endian, v.data[i], 8, 4, nbuckets + nchain))
  {
    SysvCounts(v, i, nbuckets, nchain);
    SysvWords(v.enc.endian, v.data[i], nbuckets + nchain);
  }

  lemma SysvWords(e: Endian, b: seq<byte>, n: nat)
    requires 8 + Span(n, 4) <= |b|
    ensures |b| >= 8 + 4 * n && WordsAt(e, b, 8, 4, GetWords(e, b, 8, 4, n))
  {
    SpanIsProduct(n, 4);
    WordsPlaced(e, b, 8, 4, n);
  }

  lemma SysvCounts(v: Image, i: nat, nbuckets: nat, nchain: nat)
    requires |v.data| == |v.shdrs| && SysvFound(v) == Some((i, nbuckets, nchain))
    ensures v.FindSection(Ascii(".hash")) == Some(i) && |v.data[i]| >= 8
    ensures nbuckets == Get(v.enc.endian, v.data[i], 0, 4) && nchain == Get(v.enc.endian, v.data[i], 4, 4)
  {
  }

  // ---- Relocations ----

  /** A relocation: `r_offset`, `r_info`, and `r_addend` if its table has any. */
  datatype Rel = Rel(offset: nat, info: nat, addend: Option<nat>)

  /** Record `r` of a relocation table: `SHT_RELA` is 4, `SHT_REL` is 9. */
  ghost function Rel64(e: Endian, t: u32, b: seq<byte>, r: nat): Option<Rel>
  {
    if t == 4 && 24 * r + 24 <= |b| then
      Some(Rel(Get(e, b, 24 * r, 8), Get(e, b, 24 * r + 8, 8), Some(Get(e, b, 24 * r + 16, 8))))
    else if t == 9 && 16 * r + 16 <= |b| then
      Some(Rel(Get(e, b, 16 * r, 8), Get(e, b, 16 * r + 8, 8), None))
    else None
  }

  ghost function Rel32(e: Endian, t: u32, b: seq<byte>, r: nat): Option<Rel>
  {
    if t == 4 && 12 * r + 12 <= |b| then
      Some(Rel(Get(e, b, 12 * r, 4), Get(e, b, 12 * r + 4, 4), Some(Get(e, b, 12 * r + 8, 4))))
    else if t == 9 && 8 * r + 8 <= |b| then
      Some(Rel(Get(e, b, 8 * r, 4), Get(e, b, 8 * r + 4, 4), None))
    else None
  }

  ghost function RelAt(v: Image, i: nat, r: nat): Option<Rel>
    requires |v.data| == |v.shdrs|
  {
    if i >= |v.shdrs| then None
    else if v.enc.class_.Elf64? then Rel64(v.enc.endian, v.shdrs[i].shtype, v.data[i], r)
    else Rel32(v.enc.endian, v.shdrs[i].shtype, v.data[i], r)
  }

  /** The symbol and the type in `r_info`. */
  function SymOf(c: Class, x: Rel): nat
  {
    if c.Elf64? then x.info / 0x1_0000_0000 else x.info / 0x100
  }

  function TypeOf(c: Class, x: Rel): nat
  {
    if c.Elf64? then x.info % 0x1_0000_0000 else x.info % 0x100
  }

  // ---- The record the rename works on ----

  /** A relocation out of its record, `w` bytes a word. */
  ghost function RelOf(e: Endian, w: nat, addend: bool, rec: seq<byte>): Rel
    requires |rec| >= (if addend then 3 * w else 2 * w)
  {
    Rel(Get(e, rec, 0, w), Get(e, rec, w, w), if addend then Some(Get(e, rec, 2 * w, w)) else None)
  }

  lemma InSlice(e: Endian, b: seq<byte>, at: nat, len: nat, o: nat, n: nat)
    requires at + len <= |b| && o + n <= len
    ensures Get(e, b[at..at + len], o, n) == Get(e, b, at + o, n)
  {
    ParsedRecords.SliceOfSlice(b, at, len, b[at..at + len], o, n);
  }

  /** A record cut from its table, field by field in the table. */
  lemma RecordFields(e: Endian, b: seq<byte>, at: nat, len: nat, w: nat, addend: bool)
    requires at + len <= |b| && (if addend then 3 * w else 2 * w) <= len
    ensures RelOf(e, w, addend, b[at..at + len])
            == Rel(Get(e, b, at, w), Get(e, b, at + w, w), if addend then Some(Get(e, b, at + 2 * w, w)) else None)
  {
    InSlice(e, b, at, len, 0, w);
    InSlice(e, b, at, len, w, w);
    if addend {
      InSlice(e, b, at, len, 2 * w, w);
    }
  }

  /** The table's shape: it holds relocations, and record `r` is one of them. */
  ghost predicate Holds(c: Class, t: u32, b: seq<byte>, r: nat)
  {
    match Relocs.Stride(t, c)
    case None => false
    case Some(stride) => r * stride + stride <= |b|
  }

  lemma RelPlace(enc: Enc, t: u32, b: seq<byte>, r: nat)
    ensures var x := if enc.class_.Elf64? then Rel64(enc.endian, t, b, r) else Rel32(enc.endian, t, b, r);
            && (x.Some? <==> Holds(enc.class_, t, b, r))
            && (x.Some? ==>
                  var stride, w := Relocs.Stride(t, enc.class_).value, GnuTable.WordSize(enc.class_);
                  && (if t == 4 then 3 * w else 2 * w) <= stride
                  && x.value == RelOf(enc.endian, w, t == 4, b[r * stride..r * stride + stride]))
  {
    if Holds(enc.class_, t, b, r) {
      var stride := Relocs.Stride(t, enc.class_).value;
      RecordFields(enc.endian, b, r * stride, stride, GnuTable.WordSize(enc.class_), t == 4);
    }
  }

  /** The records the rename rewrites are the gABI's. */
  lemma RelIsRecord(v: Image, i: nat, r: nat)
    requires |v.data| == |v.shdrs|
    ensures RelAt(v, i, r).Some? <==> IsReloc(v, i, r)
    ensures IsReloc(v, i, r) ==>
              var w := GnuTable.WordSize(v.enc.class_);
              && |RelocRecord(v, i, r)| >= (if v.shdrs[i].shtype == 4 then 3 * w else 2 * w)
              && RelAt(v, i, r) == Some(RelOf(v.enc.endian, w, v.shdrs[i].shtype == 4, RelocRecord(v, i, r)))
  {
    if i < |v.shdrs| {
      RelPlace(v.enc, v.shdrs[i].shtype, v.data[i], r);
      if Relocs.Stride(v.shdrs[i].shtype, v.enc.class_).Some? {
        var stride := Relocs.Stride(v.shdrs[i].shtype, v.enc.class_).value;
        AddressRefs.RecordCount(|v.data[i]|, stride, r);
        SpanIsProduct(r, stride);
      }
    }
  }

  /** What a rewritten record keeps. */
  lemma RecordKept(e: Endian, w: nat, addend: bool, a: seq<byte>, b: seq<byte>)
    requires |b| == |a| >= (if addend then 3 * w else 2 * w) && b[..w] == a[..w] && b[2 * w..] == a[2 * w..]
    ensures RelOf(e, w, addend, b) == RelOf(e, w, addend, a).(info := RelOf(e, w, addend, b).info)
  {
    assert b[0..w] == b[..w] && a[0..w] == a[..w];
    if addend {
      assert b[2 * w..][..w] == b[2 * w..2 * w + w] && a[2 * w..][..w] == a[2 * w..2 * w + w];
    }
  }

  lemma InfoParts(enc: Enc, addend: bool, rec: seq<byte>)
    requires |rec| >= (if addend then 3 * GnuTable.WordSize(enc.class_) else 2 * GnuTable.WordSize(enc.class_))
    ensures var x := RelOf(enc.endian, GnuTable.WordSize(enc.class_), addend, rec);
            SymOf(enc.class_, x) == Relocs.Sym(enc, rec) && TypeOf(enc.class_, x) == Relocs.Type(enc, rec)
  {
  }

  /** After a rename every relocation of every table stands at its old place and is the
      old one, type, offset and addend, but for the index of its symbol: that names the
      same symbol with the same version, renamed as the map says. */
  lemma RelocationRenamed(v: Image, w: Image, dynsym: nat, dynstr: nat, n: nat, remap: map<seq<byte>, seq<byte>>,
                          ro: Option<Reordering>, i: nat, r: nat)
    requires Input(v, dynsym, dynstr, n, remap) && SymbolsRenamed(v, w, dynsym, dynstr, remap, ro)
    requires RelAt(v, i, r).Some? && SymOf(v.enc.class_, RelAt(v, i, r).value) < n
    requires n <= if v.enc.class_.Elf64? then 0x1_0000_0000 else 0x100_0000
    ensures Covered(w, dynsym, dynstr, n) && w.shdrs == v.shdrs && w.enc == v.enc && RelAt(w, i, r).Some?
    ensures var c, a, b := v.enc.class_, RelAt(v, i, r).value, RelAt(w, i, r).value;
            && b.offset == a.offset && b.addend == a.addend && TypeOf(c, b) == TypeOf(c, a) && SymOf(c, b) < n
            && SameSymbol(v, w, dynsym, dynstr, n, remap, SymOf(c, a), SymOf(c, b))
  {
    RelIsRecord(v, i, r);
    var x, addend := RelocRecord(v, i, r), v.shdrs[i].shtype == 4;
    InfoParts(v.enc, addend, x);
    RenamedRelocation(v, w, dynsym, dynstr, n, remap, ro, i, r);
    HeadersKept(v, w, dynsym, dynstr, remap, ro);
    RelIsRecord(w, i, r);
    var y := RelocRecord(w, i, r);
    InfoParts(w.enc, addend, y);
    RecordKept(v.enc.endian, GnuTable.WordSize(v.enc.class_), addend, x, y);
  }

  lemma HeadersKept(v: Image, w: Image, dynsym: nat, dynstr: nat, remap: map<seq<byte>, seq<byte>>,
                    ro: Option<Reordering>)
    requires dynsym < |v.data| == |v.shdrs| && dynstr < |v.data| && SymbolsRenamed(v, w, dynsym, dynstr, remap, ro)
    ensures w.shdrs == v.shdrs && w.enc == v.enc && |w.data| == |w.shdrs|
  {
  }
}
