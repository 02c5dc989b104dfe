/** `rename_dynamic_symbols` on the image (src/symbols.rs): the stages it runs, and
    what holds of the image after all of them. */
module Symbols {
  import opened Bytes
  import opened Ir
  import opened Words
  import opened Reorder
  import opened SymbolNames
  import GnuHash
  import GnuTable
  import Relocs

  const DYNSYM: seq<byte> := Ascii(".dynsym")
  const GNU_HASH: seq<byte> := Ascii(".gnu.hash")
  const GNU_VERSION: seq<byte> := Ascii(".gnu.version")
  const HASH: seq<byte> := Ascii(".hash")

  /** How the hashed symbols were permuted: `new2old[k]` is the old position,
      relative to `symndx`, of the symbol now at position `k`. */
  datatype Reordering = Reordering(symndx: nat, new2old: seq<nat>)

  function SymTables(v: Image, dynsym: nat, dynstr: nat): Tables
    requires dynsym < |v.data| && dynstr < |v.data|
  {
    Tables(v.data[dynsym], v.data[dynstr])
  }

  /** The old index of the symbol now at `k`. */
  function Old(ro: Option<Reordering>, k: nat): nat
  {
    match ro case None => k case Some(r) => OldIndex(r.symndx, r.new2old, k)
  }

  // ---- The GNU stage ----

  /** The `.gnu.hash` section and its header, unless there is no usable table. */
  function GnuFound(v: Image): (r: Option<(nat, GnuHash.Header)>)
    requires |v.data| == |v.shdrs|
    ensures r.Some? ==> r.value.0 < |v.data| && |v.data[r.value.0]| >= 16 && r.value.1.nbuckets > 0
                        && r.value.1 == GnuTable.ReadHeader(v.enc, v.data[r.value.0])
                        && GnuTable.ChainOff(v.enc, r.value.1) <= |v.data[r.value.0]|
                        && v.SectionName(r.value.0) == Some(GNU_HASH)
  {
    match v.FindSection(GNU_HASH)
    case None => None
    case Some(gh) =>
      if |v.data[gh]| < 16 then None
      else
        var h := GnuTable.ReadHeader(v.enc, v.data[gh]);
        if h.nbuckets == 0 || GnuTable.ChainOff(v.enc, h) > |v.data[gh]| then None else Some((gh, h))
  }

  predicate GnuTooSmall(v: Image)
    requires |v.data| == |v.shdrs|
  {
    var f := v.FindSection(GNU_HASH);
    f.Some? && |v.data[f.value]| < 16
  }

  function HashedEntries(h: GnuHash.Header, hashes: seq<u32>): (es: seq<GnuHash.Entry>)
    requires h.nbuckets > 0 && h.symndx <= |hashes|
    ensures |es| == |hashes| - h.symndx
  {
    GnuHash.Entries(hashes[h.symndx..], h.nbuckets)
  }

  function Permutes(h: GnuHash.Header, hashes: seq<u32>): (r: seq<nat>)
    requires h.nbuckets > 0 && h.symndx <= |hashes|
    ensures |r| == |hashes| - h.symndx && forall k :: 0 <= k < |r| ==> r[k] < |r|
  {
    var es := HashedEntries(h, hashes);
    assert forall k :: 0 <= k < |es| ==> es[k].oldPos < |es| by {
      forall k | 0 <= k < |es| ensures es[k].oldPos < |es| {
        EntryFrom(hashes[h.symndx..], h.nbuckets, k);
      }
    }
    NewToOld(es)
  }

  ghost function SymbolsMoved(v: Image, dynsym: nat, ro: Reordering): Image
    requires dynsym < |v.data| && Within(ro.new2old)
    requires Span(ro.symndx, SymSize(v.enc.class_)) + Span(|ro.new2old|, SymSize(v.enc.class_)) <= |v.data[dynsym]|
  {
    var size := SymSize(v.enc.class_);
    v.(data := v.data[dynsym := Reordered(v.data[dynsym], Span(ro.symndx, size), size, ro.new2old)])
  }

  /** Every entry is an index into the list itself. */
  ghost predicate Within(new2old: seq<nat>)
  {
    forall k :: 0 <= k < |new2old| ==> new2old[k] < |new2old|
  }

  /** The version array, if any, covers the symbols. */
  ghost predicate VersionsFit(v: Image, ro: Reordering)
    requires |v.data| == |v.shdrs|
  {
    var ver := v.FindSection(GNU_VERSION);
    ver.Some? ==> Span(ro.symndx, 2) + Span(|ro.new2old|, 2) <= |v.data[ver.value]|
  }

  ghost function VersionsMoved(v: Image, ro: Reordering): Image
    requires |v.data| == |v.shdrs| && VersionsFit(v, ro) && Within(ro.new2old)
  {
    match v.FindSection(GNU_VERSION)
    case None => v
    case Some(i) => v.(data := v.data[i := Reordered(v.data[i], Span(ro.symndx, 2), 2, ro.new2old)])
  }

  /** One section after the relocation remap. */
  ghost function SectionRemapped(v: Image, i: nat, symndx: nat, old2new: seq<nat>): (d: seq<byte>)
    requires i < |v.shdrs| == |v.data|
    ensures |d| == |v.data[i]|
  {
    match Relocs.Stride(v.shdrs[i].shtype, v.enc.class_)
    case None => v.data[i]
    case Some(stride) => Relocs.RemapTable(v.enc, v.data[i], stride, symndx, old2new)
  }

  /** The same image but for same-sized section contents. */
  ghost predicate SameSizes(v: Image, w: Image)
  {
    w == v.(data := w.data) && |w.data| == |v.data| && forall i :: 0 <= i < |v.data| ==> |w.data[i]| == |v.data[i]|
  }

  ghost function RelocsMoved(v: Image, symndx: nat, old2new: seq<nat>): (w: Image)
    requires |v.data| == |v.shdrs|
    ensures SameSizes(v, w)
  {
    v.(data := seq(|v.data|, i requires 0 <= i < |v.data| => SectionRemapped(v, i, symndx, old2new)))
  }

  /** The reorder's three stages. */
  ghost function AllMoved(v: Image, dynsym: nat, ro: Reordering, old2new: seq<nat>): (w: Image)
    requires dynsym < |v.data| == |v.shdrs| && Within(ro.new2old)
    requires Span(ro.symndx, SymSize(v.enc.class_)) + Span(|ro.new2old|, SymSize(v.enc.class_)) <= |v.data[dynsym]|
    requires VersionsFit(SymbolsMoved(v, dynsym, ro), ro)
    ensures SameSizes(v, w)
  {
    RelocsMoved(VersionsMoved(SymbolsMoved(v, dynsym, ro), ro), ro.symndx, old2new)
  }

  /** What `rebuild_gnu_hash` demands of a usable table, panicking otherwise. */
  ghost predicate GnuFits(v: Image, gh: nat, h: GnuHash.Header, nsyms: nat)
    requires gh < |v.data|
  {
    && h.symndx <= nsyms && (h.symndx < nsyms ==> h.maskwords > 0 && h.shift2 < 32)
    && GnuTable.ChainOff(v.enc, h) + Span(nsyms - h.symndx, 4) <= |v.data[gh]|
  }

  // ---- Images whose tables are apart ----

  /** The sections the rename touches are not relocation tables, and none of them
      holds the section names. */
  ghost predicate Separate(v: Image)
  {
    && |v.data| == |v.shdrs|
    && (forall i :: 0 <= i < |v.shdrs| && Touched(v, i) ==> i != v.ehdr.shstrndx)
    && forall i :: 0 <= i < |v.shdrs| && Symbolic(v, i) ==> Relocs.Stride(v.shdrs[i].shtype, v.enc.class_).None?
  }

  /** Section `i` has one of the names the rename looks for. */
  predicate Symbolic(v: Image, i: nat)
  {
    var n := v.SectionName(i);
    n == Some(DYNSYM) || n == Some(DYNSTR) || n == Some(GNU_HASH) || n == Some(GNU_VERSION) || n == Some(HASH)
  }

  predicate Touched(v: Image, i: nat)
    requires i < |v.shdrs|
  {
    Symbolic(v, i) || Relocs.Stride(v.shdrs[i].shtype, v.enc.class_).Some?
  }

  lemma NamesDiffer()
    ensures DYNSYM != DYNSTR && DYNSYM != GNU_HASH && DYNSYM != GNU_VERSION && DYNSYM != HASH
    ensures DYNSTR != GNU_HASH && DYNSTR != GNU_VERSION && DYNSTR != HASH
    ensures GNU_HASH != GNU_VERSION && GNU_HASH != HASH && GNU_VERSION != HASH
  {
    assert |DYNSYM| == 7 && |DYNSTR| == 7 && |GNU_HASH| == 9 && |GNU_VERSION| == 12 && |HASH| == 5;
    assert DYNSYM[5] == 'y' as int && DYNSTR[5] == 't' as int;
  }

  /** The same headers and section names, whatever the other sections hold. */
  ghost predicate Refilled(v: Image, w: Image)
  {
    && w == v.(data := w.data) && |w.data| == |v.data|
    && (v.ehdr.shstrndx < |v.data| ==> w.data[v.ehdr.shstrndx] == v.data[v.ehdr.shstrndx])
  }

  lemma RefilledFind(v: Image, w: Image, name: seq<byte>)
    requires Refilled(v, w)
    ensures w.FindSection(name) == v.FindSection(name)
  {
    assert w.Named(name) == v.Named(name);
  }

  lemma RefilledSeparate(v: Image, w: Image)
    requires Refilled(v, w) && Separate(v)
    ensures Separate(w)
  {
    assert forall i: nat :: w.SectionName(i) == v.SectionName(i);
    forall i | 0 <= i < |w.shdrs|
      ensures Touched(w, i) == Touched(v, i) && Symbolic(w, i) == Symbolic(v, i)
    {
    }
  }

  // ---- The reorder section by section ----

  /** What the reorder leaves in each section. */
  ghost predicate MovedSections(v: Image, w: Image, dynsym: nat, ro: Reordering, old2new: seq<nat>)
    requires dynsym < |v.data| == |v.shdrs| && |w.data| == |v.data| && Within(ro.new2old)
    requires Span(ro.symndx, SymSize(v.enc.class_)) + Span(|ro.new2old|, SymSize(v.enc.class_)) <= |v.data[dynsym]|
    requires VersionsFit(v, ro)
  {
    var size, ver := SymSize(v.enc.class_), v.FindSection(GNU_VERSION);
    && w.data[dynsym] == Reordered(v.data[dynsym], Span(ro.symndx, size), size, ro.new2old)
    && (ver.Some? ==> w.data[ver.value] == Reordered(v.data[ver.value], Span(ro.symndx, 2), 2, ro.new2old))
    && forall i :: 0 <= i < |v.data| && i != dynsym && Some(i) != ver
         ==> w.data[i] == SectionRemapped(v, i, ro.symndx, old2new)
  }

  lemma SymbolicNotNames(v: Image, i: nat, d: seq<byte>)
    requires Separate(v) && i < |v.data| && Symbolic(v, i)
    ensures Refilled(v, v.(data := v.data[i := d]))
  {
    assert Touched(v, i);
  }

  lemma RelocsRefilled(v: Image, symndx: nat, old2new: seq<nat>)
    requires Separate(v)
    ensures Refilled(v, RelocsMoved(v, symndx, old2new))
  {
    var i := v.ehdr.shstrndx;
    if i < |v.data| {
      assert !Touched(v, i);
      assert RelocsMoved(v, symndx, old2new).data[i] == SectionRemapped(v, i, symndx, old2new);
    }
  }

  lemma VersionSection(v: Image, dynsym: nat)
    requires |v.data| == |v.shdrs| && v.FindSection(DYNSYM) == Some(dynsym)
    ensures Symbolic(v, dynsym)
    ensures var ver := v.FindSection(GNU_VERSION); ver.Some? ==> ver.value != dynsym && Symbolic(v, ver.value)
  {
    NamesDiffer();
  }

  lemma ReorderSections(v: Image, dynsym: nat, ro: Reordering, old2new: seq<nat>)
    requires Separate(v) && v.FindSection(DYNSYM) == Some(dynsym) && Within(ro.new2old)
    requires Span(ro.symndx, SymSize(v.enc.class_)) + Span(|ro.new2old|, SymSize(v.enc.class_)) <= |v.data[dynsym]|
    requires VersionsFit(v, ro)
    ensures VersionsFit(SymbolsMoved(v, dynsym, ro), ro)
    ensures var w := AllMoved(v, dynsym, ro, old2new);
            Refilled(v, w) && MovedSections(v, w, dynsym, ro, old2new)
  {
    VersionSection(v, dynsym);
    var v1 := SymbolsMoved(v, dynsym, ro);
    SymbolicNotNames(v, dynsym, v1.data[dynsym]);
    RefilledFind(v, v1, GNU_VERSION);
    RefilledSeparate(v, v1);
    var ver := v.FindSection(GNU_VERSION);
    var v2 := VersionsMoved(v1, ro);
    if ver.Some? {
      assert v1.SectionName(ver.value) == v.SectionName(ver.value);
      SymbolicNotNames(v1, ver.value, v2.data[ver.value]);
    }
    RefilledSeparate(v1, v2);
    RelocsRefilled(v2, ro.symndx, old2new);
    RemappedSections(v, v2, dynsym, ver, ro.symndx, old2new);
  }

  lemma RemappedSections(v: Image, v2: Image, dynsym: nat, ver: Option<nat>, symndx: nat, old2new: seq<nat>)
    requires Separate(v) && Refilled(v, v2) && dynsym < |v.data| && Symbolic(v, dynsym)
    requires ver.Some? ==> ver.value < |v.data| && Symbolic(v, ver.value)
    requires forall i :: 0 <= i < |v.data| && i != dynsym && Some(i) != ver ==> v2.data[i] == v.data[i]
    ensures var w := RelocsMoved(v2, symndx, old2new);
            && w.data[dynsym] == v2.data[dynsym] && (ver.Some? ==> w.data[ver.value] == v2.data[ver.value])
            && forall i :: 0 <= i < |v.data| && i != dynsym && Some(i) != ver
                 ==> w.data[i] == SectionRemapped(v, i, symndx, old2new)
  {
    var w := RelocsMoved(v2, symndx, old2new);
    forall i | 0 <= i < |v.data|
      ensures w.data[i] == SectionRemapped(v2, i, symndx, old2new)
    {
    }
  }

  // ---- The whole GNU stage ----

  /** What the stage is run on: the sections it finds, and what it demands of them. */
  ghost predicate GnuInput(v: Image, dynsym: nat, gh: nat, h: GnuHash.Header, nsyms: nat)
  {
    && |v.data| == |v.shdrs| && v.FindSection(DYNSYM) == Some(dynsym) && GnuFound(v) == Some((gh, h))
    && HasSymbols(v.enc, Tables(v.data[dynsym], []), nsyms) && GnuFits(v, gh, h, nsyms)
  }

  /** How `rebuild_gnu_hash` permutes the symbols. */
  function Reorders(h: GnuHash.Header, hashes: seq<u32>): (ro: Reordering)
    requires h.nbuckets > 0 && h.symndx <= |hashes|
    ensures ro.symndx == h.symndx && ro.symndx + |ro.new2old| == |hashes| && Within(ro.new2old)
  {
    Reordering(h.symndx, Permutes(h, hashes))
  }

  lemma SymbolsFit(v: Image, dynsym: nat, gh: nat, h: GnuHash.Header, hashes: seq<u32>)
    requires GnuInput(v, dynsym, gh, h, |hashes|)
    ensures var ro, size := Reorders(h, hashes), SymSize(v.enc.class_);
            Span(ro.symndx, size) + Span(|ro.new2old|, size) <= |v.data[dynsym]|
  {
    SpanAdd(h.symndx, |hashes| - h.symndx, SymSize(v.enc.class_));
  }

  ghost predicate VersionsReady(v: Image, dynsym: nat, gh: nat, h: GnuHash.Header, hashes: seq<u32>)
    requires GnuInput(v, dynsym, gh, h, |hashes|)
  {
    SymbolsFit(v, dynsym, gh, h, hashes);
    VersionsFit(SymbolsMoved(v, dynsym, Reorders(h, hashes)), Reorders(h, hashes))
  }

  lemma HashedConsistent(enc: Enc, h: GnuHash.Header, hashes: seq<u32>)
    requires h.nbuckets > 0 && h.symndx <= |hashes| && h.wordbits > 0 && (h.symndx < |hashes| ==> h.maskwords > 0)
    ensures GnuTable.Consistent(h, HashedEntries(h, hashes))
  {
    GnuHash.EntriesGrouped(hashes[h.symndx..], h.nbuckets);
  }

  /** The image after `rebuild_gnu_hash`. */
  ghost function GnuStage(v: Image, dynsym: nat, gh: nat, h: GnuHash.Header,
                          hashes: seq<u32>, old2new: seq<nat>): (w: Image)
    requires GnuInput(v, dynsym, gh, h, |hashes|) && VersionsReady(v, dynsym, gh, h, hashes)
    ensures SameSizes(v, w)
  {
    var m := AllMovedBy(v, dynsym, gh, h, hashes, old2new);
    HashedConsistent(v.enc, h, hashes);
    m.(data := m.data[gh := GnuTable.RebuiltUnder(v.enc, h, m.data[gh], HashedEntries(h, hashes))])
  }

  ghost function AllMovedBy(v: Image, dynsym: nat, gh: nat, h: GnuHash.Header,
                            hashes: seq<u32>, old2new: seq<nat>): (w: Image)
    requires GnuInput(v, dynsym, gh, h, |hashes|) && VersionsReady(v, dynsym, gh, h, hashes)
    ensures SameSizes(v, w)
  {
    SymbolsFit(v, dynsym, gh, h, hashes);
    AllMoved(v, dynsym, Reorders(h, hashes), old2new)
  }
}
