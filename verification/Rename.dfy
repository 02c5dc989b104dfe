/** What a dynamic symbol rename keeps: every relocation and version entry follows
    its symbol, and both hash tables find exactly the renamed symbols. */
module Rename {
  import opened Bytes
  import opened Ir
  import opened Words
  import opened Reorder
  import opened SymbolNames
  import opened Symbols
  import GnuHash
  import Align
  import GnuTable
  import Relocs

  /** What `rebuild_gnu_hash` leaves in each section. */
  ghost predicate GnuSections(v: Image, w: Image, dynsym: nat, gh: nat, h: GnuHash.Header,
                              hashes: seq<u32>, old2new: seq<nat>)
    requires GnuInput(v, dynsym, gh, h, |hashes|) && |w.data| == |v.data|
  {
    var ro, size, ver := Reorders(h, hashes), SymSize(v.enc.class_), v.FindSection(GNU_VERSION);
    SymbolsFit(v, dynsym, gh, h, hashes);
    HashedConsistent(v.enc, h, hashes);
    && VersionsFit(v, ro)
    && w.data[dynsym] == Reordered(v.data[dynsym], Span(ro.symndx, size), size, ro.new2old)
    && (ver.Some? ==> w.data[ver.value] == Reordered(v.data[ver.value], Span(ro.symndx, 2), 2, ro.new2old))
    && w.data[gh] == GnuTable.RebuiltUnder(v.enc, h, v.data[gh], HashedEntries(h, hashes))
    && forall i :: 0 <= i < |v.data| && i != dynsym && Some(i) != ver && i != gh
         ==> w.data[i] == SectionRemapped(v, i, ro.symndx, old2new)
  }

  lemma GnuStageSections(v: Image, dynsym: nat, gh: nat, h: GnuHash.Header, hashes: seq<u32>, old2new: seq<nat>)
    requires Separate(v) && GnuInput(v, dynsym, gh, h, |hashes|) && VersionsFit(v, Reorders(h, hashes))
    ensures VersionsReady(v, dynsym, gh, h, hashes)
    ensures var w := GnuStage(v, dynsym, gh, h, hashes, old2new);
            Refilled(v, w) && GnuSections(v, w, dynsym, gh, h, hashes, old2new)
  {
    var ro := Reorders(h, hashes);
    SymbolsFit(v, dynsym, gh, h, hashes);
    ReorderSections(v, dynsym, ro, old2new);
    var m := AllMovedBy(v, dynsym, gh, h, hashes, old2new);
    NamesDiffer();
    assert Symbolic(v, gh) && v.SectionName(dynsym) == Some(DYNSYM);
    assert m.data[gh] == SectionRemapped(v, gh, ro.symndx, old2new) == v.data[gh];
    RefilledSeparate(v, m);
    assert m.SectionName(gh) == v.SectionName(gh);
    SymbolicNotNames(m, gh, GnuStage(v, dynsym, gh, h, hashes, old2new).data[gh]);
  }

  // ---- Symbols, versions and relocations ----

  /** Symbol `k`'s record. */
  ghost function Symbol(v: Image, dynsym: nat, nsyms: nat, k: nat): seq<byte>
    requires dynsym < |v.data| && Span(nsyms, SymSize(v.enc.class_)) <= |v.data[dynsym]| && k < nsyms
  {
    SpanBounds(k, nsyms, SymSize(v.enc.class_));
    Record(v.data[dynsym], SymSize(v.enc.class_), k)
  }

  /** Symbol `k`'s version entry, if there is a version array. */
  ghost function Version(v: Image, nsyms: nat, k: nat): Option<seq<byte>>
    requires |v.data| == |v.shdrs| && VersionsCover(v, nsyms) && k < nsyms
  {
    match v.FindSection(GNU_VERSION)
    case None => None
    case Some(i) =>
      SpanBounds(k, nsyms, 2);
      Some(Record(v.data[i], 2, k))
  }

  ghost predicate VersionsCover(v: Image, nsyms: nat)
    requires |v.data| == |v.shdrs|
  {
    var ver := v.FindSection(GNU_VERSION);
    ver.Some? ==> Span(nsyms, 2) <= |v.data[ver.value]|
  }

  lemma VersionsCoverFit(v: Image, nsyms: nat, ro: Reordering)
    requires |v.data| == |v.shdrs| && ro.symndx + |ro.new2old| == nsyms
    ensures VersionsCover(v, nsyms) <==> VersionsFit(v, ro)
  {
    SpanAdd(ro.symndx, |ro.new2old|, 2);
  }

  /** The symbol now at `k` is the one that was at its old index, version included. */
  lemma SymbolMoved(v: Image, w: Image, dynsym: nat, gh: nat, h: GnuHash.Header, hashes: seq<u32>, old2new: seq<nat>,
                    k: nat)
    requires GnuInput(v, dynsym, gh, h, |hashes|) && Refilled(v, w)
    requires GnuSections(v, w, dynsym, gh, h, hashes, old2new) && k < |hashes|
    ensures var ro := Reorders(h, hashes);
            var o := OldIndex(ro.symndx, ro.new2old, k);
            && o < |hashes| && Span(|hashes|, SymSize(v.enc.class_)) <= |w.data[dynsym]|
            && VersionsCover(v, |hashes|) && VersionsCover(w, |hashes|)
            && Symbol(w, dynsym, |hashes|, k) == Symbol(v, dynsym, |hashes|, o)
            && Version(w, |hashes|, k) == Version(v, |hashes|, o)
  {
    SymbolsFit(v, dynsym, gh, h, hashes);
    RecordAt(v, w, dynsym, Reorders(h, hashes), |hashes|, k);
    VersionAt(v, w, Reorders(h, hashes), |hashes|, k);
  }

  lemma RecordAt(v: Image, w: Image, dynsym: nat, ro: Reordering, n: nat, k: nat)
    requires dynsym < |v.data| == |w.data| && w.enc == v.enc && Within(ro.new2old)
    requires ro.symndx + |ro.new2old| == n && Span(n, SymSize(v.enc.class_)) <= |v.data[dynsym]| && k < n
    requires var size := SymSize(v.enc.class_);
             && Span(ro.symndx, size) + Span(|ro.new2old|, size) <= |v.data[dynsym]|
             && w.data[dynsym] == Reordered(v.data[dynsym], Span(ro.symndx, size), size, ro.new2old)
    ensures OldIndex(ro.symndx, ro.new2old, k) < n && Span(n, SymSize(w.enc.class_)) <= |w.data[dynsym]|
    ensures Symbol(w, dynsym, n, k) == Symbol(v, dynsym, n, OldIndex(ro.symndx, ro.new2old, k))
  {
    RecordMoved(v.data[dynsym], SymSize(v.enc.class_), ro.symndx, ro.new2old, k);
  }

  lemma VersionAt(v: Image, w: Image, ro: Reordering, n: nat, k: nat)
    requires |v.data| == |v.shdrs| && Refilled(v, w) && Within(ro.new2old) && VersionsFit(v, ro)
    requires ro.symndx + |ro.new2old| == n && k < n
    requires var ver := v.FindSection(GNU_VERSION);
             ver.Some? ==> w.data[ver.value] == Reordered(v.data[ver.value], Span(ro.symndx, 2), 2, ro.new2old)
    ensures VersionsCover(v, n) && VersionsCover(w, n) && OldIndex(ro.symndx, ro.new2old, k) < n
    ensures Version(w, n, k) == Version(v, n, OldIndex(ro.symndx, ro.new2old, k))
  {
    VersionsCoverFit(v, n, ro);
    RefilledFind(v, w, GNU_VERSION);
    var ver := v.FindSection(GNU_VERSION);
    if ver.Some? {
      RecordMoved(v.data[ver.value], 2, ro.symndx, ro.new2old, k);
    }
  }

  /** Old and new indices undo each other. */
  lemma IndexBack(ro: Reordering, old2new: seq<nat>, s: nat)
    requires Inverse(old2new, ro.new2old) && s < ro.symndx + |ro.new2old|
    ensures var k := Relocs.NewIndex(ro.symndx, old2new, s);
            k < ro.symndx + |ro.new2old| && OldIndex(ro.symndx, ro.new2old, k) == s
  {
  }

  /** Relocation `r` of section `i`. */
  ghost function Reloc(v: Image, i: nat, r: nat): seq<byte>
    requires IsReloc(v, i, r)
  {
    var stride := Relocs.Stride(v.shdrs[i].shtype, v.enc.class_).value;
    SpanBounds(r, Relocs.Count(v.data[i], stride), stride);
    Record(v.data[i], stride, r)
  }

  ghost predicate IsReloc(v: Image, i: nat, r: nat)
  {
    && i < |v.data| == |v.shdrs|
    && match Relocs.Stride(v.shdrs[i].shtype, v.enc.class_)
       case None => false
       case Some(stride) => r < Relocs.Count(v.data[i], stride)
  }

  lemma RelocWide(v: Image, i: nat, r: nat)
    requires IsReloc(v, i, r)
    ensures |Reloc(v, i, r)| >= 2 * GnuTable.WordSize(v.enc.class_)
  {
  }

  lemma RelocMoved(v: Image, w: Image, dynsym: nat, gh: nat, h: GnuHash.Header, hashes: seq<u32>, old2new: seq<nat>,
                   i: nat, r: nat)
    requires Separate(v) && GnuInput(v, dynsym, gh, h, |hashes|) && Refilled(v, w)
    requires GnuSections(v, w, dynsym, gh, h, hashes, old2new) && IsReloc(v, i, r)
    ensures IsReloc(w, i, r) && |Reloc(v, i, r)| >= 2 * GnuTable.WordSize(v.enc.class_)
    ensures Reloc(w, i, r) == Relocs.RemapRecord(v.enc, Reloc(v, i, r), h.symndx, old2new)
  {
    var ver := v.FindSection(GNU_VERSION);
    assert !Symbolic(v, i);
    assert i != dynsym && Some(i) != ver && i != gh;
    var stride := Relocs.Stride(v.shdrs[i].shtype, v.enc.class_).value;
    Relocs.TableRecord(v.enc, v.data[i], stride, h.symndx, old2new, r);
  }

  /** Every relocation keeps its type, offset and addend, and names the same symbol
      record and version entry as before; `r_info` must hold every symbol index. */
  lemma RelocationFollows(v: Image, w: Image, dynsym: nat, gh: nat, h: GnuHash.Header, hashes: seq<u32>,
                          old2new: seq<nat>, i: nat, r: nat)
    requires Separate(v) && GnuInput(v, dynsym, gh, h, |hashes|) && Refilled(v, w)
    requires GnuSections(v, w, dynsym, gh, h, hashes, old2new) && IsReloc(v, i, r)
    requires Inverse(old2new, Reorders(h, hashes).new2old) && |hashes| <= Relocs.SymLimit(v.enc.class_)
    requires |Reloc(v, i, r)| >= 2 * GnuTable.WordSize(v.enc.class_) && Relocs.Sym(v.enc, Reloc(v, i, r)) < |hashes|
    ensures IsReloc(w, i, r) && |Reloc(w, i, r)| == |Reloc(v, i, r)|
    ensures var n, a, b, word := |hashes|, Reloc(v, i, r), Reloc(w, i, r), GnuTable.WordSize(v.enc.class_);
            var s, t := Relocs.Sym(v.enc, a), Relocs.Sym(w.enc, b);
            && Relocs.Type(w.enc, b) == Relocs.Type(v.enc, a) && b[..word] == a[..word]
              && b[2 * word..] == a[2 * word..]
            && t < n && VersionsCover(v, n) && VersionsCover(w, n) && Span(n, SymSize(w.enc.class_)) <= |w.data[dynsym]|
            && Symbol(w, dynsym, n, t) == Symbol(v, dynsym, n, s) && Version(w, n, t) == Version(v, n, s)
  {
    var ro, a := Reorders(h, hashes), Reloc(v, i, r);
    RelocMoved(v, w, dynsym, gh, h, hashes, old2new, i, r);
    Relocs.RecordFollows(v.enc, a, h.symndx, old2new);
    IndexBack(ro, old2new, Relocs.Sym(v.enc, a));
    SymbolMoved(v, w, dynsym, gh, h, hashes, old2new, Relocs.NewIndex(h.symndx, old2new, Relocs.Sym(v.enc, a)));
  }

  // ---- The GNU lookup ----

  /** `hashes` are the hashes of the names. */
  ghost predicate GnuHashesOf(hashes: seq<u32>, names: seq<seq<byte>>)
  {
    |hashes| == |names| && forall i :: 0 <= i < |hashes| ==> hashes[i] == GnuHash.Hash(names[i])
  }

  /** The symbol table with its names. */
  ghost predicate NamedBy(v: Image, dynsym: nat, dynstr: nat, names: seq<seq<byte>>)
  {
    && dynsym < |v.data| && dynstr < |v.data| && HasSymbols(v.enc, SymTables(v, dynsym, dynstr), |names|)
    && names == Names(v.enc, SymTables(v, dynsym, dynstr), |names|)
  }

  /** The string table is not touched, and each symbol now has its old record's name. */
  lemma NamesMoved(v: Image, w: Image, dynsym: nat, dynstr: nat, gh: nat, h: GnuHash.Header, hashes: seq<u32>,
                   old2new: seq<nat>, names: seq<seq<byte>>)
    requires Separate(v) && GnuInput(v, dynsym, gh, h, |hashes|) && Refilled(v, w)
    requires GnuSections(v, w, dynsym, gh, h, hashes, old2new)
    requires v.FindSection(DYNSTR) == Some(dynstr) && NamedBy(v, dynsym, dynstr, names) && |names| == |hashes|
    ensures HasSymbols(w.enc, SymTables(w, dynsym, dynstr), |names|)
    ensures var ro, now := Reorders(h, hashes), Names(w.enc, SymTables(w, dynsym, dynstr), |names|);
            forall k :: 0 <= k < |names| ==>
              OldIndex(ro.symndx, ro.new2old, k) < |names| && now[k] == names[OldIndex(ro.symndx, ro.new2old, k)]
  {
    var ro := Reorders(h, hashes);
    NamesDiffer();
    var ver := v.FindSection(GNU_VERSION);
    assert Symbolic(v, dynstr) && dynstr != dynsym && Some(dynstr) != ver && dynstr != gh;
    assert w.data[dynstr] == v.data[dynstr];
    var now := Names(w.enc, SymTables(w, dynsym, dynstr), |names|);
    forall k | 0 <= k < |names|
      ensures OldIndex(ro.symndx, ro.new2old, k) < |names| && now[k] == names[OldIndex(ro.symndx, ro.new2old, k)]
    {
      SymbolMoved(v, w, dynsym, gh, h, hashes, old2new, k);
    }
  }

  /** The hashed symbols' entries carry the hashes of their names. */
  lemma EntriesHash(h: GnuHash.Header, hashes: seq<u32>, names: seq<seq<byte>>, now: seq<seq<byte>>)
    requires h.nbuckets > 0 && h.symndx <= |hashes| && GnuHashesOf(hashes, names) && |now| == |names|
    requires var ro := Reorders(h, hashes);
             forall k :: 0 <= k < |now| ==>
               OldIndex(ro.symndx, ro.new2old, k) < |names| && now[k] == names[OldIndex(ro.symndx, ro.new2old, k)]
    ensures GnuHash.Hashes(HashedEntries(h, hashes), now[h.symndx..])
  {
    var es := HashedEntries(h, hashes);
    forall j | 0 <= j < |es|
      ensures es[j].hash == GnuHash.Hash(now[h.symndx..][j])
    {
      EntryFrom(hashes[h.symndx..], h.nbuckets, j);
      assert now[h.symndx..][j] == now[h.symndx + j];
    }
  }

  /** A loader's search of the rebuilt `.gnu.hash` for any name stays inside its
      bucket's run and finds the first hashed symbol of that name exactly when there
      is one. */
  lemma GnuLookupExact(v: Image, w: Image, dynsym: nat, dynstr: nat, gh: nat, h: GnuHash.Header, hashes: seq<u32>,
                       old2new: seq<nat>, names: seq<seq<byte>>, name: seq<byte>)
    requires Separate(v) && GnuInput(v, dynsym, gh, h, |hashes|) && Refilled(v, w)
    requires GnuSections(v, w, dynsym, gh, h, hashes, old2new)
    requires v.FindSection(DYNSTR) == Some(dynstr) && NamedBy(v, dynsym, dynstr, names) && GnuHashesOf(hashes, names)
    requires h.symndx > 0 && Align.PowerOfTwo(h.maskwords) && |hashes| <= 0x1_0000_0000
    ensures |w.data[gh]| >= 16 && GnuTable.ReadHeader(w.enc, w.data[gh]) == h
    ensures HasSymbols(w.enc, SymTables(w, dynsym, dynstr), |names|)
    ensures GnuTable.ChainOff(w.enc, h) + Span(|hashes| - h.symndx, 4) <= |w.data[gh]|
    ensures var table := GnuTable.ReadTable(w.enc, w.data[gh], |hashes| - h.symndx);
            var hashed := Names(w.enc, SymTables(w, dynsym, dynstr), |names|)[h.symndx..];
            GnuHash.FirstNamed(h, hashed, name,
              GnuHash.Lookup(h, table, GnuHash.Hash(name), GnuHash.Named(h.symndx, hashed, name)))
  {
    var es := HashedEntries(h, hashes);
    HashedConsistent(v.enc, h, hashes);
    NamesMoved(v, w, dynsym, dynstr, gh, h, hashes, old2new, names);
    var now := Names(w.enc, SymTables(w, dynsym, dynstr), |names|);
    EntriesHash(h, hashes, names, now);
    GnuHash.EntriesGrouped(hashes[h.symndx..], h.nbuckets);
    GnuTable.ReadRebuilt(v.enc, v.data[gh], es);
    GnuHash.LookupExact(h, es, now[h.symndx..], name);
  }
}
