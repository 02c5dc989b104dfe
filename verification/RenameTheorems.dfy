/** A dynamic symbol rename as a whole: relocations and versions follow their
    symbols, names change as the map says, and both loaders' lookups are exact. */
module RenameTheorems {
  import opened Bytes
  import opened Ir
  import opened Words
  import opened Reorder
  import opened SymbolNames
  import opened Symbols
  import opened Rename
  import opened RenameOps
  import GnuHash
  import Align
  import GnuTable
  import SysvHash
  import Relocs

  /** An image whose symbol, string and version tables cover `n` symbols. */
  ghost predicate Covered(v: Image, dynsym: nat, dynstr: nat, n: nat)
  {
    && |v.data| == |v.shdrs| && dynsym < |v.data| && dynstr < |v.data|
    && HasSymbols(v.enc, SymTables(v, dynsym, dynstr), n) && VersionsCover(v, n)
  }

  ghost function SymName(v: Image, dynsym: nat, dynstr: nat, n: nat, k: nat): seq<byte>
    requires Covered(v, dynsym, dynstr, n) && k < n
  {
    Names(v.enc, SymTables(v, dynsym, dynstr), n)[k]
  }

  /** A symbol record without its name. */
  ghost function SymRest(v: Image, dynsym: nat, dynstr: nat, n: nat, k: nat): seq<byte>
    requires Covered(v, dynsym, dynstr, n) && k < n
  {
    Symbol(v, dynsym, n, k)[4..]
  }

  /** The operation's input: tables apart, names terminated, versions covering. */
  ghost predicate Input(v: Image, dynsym: nat, dynstr: nat, n: nat, remap: map<seq<byte>, seq<byte>>)
  {
    && Separate(v) && v.FindSection(DYNSYM) == Some(dynsym) && v.FindSection(DYNSTR) == Some(dynstr)
    && n == SymCount(v, dynsym) && Covered(v, dynsym, dynstr, n)
    && AllTerminated(v.enc, SymTables(v, dynsym, dynstr), n) && CleanValues(remap)
  }

  /** Symbol `k` of `w` is symbol `o` of `v`, renamed. */
  ghost predicate SameSymbol(v: Image, w: Image, dynsym: nat, dynstr: nat, n: nat, remap: map<seq<byte>, seq<byte>>,
                             o: nat, k: nat)
    requires Covered(v, dynsym, dynstr, n) && Covered(w, dynsym, dynstr, n) && o < n && k < n
  {
    var was := SymName(v, dynsym, dynstr, n, o);
    && SymName(w, dynsym, dynstr, n, k) == (if was in remap then remap[was] else was)
    && SymRest(w, dynsym, dynstr, n, k) == SymRest(v, dynsym, dynstr, n, o)
    && Version(w, n, k) == Version(v, n, o)
  }

  lemma NamesRefilled(v: Image, dynsym: nat, dynstr: nat, n: nat, remap: map<seq<byte>, seq<byte>>, w: Image)
    requires Input(v, dynsym, dynstr, n, remap) && NamesStage(v, dynsym, dynstr, remap) == Some(w)
    ensures Refilled(v, w) && Separate(w) && dynsym != dynstr
    ensures forall i :: 0 <= i < |v.data| && i != dynsym && i != dynstr ==> w.data[i] == v.data[i]
    ensures |w.data[dynsym]| == |v.data[dynsym]|
  {
    NamesKept(v, dynsym, dynstr, remap, w);
  }

  /** The names stage renames symbol by symbol. */
  lemma NamesStageFollows(v: Image, dynsym: nat, dynstr: nat, n: nat, remap: map<seq<byte>, seq<byte>>, w: Image,
                          k: nat)
    requires Input(v, dynsym, dynstr, n, remap) && NamesStage(v, dynsym, dynstr, remap) == Some(w) && k < n
    ensures Covered(w, dynsym, dynstr, n) && SameSymbol(v, w, dynsym, dynstr, n, remap, k, k)
  {
    NamesRefilled(v, dynsym, dynstr, n, remap, w);
    var t := SymTables(v, dynsym, dynstr);
    var names := Names(v.enc, t, n);
    RenamedFollow(v.enc, t, n, names, remap);
    var u := Renamed(v.enc, t, n, Renames(names, remap)).value;
    assert SymTables(w, dynsym, dynstr) == u;
    assert NameFollows(v.enc, t, u, n, names, remap, k);
    NamesDiffer();
    RefilledFind(v, w, GNU_VERSION);
    var ver := v.FindSection(GNU_VERSION);
    assert ver.Some? ==> ver.value != dynsym && ver.value != dynstr;
  }

  /** Where the GNU stage's symbol `k` came from. */
  lemma GnuStageFollows(v: Image, w: Image, dynsym: nat, dynstr: nat, n: nat, hashes: seq<u32>,
                        ro: Option<Reordering>, k: nat)
    requires Separate(v) && v.FindSection(DYNSYM) == Some(dynsym) && v.FindSection(DYNSTR) == Some(dynstr)
    requires Covered(v, dynsym, dynstr, n) && |hashes| == n && GnuRebuilt(v, w, dynsym, hashes, ro) && k < n
    ensures Refilled(v, w) && Separate(w) && OfSize(ro, n) && Old(ro, k) < n && Covered(w, dynsym, dynstr, n)
    ensures SameSymbol(v, w, dynsym, dynstr, n, map[], Old(ro, k), k)
  {
    if GnuFound(v).Some? {
      var (gh, h) := GnuFound(v).value;
      var old2new :| Inverse(old2new, ro.value.new2old) && w == GnuStage(v, dynsym, gh, h, hashes, old2new);
      VersionsCoverFit(v, n, Reorders(h, hashes));
      GnuStageSections(v, dynsym, gh, h, hashes, old2new);
      RefilledSeparate(v, w);
      SymbolMoved(v, w, dynsym, gh, h, hashes, old2new, k);
      NamesMoved(v, w, dynsym, dynstr, gh, h, hashes, old2new, Names(v.enc, SymTables(v, dynsym, dynstr), n));
      SameUnrenamed(v, w, dynsym, dynstr, n, Old(ro, k), k);
    } else {
      SameUnrenamed(v, w, dynsym, dynstr, n, k, k);
    }
  }

  lemma SameUnrenamed(v: Image, w: Image, dynsym: nat, dynstr: nat, n: nat, o: nat, k: nat)
    requires Covered(v, dynsym, dynstr, n) && Covered(w, dynsym, dynstr, n) && o < n && k < n
    requires SymName(w, dynsym, dynstr, n, k) == SymName(v, dynsym, dynstr, n, o)
    requires SymRest(w, dynsym, dynstr, n, k) == SymRest(v, dynsym, dynstr, n, o)
             && Version(w, n, k) == Version(v, n, o)
    ensures SameSymbol(v, w, dynsym, dynstr, n, map[], o, k)
  {
  }

  lemma SysvSection(v: Image, hashes: seq<u32>, ro: Option<Reordering>)
    requires Separate(v) && OfSize(ro, |hashes|)
    requires SysvFound(v).Some? ==> SysvFound(v).value.2 <= |hashes|
    ensures var w := SysvStage(v, hashes, ro);
            && Refilled(v, w) && Separate(w)
            && forall i :: 0 <= i < |v.data| && v.SectionName(i) != Some(HASH) ==> w.data[i] == v.data[i]
  {
    var w := SysvStage(v, hashes, ro);
    if SysvFound(v).Some? {
      var i := SysvFound(v).value.0;
      assert Symbolic(v, i);
      SymbolicNotNames(v, i, w.data[i]);
    }
    RefilledSeparate(v, w);
  }

  /** The `.hash` rebuild touches no symbol. */
  lemma SysvStageFollows(v: Image, dynsym: nat, dynstr: nat, n: nat, hashes: seq<u32>, ro: Option<Reordering>, k: nat)
    requires Separate(v) && v.FindSection(DYNSYM) == Some(dynsym) && v.FindSection(DYNSTR) == Some(dynstr)
    requires Covered(v, dynsym, dynstr, n) && |hashes| == n && OfSize(ro, n) && k < n
    requires SysvFound(v).Some? ==> SysvFound(v).value.2 <= n
    ensures var w := SysvStage(v, hashes, ro);
            Covered(w, dynsym, dynstr, n) && SameSymbol(v, w, dynsym, dynstr, n, map[], k, k)
  {
    NamesDiffer();
    SysvSection(v, hashes, ro);
    var w := SysvStage(v, hashes, ro);
    RefilledFind(v, w, GNU_VERSION);
    var ver := v.FindSection(GNU_VERSION);
    assert w.data[dynsym] == v.data[dynsym] && w.data[dynstr] == v.data[dynstr];
    assert ver.Some? ==> w.data[ver.value] == v.data[ver.value];
  }

  /** The intermediate images of a rename. */
  lemma Stages(v: Image, w: Image, dynsym: nat, dynstr: nat, n: nat, remap: map<seq<byte>, seq<byte>>,
               ro: Option<Reordering>)
    returns (v1: Image, m: Image, names: seq<seq<byte>>)
    requires Input(v, dynsym, dynstr, n, remap) && SymbolsRenamed(v, w, dynsym, dynstr, remap, ro)
    ensures NamesStage(v, dynsym, dynstr, remap) == Some(v1) && Refilled(v, v1) && Separate(v1)
    ensures Covered(v1, dynsym, dynstr, n) && names == Names(v1.enc, SymTables(v1, dynsym, dynstr), n)
    ensures v1.FindSection(DYNSYM) == Some(dynsym) && v1.FindSection(DYNSTR) == Some(dynstr)
    ensures GnuRebuilt(v1, m, dynsym, GnuHashes(names), ro) && OfSize(ro, n) && Refilled(v1, m)
    ensures SysvFound(m).Some? ==> SysvFound(m).value.2 <= n
    ensures w == SysvStage(m, SysvHashes(names), ro)
  {
    v1 := NamesStage(v, dynsym, dynstr, remap).value;
    NamesRefilled(v, dynsym, dynstr, n, remap, v1);
    RefilledFind(v, v1, DYNSYM);
    RefilledFind(v, v1, DYNSTR);
    VersionKept(v, v1, dynsym, dynstr, n);
    names := Names(v1.enc, SymTables(v1, dynsym, dynstr), n);
    assert SymCount(v1, dynsym) == n;
    m :| && GnuRebuilt(v1, m, dynsym, GnuHashes(names), ro)
          && |m.data| == |m.shdrs| && OfSize(ro, |names|)
          && (SysvFound(m).Some? ==> SysvFound(m).value.2 <= |names|)
          && w == SysvStage(m, SysvHashes(names), ro);
    GnuRefilled(v1, m, dynsym, n, GnuHashes(names), ro);
  }

  lemma VersionKept(v: Image, v1: Image, dynsym: nat, dynstr: nat, n: nat)
    requires Covered(v, dynsym, dynstr, n) && Refilled(v, v1)
    requires v.FindSection(DYNSYM) == Some(dynsym) && v.FindSection(DYNSTR) == Some(dynstr)
    requires forall i :: 0 <= i < |v.data| && i != dynsym && i != dynstr ==> v1.data[i] == v.data[i]
    requires |v1.data[dynsym]| == |v.data[dynsym]|
    ensures Covered(v1, dynsym, dynstr, n)
  {
    NamesDiffer();
    RefilledFind(v, v1, GNU_VERSION);
    var ver := v.FindSection(GNU_VERSION);
    assert ver.Some? ==> ver.value != dynsym && ver.value != dynstr;
  }

  /** Renaming then only moving is renaming. */
  lemma Compose(v: Image, v1: Image, w: Image, dynsym: nat, dynstr: nat, n: nat, remap: map<seq<byte>, seq<byte>>,
                o: nat, p: nat, k: nat)
    requires Covered(v, dynsym, dynstr, n) && Covered(v1, dynsym, dynstr, n) && Covered(w, dynsym, dynstr, n)
    requires o < n && p < n && k < n
    requires SameSymbol(v, v1, dynsym, dynstr, n, remap, o, p) && SameSymbol(v1, w, dynsym, dynstr, n, map[], p, k)
    ensures SameSymbol(v, w, dynsym, dynstr, n, remap, o, k)
  {
  }

  lemma StagedSymbol(v: Image, w: Image, dynsym: nat, dynstr: nat, n: nat, remap: map<seq<byte>, seq<byte>>,
                      v1: Image, m: Image, ro: Option<Reordering>, hashes: seq<u32>, sysv: seq<u32>, k: nat)
    requires Input(v, dynsym, dynstr, n, remap) && NamesStage(v, dynsym, dynstr, remap) == Some(v1) && k < n
    requires Separate(v1) && Covered(v1, dynsym, dynstr, n) && |hashes| == |sysv| == n && OfSize(ro, n)
    requires v1.FindSection(DYNSYM) == Some(dynsym) && v1.FindSection(DYNSTR) == Some(dynstr)
    requires GnuRebuilt(v1, m, dynsym, hashes, ro) && Refilled(v1, m)
    requires SysvFound(m).Some? ==> SysvFound(m).value.2 <= n
    requires w == SysvStage(m, sysv, ro)
    ensures Covered(w, dynsym, dynstr, n) && Old(ro, k) < n
    ensures SameSymbol(v, w, dynsym, dynstr, n, remap, Old(ro, k), k)
  {
    GnuStageFollows(v1, m, dynsym, dynstr, n, hashes, ro, k);
    NamesStageFollows(v, dynsym, dynstr, n, remap, v1, Old(ro, k));
    RefilledFind(v1, m, DYNSYM);
    RefilledFind(v1, m, DYNSTR);
    SysvStageFollows(m, dynsym, dynstr, n, sysv, ro, k);
    Compose(v1, m, w, dynsym, dynstr, n, map[], Old(ro, k), k, k);
    Compose(v, v1, w, dynsym, dynstr, n, remap, Old(ro, k), Old(ro, k), k);
  }

  ghost predicate IsPermutation(ro: Option<Reordering>)
  {
    ro.Some? ==> exists old2new :: Inverse(old2new, ro.value.new2old)
  }

  lemma GnuPermutes(v: Image, w: Image, dynsym: nat, hashes: seq<u32>, ro: Option<Reordering>)
    requires |v.data| == |v.shdrs| && GnuRebuilt(v, w, dynsym, hashes, ro)
    ensures IsPermutation(ro)
  {
  }

  /** No symbol is lost or duplicated: old places are a permutation, and the
      symbol now at `k` is the one from its old place, renamed as the map says. */
  lemma RenamedSymbol(v: Image, w: Image, dynsym: nat, dynstr: nat, n: nat, remap: map<seq<byte>, seq<byte>>,
                      ro: Option<Reordering>, k: nat)
    requires Input(v, dynsym, dynstr, n, remap) && SymbolsRenamed(v, w, dynsym, dynstr, remap, ro) && k < n
    ensures Covered(w, dynsym, dynstr, n) && OfSize(ro, n) && IsPermutation(ro)
    ensures Old(ro, k) < n && SameSymbol(v, w, dynsym, dynstr, n, remap, Old(ro, k), k)
  {
    var v1, m, names := Stages(v, w, dynsym, dynstr, n, remap, ro);
    GnuPermutes(v1, m, dynsym, GnuHashes(names), ro);
    StagedSymbol(v, w, dynsym, dynstr, n, remap, v1, m, ro, GnuHashes(names), SysvHashes(names), k);
  }

  // ---- Relocations ----

  /** A section that neither stage rewrites keeps its relocations. */
  lemma SameReloc(v: Image, w: Image, i: nat, r: nat)
    requires w == v.(data := w.data) && |w.data| == |v.data| && IsReloc(v, i, r) && w.data[i] == v.data[i]
    ensures IsReloc(w, i, r) && RelocRecord(w, i, r) == RelocRecord(v, i, r)
  {
  }

  /** Relocation `r` of section `i` after the GNU stage names its symbol's new place. */
  lemma StagedReloc(v: Image, w: Image, dynsym: nat, n: nat, hashes: seq<u32>, ro: Option<Reordering>, i: nat, r: nat)
    requires Separate(v) && |hashes| == n && VersionsCover(v, n) && GnuRebuilt(v, w, dynsym, hashes, ro)
    requires OfSize(ro, n) && IsReloc(v, i, r) && Relocs.Sym(v.enc, RelocRecord(v, i, r)) < n
    requires n <= Relocs.SymLimit(v.enc.class_)
    ensures IsReloc(w, i, r) && w.enc == v.enc && !Symbolic(v, i)
    ensures var a, b, word := RelocRecord(v, i, r), RelocRecord(w, i, r), GnuTable.WordSize(v.enc.class_);
            && |b| == |a| && Relocs.Type(v.enc, b) == Relocs.Type(v.enc, a)
            && b[..word] == a[..word] && b[2 * word..] == a[2 * word..]
            && Relocs.Sym(v.enc, b) < n && Old(ro, Relocs.Sym(v.enc, b)) == Relocs.Sym(v.enc, a)
  {
    assert !Symbolic(v, i);
    if GnuFound(v).Some? {
      var (gh, h) := GnuFound(v).value;
      var old2new :| Inverse(old2new, ro.value.new2old) && w == GnuStage(v, dynsym, gh, h, hashes, old2new);
      VersionsCoverFit(v, n, Reorders(h, hashes));
      GnuStageSections(v, dynsym, gh, h, hashes, old2new);
      RelocMoved(v, w, dynsym, gh, h, hashes, old2new, i, r);
      Relocs.RecordFollows(v.enc, RelocRecord(v, i, r), h.symndx, old2new);
      IndexBack(ro.value, old2new, Relocs.Sym(v.enc, RelocRecord(v, i, r)));
    }
  }

  /** Every relocation keeps its type, offset and addend, and names the same
      symbol with the same version entry, renamed as the map says. */
  lemma RenamedRelocation(v: Image, w: Image, dynsym: nat, dynstr: nat, n: nat, remap: map<seq<byte>, seq<byte>>,
                          ro: Option<Reordering>, i: nat, r: nat)
    requires Input(v, dynsym, dynstr, n, remap) && SymbolsRenamed(v, w, dynsym, dynstr, remap, ro)
    requires IsReloc(v, i, r) && Relocs.Sym(v.enc, RelocRecord(v, i, r)) < n <= Relocs.SymLimit(v.enc.class_)
    ensures Covered(w, dynsym, dynstr, n) && IsReloc(w, i, r) && w.enc == v.enc
    ensures var a, b, word := RelocRecord(v, i, r), RelocRecord(w, i, r), GnuTable.WordSize(v.enc.class_);
            && |b| == |a| && Relocs.Type(v.enc, b) == Relocs.Type(v.enc, a)
            && b[..word] == a[..word] && b[2 * word..] == a[2 * word..]
            && Relocs.Sym(v.enc, b) < n
            && SameSymbol(v, w, dynsym, dynstr, n, remap, Relocs.Sym(v.enc, a), Relocs.Sym(v.enc, b))
  {
    var v1, m, names := Stages(v, w, dynsym, dynstr, n, remap, ro);
    NamesRefilled(v, dynsym, dynstr, n, remap, v1);
    assert !Symbolic(v, i);
    SameReloc(v, v1, i, r);
    StagedReloc(v1, m, dynsym, n, GnuHashes(names), ro, i, r);
    RefilledSeparate(v1, m);
    SysvSection(m, SysvHashes(names), ro);
    SameReloc(m, w, i, r);
    RenamedSymbol(v, w, dynsym, dynstr, n, remap, ro, Relocs.Sym(v.enc, RelocRecord(w, i, r)));
  }

  // ---- Lookups ----

  /** `.gnu.hash` still has header `h`, and a loader's search of it for `name` finds
      the first hashed symbol of that name exactly when there is one. */
  ghost predicate GnuFinds(w: Image, dynsym: nat, dynstr: nat, n: nat, gh: nat, h: GnuHash.Header, name: seq<byte>)
  {
    && gh < |w.data| && dynsym < |w.data| && dynstr < |w.data| && 0 < h.symndx <= n && h.maskwords > 0 && h.nbuckets > 0
    && HasSymbols(w.enc, SymTables(w, dynsym, dynstr), n)
    && |w.data[gh]| >= 16 && GnuTable.ReadHeader(w.enc, w.data[gh]) == h
    && GnuTable.ChainOff(w.enc, h) + Span(n - h.symndx, 4) <= |w.data[gh]|
    && var table := GnuTable.ReadTable(w.enc, w.data[gh], n - h.symndx);
       var hashed := Names(w.enc, SymTables(w, dynsym, dynstr), n)[h.symndx..];
       GnuHash.FirstNamed(h, hashed, name,
         GnuHash.Lookup(h, table, GnuHash.Hash(name), GnuHash.Named(h.symndx, hashed, name)))
  }

  /** Renaming leaves the table where it was found. */
  lemma GnuSurvives(v: Image, v1: Image, dynsym: nat, dynstr: nat, n: nat, remap: map<seq<byte>, seq<byte>>,
                    gh: nat, h: GnuHash.Header)
    requires Input(v, dynsym, dynstr, n, remap) && NamesStage(v, dynsym, dynstr, remap) == Some(v1)
    requires GnuFound(v) == Some((gh, h))
    ensures GnuFound(v1) == Some((gh, h))
  {
    NamesDiffer();
    NamesRefilled(v, dynsym, dynstr, n, remap, v1);
    SameGnuFound(v, v1, gh, h);
  }

  lemma StagedGnuLookup(v: Image, m: Image, dynsym: nat, dynstr: nat, n: nat, names: seq<seq<byte>>,
                        ro: Option<Reordering>, gh: nat, h: GnuHash.Header, name: seq<byte>)
    requires Separate(v) && v.FindSection(DYNSYM) == Some(dynsym) && v.FindSection(DYNSTR) == Some(dynstr)
    requires Covered(v, dynsym, dynstr, n) && names == Names(v.enc, SymTables(v, dynsym, dynstr), n)
    requires GnuFound(v) == Some((gh, h)) && 0 < h.symndx <= n <= 0x1_0000_0000 && Align.PowerOfTwo(h.maskwords)
    requires GnuRebuilt(v, m, dynsym, GnuHashes(names), ro)
    ensures GnuFinds(m, dynsym, dynstr, n, gh, h, name) && m.SectionName(gh) == Some(GNU_HASH)
  {
    var hashes := GnuHashes(names);
    var old2new :| Inverse(old2new, ro.value.new2old) && m == GnuStage(v, dynsym, gh, h, hashes, old2new);
    VersionsCoverFit(v, n, Reorders(h, hashes));
    GnuStageSections(v, dynsym, gh, h, hashes, old2new);
    GnuLookupExact(v, m, dynsym, dynstr, gh, h, hashes, old2new, names, name);
  }

  /** A search finds any name after the rename exactly when a hashed symbol has it. */
  lemma RenamedGnuLookup(v: Image, w: Image, dynsym: nat, dynstr: nat, n: nat, remap: map<seq<byte>, seq<byte>>,
                         ro: Option<Reordering>, gh: nat, h: GnuHash.Header, name: seq<byte>)
    requires Input(v, dynsym, dynstr, n, remap) && SymbolsRenamed(v, w, dynsym, dynstr, remap, ro)
    requires GnuFound(v) == Some((gh, h)) && 0 < h.symndx <= n <= 0x1_0000_0000 && Align.PowerOfTwo(h.maskwords)
    ensures GnuFinds(w, dynsym, dynstr, n, gh, h, name)
  {
    var v1, m, names := Stages(v, w, dynsym, dynstr, n, remap, ro);
    GnuSurvives(v, v1, dynsym, dynstr, n, remap, gh, h);
    StagedGnuLookup(v1, m, dynsym, dynstr, n, names, ro, gh, h, name);
    RefilledSeparate(v1, m);
    SameSectionName(v1, m, dynsym);
    SameSectionName(v1, m, dynstr);
    HashUntouched(m, w, dynsym, dynstr, gh, SysvHashes(names), ro);
    SameFinds(m, w, dynsym, dynstr, n, gh, h, name);
  }

  lemma SameFinds(m: Image, w: Image, dynsym: nat, dynstr: nat, n: nat, gh: nat, h: GnuHash.Header, name: seq<byte>)
    requires GnuFinds(m, dynsym, dynstr, n, gh, h, name) && w.enc == m.enc && |w.data| == |m.data|
    requires w.data[dynsym] == m.data[dynsym] && w.data[dynstr] == m.data[dynstr] && w.data[gh] == m.data[gh]
    ensures GnuFinds(w, dynsym, dynstr, n, gh, h, name)
  {
  }

  lemma SameSectionName(v: Image, w: Image, i: nat)
    requires Refilled(v, w)
    ensures w.SectionName(i) == v.SectionName(i)
  {
  }

  lemma SameGnuFound(v: Image, w: Image, gh: nat, h: GnuHash.Header)
    requires |v.data| == |v.shdrs| && Refilled(v, w) && GnuFound(v) == Some((gh, h)) && w.data[gh] == v.data[gh]
    ensures GnuFound(w) == Some((gh, h))
  {
    RefilledFind(v, w, GNU_HASH);
  }

  lemma HashUntouched(m: Image, w: Image, dynsym: nat, dynstr: nat, gh: nat, hashes: seq<u32>, ro: Option<Reordering>)
    requires Separate(m) && OfSize(ro, |hashes|) && dynsym < |m.data| && dynstr < |m.data| && gh < |m.data|
    requires SysvFound(m).Some? ==> SysvFound(m).value.2 <= |hashes|
    requires w == SysvStage(m, hashes, ro)
    requires m.SectionName(dynsym) == Some(DYNSYM) && m.SectionName(dynstr) == Some(DYNSTR)
    requires m.SectionName(gh) == Some(GNU_HASH)
    ensures Refilled(m, w) && w.data[dynsym] == m.data[dynsym] && w.data[dynstr] == m.data[dynstr]
    ensures w.data[gh] == m.data[gh]
  {
    NamesDiffer();
    SysvSection(m, hashes, ro);
  }

  /** `.hash` holds acyclic chains, and a loader's search of it for `name` finds a
      symbol other than symbol 0 exactly when one has that name. */
  ghost predicate SysvFinds(w: Image, dynsym: nat, dynstr: nat, n: nat, i: nat, nbuckets: nat, name: seq<byte>)
  {
    && i < |w.data| && dynsym < |w.data| && dynstr < |w.data| && nbuckets > 0
    && HasSymbols(w.enc, SymTables(w, dynsym, dynstr), n) && 8 + Span(nbuckets + n, 4) <= |w.data[i]|
    && WordsFind(GetWords(w.enc.endian, w.data[i], 8, 4, nbuckets + n), nbuckets,
                 Names(w.enc, SymTables(w, dynsym, dynstr), n), name)
  }

  ghost predicate WordsFind(words: seq<nat>, nbuckets: nat, names: seq<seq<byte>>, name: seq<byte>)
    requires |words| == nbuckets + |names| && nbuckets > 0
  {
    var chain, first := words[nbuckets..], words[SysvHash.Hash(name) % nbuckets];
    && SysvHash.Descending(chain) && first <= |chain|
    && SysvHash.LastNamed(names, name, SysvHash.Search(chain, first, SysvHash.IsNamed(names, name)))
  }

  lemma RebuiltFinds(e: Endian, data: seq<byte>, buckets: seq<nat>, nbuckets: nat, names: seq<seq<byte>>,
                     name: seq<byte>, r: seq<byte>, words: seq<nat>)
    requires nbuckets > 0 && SysvHash.InBuckets(buckets, nbuckets) && SysvHash.Hashes(buckets, names, nbuckets)
    requires 8 + Span(nbuckets + |buckets|, 4) <= |data| && |buckets| <= 0x1_0000_0000
    requires r == SysvHash.Rebuilt(e, data, buckets, nbuckets)
    requires words == GetWords(e, r, 8, 4, nbuckets + |buckets|)
    ensures WordsFind(words, nbuckets, names, name)
  {
    var t := SysvHash.Filled(buckets, nbuckets);
    assert words == t.buckets + t.chain by {
      SysvHash.ReadRebuilt(e, data, buckets, nbuckets);
    }
    TableFinds(t, buckets, nbuckets, names, name);
  }

  lemma TableFinds(t: SysvHash.Table, buckets: seq<nat>, nbuckets: nat, names: seq<seq<byte>>, name: seq<byte>)
    requires nbuckets > 0 && SysvHash.InBuckets(buckets, nbuckets) && SysvHash.Hashes(buckets, names, nbuckets)
    requires t == SysvHash.Filled(buckets, nbuckets) && |t.buckets| == nbuckets && |t.chain| == |names|
    ensures WordsFind(t.buckets + t.chain, nbuckets, names, name)
  {
    SysvHash.SearchExact(buckets, names, nbuckets, name);
    assert (t.buckets + t.chain)[nbuckets..] == t.chain;
  }

  /** The `.hash` stage over the symbols `names` of the image it is run on. */
  lemma StagedSysvLookup(m: Image, dynsym: nat, dynstr: nat, n: nat, hashes: seq<u32>, ro: Option<Reordering>,
                         i: nat, nbuckets: nat, name: seq<byte>, names: seq<seq<byte>>)
    requires Separate(m) && OfSize(ro, n) && |hashes| == n && SysvFound(m) == Some((i, nbuckets, n))
    requires m.SectionName(dynsym) == Some(DYNSYM) && m.SectionName(dynstr) == Some(DYNSTR)
    requires dynsym < |m.data| && dynstr < |m.data| && HasSymbols(m.enc, SymTables(m, dynsym, dynstr), n)
    requires names == Names(m.enc, SymTables(m, dynsym, dynstr), n)
    requires SysvHash.Hashes(SysvBuckets(hashes, ro, nbuckets, n), names, nbuckets)
    ensures SysvFinds(SysvStage(m, hashes, ro), dynsym, dynstr, n, i, nbuckets, name)
  {
    var w := SysvStage(m, hashes, ro);
    SysvTables(m, dynsym, dynstr, hashes, ro);
    TablesFind(m, w, dynsym, dynstr, n, hashes, ro, i, nbuckets, name, names);
  }

  lemma TablesFind(m: Image, w: Image, dynsym: nat, dynstr: nat, n: nat, hashes: seq<u32>, ro: Option<Reordering>,
                   i: nat, nbuckets: nat, name: seq<byte>, names: seq<seq<byte>>)
    requires OfSize(ro, n) && |hashes| == n <= 0x1_0000_0000 && nbuckets > 0
    requires i < |m.data| && 8 + Span(nbuckets + n, 4) <= |m.data[i]| && dynsym < |m.data| && dynstr < |m.data|
    requires w == SysvStageAt(m, hashes, ro, i, nbuckets, n)
             && SymTables(w, dynsym, dynstr) == SymTables(m, dynsym, dynstr)
    requires HasSymbols(m.enc, SymTables(m, dynsym, dynstr), n)
    requires names == Names(m.enc, SymTables(m, dynsym, dynstr), n)
    requires SysvHash.Hashes(SysvBuckets(hashes, ro, nbuckets, n), names, nbuckets)
    ensures SysvFinds(w, dynsym, dynstr, n, i, nbuckets, name)
  {
    var words := StageFinds(m, w, n, hashes, ro, i, nbuckets, name, names);
    assert w.enc == m.enc;
    SameTables(m.enc, SymTables(m, dynsym, dynstr), w.enc, SymTables(w, dynsym, dynstr), n);
    PackFinds(w, dynsym, dynstr, n, i, nbuckets, name, names, words);
  }

  lemma StageFinds(m: Image, w: Image, n: nat, hashes: seq<u32>, ro: Option<Reordering>, i: nat, nbuckets: nat,
                   name: seq<byte>, names: seq<seq<byte>>)
    returns (words: seq<nat>)
    requires OfSize(ro, n) && |hashes| == n == |names| <= 0x1_0000_0000 && nbuckets > 0
    requires i < |m.data| && 8 + Span(nbuckets + n, 4) <= |m.data[i]|
    requires SysvHash.Hashes(SysvBuckets(hashes, ro, nbuckets, n), names, nbuckets)
    requires w == SysvStageAt(m, hashes, ro, i, nbuckets, n)
    ensures w.enc == m.enc && |w.data| == |m.data| && 8 + Span(nbuckets + n, 4) <= |w.data[i]|
    ensures words == GetWords(w.enc.endian, w.data[i], 8, 4, nbuckets + n) && WordsFind(words, nbuckets, names, name)
  {
    var buckets := SysvBuckets(hashes, ro, nbuckets, n);
    var r := SysvHash.Rebuilt(m.enc.endian, m.data[i], buckets, nbuckets);
    assert w.data[i] == r;
    words := GetWords(m.enc.endian, r, 8, 4, nbuckets + n);
    RebuiltFinds(m.enc.endian, m.data[i], buckets, nbuckets, names, name, r, words);
  }

  lemma SameTables(a: Enc, t: Tables, b: Enc, u: Tables, n: nat)
    requires a == b && t == u && HasSymbols(a, t, n)
    ensures HasSymbols(b, u, n) && Names(b, u, n) == Names(a, t, n)
  {
  }

  lemma PackFinds(w: Image, dynsym: nat, dynstr: nat, n: nat, i: nat, nbuckets: nat, name: seq<byte>,
                  names: seq<seq<byte>>, words: seq<nat>)
    requires i < |w.data| && dynsym < |w.data| && dynstr < |w.data| && nbuckets > 0
    requires HasSymbols(w.enc, SymTables(w, dynsym, dynstr), n) && 8 + Span(nbuckets + n, 4) <= |w.data[i]|
    requires names == Names(w.enc, SymTables(w, dynsym, dynstr), n)
    requires words == GetWords(w.enc.endian, w.data[i], 8, 4, nbuckets + n)
    requires WordsFind(words, nbuckets, names, name)
    ensures SysvFinds(w, dynsym, dynstr, n, i, nbuckets, name)
  {
  }

  lemma SysvTables(m: Image, dynsym: nat, dynstr: nat, hashes: seq<u32>, ro: Option<Reordering>)
    requires Separate(m) && OfSize(ro, |hashes|) && dynsym < |m.data| && dynstr < |m.data|
    requires SysvFound(m).Some? ==> SysvFound(m).value.2 <= |hashes|
    requires m.SectionName(dynsym) == Some(DYNSYM) && m.SectionName(dynstr) == Some(DYNSTR)
    ensures var w := SysvStage(m, hashes, ro);
            w.enc == m.enc && |w.data| == |m.data| && SymTables(w, dynsym, dynstr) == SymTables(m, dynsym, dynstr)
  {
    NamesDiffer();
    SysvSection(m, hashes, ro);
  }

  lemma BucketsHash(hashes: seq<u32>, ro: Option<Reordering>, nbuckets: nat, names: seq<seq<byte>>)
    requires |hashes| == |names| && OfSize(ro, |names|) && nbuckets > 0
    requires forall k :: 0 <= k < |names| ==> Old(ro, k) < |names| && hashes[Old(ro, k)] == SysvHash.Hash(names[k])
    ensures SysvHash.Hashes(SysvBuckets(hashes, ro, nbuckets, |names|), names, nbuckets)
  {
  }

  /** The loader's search of the new `.hash` finds any name after the rename
      exactly when a symbol other than symbol 0 has it; the gABI has one chain
      word per symbol. */
  lemma RenamedSysvLookup(v: Image, w: Image, dynsym: nat, dynstr: nat, n: nat, remap: map<seq<byte>, seq<byte>>,
                          ro: Option<Reordering>, i: nat, nbuckets: nat, name: seq<byte>)
    requires Input(v, dynsym, dynstr, n, remap) && SymbolsRenamed(v, w, dynsym, dynstr, remap, ro)
    requires SysvFound(v) == Some((i, nbuckets, n))
    ensures SysvFinds(w, dynsym, dynstr, n, i, nbuckets, name)
  {
    var v1, m, names := Stages(v, w, dynsym, dynstr, n, remap, ro);
    SysvSurvives(v, v1, dynsym, dynstr, n, remap, i, nbuckets);
    RebuiltSysvLookup(v1, m, dynsym, dynstr, n, names, ro, i, nbuckets, name);
  }

  /** The two hash stages after the names are in place. */
  /** Renaming leaves the table where it was found. */
  lemma SysvSurvives(v: Image, v1: Image, dynsym: nat, dynstr: nat, n: nat, remap: map<seq<byte>, seq<byte>>,
                     i: nat, nbuckets: nat)
    requires Input(v, dynsym, dynstr, n, remap) && NamesStage(v, dynsym, dynstr, remap) == Some(v1)
    requires SysvFound(v) == Some((i, nbuckets, n))
    ensures SysvFound(v1) == Some((i, nbuckets, n))
  {
    NamesDiffer();
    NamesRefilled(v, dynsym, dynstr, n, remap, v1);
    SameSysvFound(v, v1, i, nbuckets, n);
  }

  lemma RebuiltSysvLookup(v: Image, m: Image, dynsym: nat, dynstr: nat, n: nat, names: seq<seq<byte>>,
                          ro: Option<Reordering>, i: nat, nbuckets: nat, name: seq<byte>)
    requires Separate(v) && v.FindSection(DYNSYM) == Some(dynsym) && v.FindSection(DYNSTR) == Some(dynstr)
    requires Covered(v, dynsym, dynstr, n) && names == Names(v.enc, SymTables(v, dynsym, dynstr), n)
    requires GnuRebuilt(v, m, dynsym, GnuHashes(names), ro) && Refilled(v, m) && OfSize(ro, n)
    requires SysvFound(v) == Some((i, nbuckets, n))
    ensures SysvFound(m) == Some((i, nbuckets, n))
    ensures SysvFinds(SysvStage(m, SysvHashes(names), ro), dynsym, dynstr, n, i, nbuckets, name)
  {
    var sysv := SysvHashes(names);
    StagedNames(v, m, dynsym, dynstr, n, names, ro);
    HashKept(v, m, dynsym, n, GnuHashes(names), ro, i);
    SameSysvFound(v, m, i, nbuckets, n);
    var now := Names(m.enc, SymTables(m, dynsym, dynstr), n);
    BucketsHash(sysv, ro, nbuckets, now);
    StagedSysvLookup(m, dynsym, dynstr, n, sysv, ro, i, nbuckets, name, now);
  }

  /** After the GNU stage each symbol has the name its old place had. */
  lemma StagedNames(v: Image, m: Image, dynsym: nat, dynstr: nat, n: nat, names: seq<seq<byte>>, ro: Option<Reordering>)
    requires Separate(v) && v.FindSection(DYNSYM) == Some(dynsym) && v.FindSection(DYNSTR) == Some(dynstr)
    requires Covered(v, dynsym, dynstr, n) && names == Names(v.enc, SymTables(v, dynsym, dynstr), n)
    requires GnuRebuilt(v, m, dynsym, GnuHashes(names), ro) && Refilled(v, m)
    ensures Separate(m) && m.SectionName(dynsym) == Some(DYNSYM) && m.SectionName(dynstr) == Some(DYNSTR)
    ensures HasSymbols(m.enc, SymTables(m, dynsym, dynstr), n)
    ensures var now := Names(m.enc, SymTables(m, dynsym, dynstr), n);
            forall k :: 0 <= k < n ==> Old(ro, k) < n && now[k] == names[Old(ro, k)]
  {
    RefilledSeparate(v, m);
    SameSectionName(v, m, dynsym);
    SameSectionName(v, m, dynstr);
    if GnuFound(v).Some? {
      var (gh, h) := GnuFound(v).value;
      var hashes := GnuHashes(names);
      var old2new :| Inverse(old2new, ro.value.new2old) && m == GnuStage(v, dynsym, gh, h, hashes, old2new);
      VersionsCoverFit(v, n, Reorders(h, hashes));
      GnuStageSections(v, dynsym, gh, h, hashes, old2new);
      NamesMoved(v, m, dynsym, dynstr, gh, h, hashes, old2new, names);
    }
  }

  lemma SameSysvFound(v: Image, w: Image, i: nat, nbuckets: nat, nchain: nat)
    requires |v.data| == |v.shdrs| && Refilled(v, w) && SysvFound(v) == Some((i, nbuckets, nchain))
    requires w.data[i] == v.data[i]
    ensures SysvFound(w) == Some((i, nbuckets, nchain))
  {
    RefilledFind(v, w, HASH);
  }
}
