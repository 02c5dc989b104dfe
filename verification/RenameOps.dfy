/** `rename_dynamic_symbols` end to end (src/symbols.rs), in place on the image. */
module RenameOps {
  import opened Bytes
  import opened Ir
  import opened Words
  import opened Reorder
  import opened SymbolNames
  import opened Symbols
  import opened Rename
  import GnuHash
  import GnuTable
  import SysvHash
  import Relocs

  // ---- The stages ----

  function SymCount(v: Image, dynsym: nat): (n: nat)
    requires dynsym < |v.data|
    ensures Span(n, SymSize(v.enc.class_)) <= |v.data[dynsym]|
  {
    Relocs.Count(v.data[dynsym], SymSize(v.enc.class_))
  }

  function GnuHashes(names: seq<seq<byte>>): (r: seq<u32>)
    ensures |r| == |names| && GnuHashesOf(r, names)
  {
    seq(|names|, i requires 0 <= i < |names| => GnuHash.Hash(names[i]))
  }

  function SysvHashes(names: seq<seq<byte>>): (r: seq<u32>)
    ensures |r| == |names| && forall i :: 0 <= i < |r| ==> r[i] == SysvHash.Hash(names[i])
  {
    seq(|names|, i requires 0 <= i < |names| => SysvHash.Hash(names[i]))
  }

  /** The image with the new names in its string table. */
  ghost function NamesStage(v: Image, dynsym: nat, dynstr: nat, remap: map<seq<byte>, seq<byte>>): (r: Option<Image>)
    requires dynsym < |v.data| && dynstr < |v.data|
    ensures r.Some? ==> r.value == v.(data := r.value.data) && |r.value.data| == |v.data|
  {
    var n, t := SymCount(v, dynsym), SymTables(v, dynsym, dynstr);
    match Renamed(v.enc, t, n, Renames(Names(v.enc, t, n), remap))
    case None => None
    case Some(u) => Some(v.(data := v.data[dynsym := u.sym][dynstr := u.str]))
  }

  /** `rebuild_gnu_hash` turns `v` into `w`; `ro` is the reorder it reports. */
  ghost predicate GnuRebuilt(v: Image, w: Image, dynsym: nat, hashes: seq<u32>, ro: Option<Reordering>)
    requires |v.data| == |v.shdrs|
  {
    match GnuFound(v)
    case None => w == v && ro.None?
    case Some((gh, h)) =>
      && GnuInput(v, dynsym, gh, h, |hashes|) && VersionsReady(v, dynsym, gh, h, hashes)
      && ro == Some(Reorders(h, hashes))
      && exists old2new :: Inverse(old2new, ro.value.new2old) && w == GnuStage(v, dynsym, gh, h, hashes, old2new)
  }

  /** The `.hash` section with its bucket and chain counts, unless there is no usable table. */
  function SysvFound(v: Image): (r: Option<(nat, nat, nat)>)
    requires |v.data| == |v.shdrs|
    ensures r.Some? ==> r.value.0 < |v.data| && r.value.1 > 0 && r.value.2 < 0x1_0000_0000
                        && 8 + Span(r.value.1 + r.value.2, 4) <= |v.data[r.value.0]|
                        && v.SectionName(r.value.0) == Some(HASH)
  {
    match v.FindSection(HASH)
    case None => None
    case Some(i) =>
      if |v.data[i]| < 8 then None
      else
        Pow256Widths();
        var nbuckets, nchain := Get(v.enc.endian, v.data[i], 0, 4), Get(v.enc.endian, v.data[i], 4, 4);
        if nbuckets == 0 || 8 + Span(nbuckets + nchain, 4) > |v.data[i]| then None else Some((i, nbuckets, nchain))
  }

  ghost predicate OfSize(ro: Option<Reordering>, n: nat)
  {
    ro.Some? ==> ro.value.symndx + |ro.value.new2old| == n && Within(ro.value.new2old)
  }

  /** The buckets of the last `nchain` symbols, by their hashes before the reorder. */
  function SysvBuckets(hashes: seq<u32>, ro: Option<Reordering>, nbuckets: nat, nchain: nat): (r: seq<nat>)
    requires OfSize(ro, |hashes|) && nchain <= |hashes| && nbuckets > 0
    ensures |r| == nchain && SysvHash.InBuckets(r, nbuckets)
  {
    seq(nchain, i requires 0 <= i < nchain => hashes[Old(ro, |hashes| - nchain + i)] % nbuckets)
  }

  /** The image after `rebuild_sysv_hash`. */
  ghost function SysvStage(v: Image, hashes: seq<u32>, ro: Option<Reordering>): Image
    requires |v.data| == |v.shdrs| && OfSize(ro, |hashes|)
    requires SysvFound(v).Some? ==> SysvFound(v).value.2 <= |hashes|
  {
    match SysvFound(v)
    case None => v
    case Some((i, nbuckets, nchain)) => SysvStageAt(v, hashes, ro, i, nbuckets, nchain)
  }

  ghost function SysvStageAt(v: Image, hashes: seq<u32>, ro: Option<Reordering>, i: nat, nbuckets: nat,
                             nchain: nat): Image
    requires OfSize(ro, |hashes|) && nchain <= |hashes| && nbuckets > 0
    requires i < |v.data| && 8 + Span(nbuckets + nchain, 4) <= |v.data[i]|
  {
    v.(data := v.data[i :=
      SysvHash.Rebuilt(v.enc.endian, v.data[i], SysvBuckets(hashes, ro, nbuckets, nchain), nbuckets)])
  }

  /** The bytes the names of these renames take, each with its NUL. */
  function NameBytes(renames: seq<(nat, seq<byte>)>): nat
  {
    if renames == [] then 0 else NameBytes(renames[..|renames| - 1]) + |renames[|renames| - 1].1| + 1
  }

  /** Every new name gets an offset that `st_name` holds, exactly when the last one does. */
  lemma {:induction false} RenamedFits(enc: Enc, t: Tables, n: nat, renames: seq<(nat, seq<byte>)>)
    requires HasSymbols(enc, t, n) && InTable(renames, n)
    ensures Renamed(enc, t, n, renames).Some?
            <==> renames == [] || |t.str| + NameBytes(renames[..|renames| - 1]) < 0x1_0000_0000
    ensures Renamed(enc, t, n, renames).Some? ==>
              |Renamed(enc, t, n, renames).value.str| == |t.str| + NameBytes(renames)
  {
    if renames != [] {
      var init := renames[..|renames| - 1];
      RenamedFits(enc, t, n, init);
      if init != [] {
        assert NameBytes(init) >= NameBytes(init[..|init| - 1]);
      }
    }
  }

  /** The names stage succeeds exactly when the string table has room for them. */
  lemma NamesFit(v: Image, dynsym: nat, dynstr: nat, remap: map<seq<byte>, seq<byte>>)
    requires dynsym < |v.data| && dynstr < |v.data|
    ensures var t, n := SymTables(v, dynsym, dynstr), SymCount(v, dynsym);
            var renames := Renames(Names(v.enc, t, n), remap);
            NamesStage(v, dynsym, dynstr, remap).Some?
            <==> renames == [] || |v.data[dynstr]| + NameBytes(renames[..|renames| - 1]) < 0x1_0000_0000
  {
    var t, n := SymTables(v, dynsym, dynstr), SymCount(v, dynsym);
    RenamedFits(v.enc, t, n, Renames(Names(v.enc, t, n), remap));
  }

  // ---- The stages in place ----

  method ArrayOf(s: seq<byte>) returns (a: array<byte>)
    ensures a[..] == s && fresh(a)
  {
    a := new byte[|s|](i requires 0 <= i < |s| => s[i]);
  }

  method CollectRenames(names: seq<seq<byte>>, remap: map<seq<byte>, seq<byte>>)
    returns (renames: seq<(nat, seq<byte>)>)
    ensures renames == Renames(names, remap)
  {
    renames := [];
    for i := 0 to |names|
      invariant renames == Renames(names[..i], remap)
    {
      assert names[..i + 1][..i] == names[..i];
      if names[i] in remap {
        renames := renames + [(i, remap[names[i]])];
      }
    }
    assert names[..|names|] == names;
  }

  ghost function WithTables(v: Image, dynsym: nat, dynstr: nat, u: Tables): Image
    requires dynsym < |v.data| && dynstr < |v.data|
  {
    v.(data := v.data[dynsym := u.sym][dynstr := u.str])
  }

  /** Append one name and repoint its symbol. */
  method AppendName(image: ElfImage, dynsym: nat, dynstr: nat, n: nat, i: nat, name: seq<byte>,
                    ghost v: Image, ghost u: Tables)
    requires dynsym < |v.data| && dynstr < |v.data| && dynsym != dynstr
    requires image.View() == WithTables(v, dynsym, dynstr, u) && HasSymbols(v.enc, u, n) && i < n
    modifies image
    ensures image.View() == WithTables(v, dynsym, dynstr, Repointed(v.enc, u, n, i, name))
  {
    var size, off := SymSize(image.enc.class_), |image.data[dynstr]|;
    SpanBounds(i, n, size);
    image.data := image.data[dynstr := image.data[dynstr] + name + [0]];
    image.data := image.data[dynsym := Put(image.enc.endian, image.data[dynsym], Span(i, size), 4, off)];
  }

  method AppendNames(image: ElfImage, dynsym: nat, dynstr: nat, n: nat, renames: seq<(nat, seq<byte>)>)
    returns (ok: bool)
    requires dynsym < |image.data| && dynstr < |image.data| && dynsym != dynstr && InTable(renames, n)
    requires HasSymbols(image.enc, SymTables(image.View(), dynsym, dynstr), n)
    modifies image
    ensures var v := old(image.View());
            var u := Renamed(v.enc, SymTables(v, dynsym, dynstr), n, renames);
            ok == u.Some? && (ok ==> image.View() == WithTables(v, dynsym, dynstr, u.value))
  {
    ghost var v := image.View();
    ghost var t := SymTables(v, dynsym, dynstr);
    ghost var u := t;
    assert image.View() == WithTables(v, dynsym, dynstr, t);
    for k := 0 to |renames|
      invariant Renamed(v.enc, t, n, renames[..k]) == Some(u)
      invariant image.View() == WithTables(v, dynsym, dynstr, u)
    {
      assert renames[..k + 1][..k] == renames[..k];
      var (i, name) := renames[k];
      assert image.data[dynstr] == u.str;
      if |image.data[dynstr]| >= 0x1_0000_0000 {
        StaysNone(v.enc, t, n, renames, k + 1);
        return false;
      }
      AppendName(image, dynsym, dynstr, n, i, name, v, u);
      u := Repointed(v.enc, u, n, i, name);
    }
    assert renames[..|renames|] == renames;
    ok := true;
  }

  lemma {:induction false} StaysNone(enc: Enc, t: Tables, n: nat, renames: seq<(nat, seq<byte>)>, k: nat)
    requires HasSymbols(enc, t, n) && InTable(renames, n) && k <= |renames|
    requires Renamed(enc, t, n, renames[..k]).None?
    ensures Renamed(enc, t, n, renames).None?
    decreases |renames|
  {
    if k < |renames| {
      assert renames[..|renames| - 1][..k] == renames[..k];
      StaysNone(enc, t, n, renames[..|renames| - 1], k);
    } else {
      assert renames[..k] == renames;
    }
  }

  method MoveRecords(image: ElfImage, i: nat, symndx: nat, stride: nat, old2new: seq<nat>, ghost new2old: seq<nat>)
    requires i < |image.data| && Inverse(old2new, new2old)
    requires Span(symndx, stride) + Span(|old2new|, stride) <= |image.data[i]|
    modifies image
    ensures var v := old(image.View());
            image.View() == v.(data := v.data[i := Reordered(v.data[i], Span(symndx, stride), stride, new2old)])
  {
    var a := ArrayOf(image.data[i]);
    ReorderRecords(a, Span(symndx, stride), stride, old2new, new2old);
    image.data := image.data[i := a[..]];
  }

  method MoveVersions(image: ElfImage, old2new: seq<nat>, ghost ro: Reordering, symndx: nat)
    requires |image.data| == |image.shdrs| && ro.symndx == symndx && Inverse(old2new, ro.new2old)
    requires VersionsFit(image.View(), ro)
    modifies image
    ensures image.View() == VersionsMoved(old(image.View()), ro)
  {
    var ver := image.View().FindSection(GNU_VERSION);
    if ver.Some? {
      MoveRecords(image, ver.value, symndx, 2, old2new, ro.new2old);
    }
  }

  /** Every relocation table, in section order. */
  method MoveRelocs(image: ElfImage, symndx: nat, old2new: seq<nat>)
    requires |image.data| == |image.shdrs|
    modifies image
    ensures image.View() == RelocsMoved(old(image.View()), symndx, old2new)
  {
    ghost var v := image.View();
    for i := 0 to |image.shdrs|
      invariant image.View() == v.(data := image.data) && |image.data| == |v.data|
      invariant forall j :: 0 <= j < i ==> image.data[j] == SectionRemapped(v, j, symndx, old2new)
      invariant forall j :: i <= j < |v.data| ==> image.data[j] == v.data[j]
    {
      var stride := Relocs.Stride(image.shdrs[i].shtype, image.enc.class_);
      if stride.Some? {
        var a := ArrayOf(image.data[i]);
        Relocs.RemapRelocs(a, image.enc, stride.value, symndx, old2new);
        image.data := image.data[i := a[..]];
      }
    }
    assert image.data == RelocsMoved(v, symndx, old2new).data;
  }

  /** The reorder: symbols, versions, relocations. */
  method MoveAll(image: ElfImage, dynsym: nat, symndx: nat, old2new: seq<nat>, ghost ro: Reordering)
    requires dynsym < |image.data| == |image.shdrs| && ro.symndx == symndx && Inverse(old2new, ro.new2old)
    requires Span(symndx, SymSize(image.enc.class_)) + Span(|old2new|,
                                                            SymSize(image.enc.class_)) <= |image.data[dynsym]|
    requires VersionsFit(SymbolsMoved(image.View(), dynsym, ro), ro)
    modifies image
    ensures image.View() == AllMoved(old(image.View()), dynsym, ro, old2new)
  {
    MoveRecords(image, dynsym, symndx, SymSize(image.enc.class_), old2new, ro.new2old);
    MoveVersions(image, old2new, ro, symndx);
    MoveRelocs(image, symndx, old2new);
  }

  /** Every relocation names one of the `n` symbols. */
  ghost predicate RelocsInRange(v: Image, n: nat)
  {
    forall i, r {:trigger IsReloc(v, i, r)} :: IsReloc(v, i, r) ==> Relocs.Sym(v.enc, RelocRecord(v, i, r)) < n
  }

  ghost function RelocRecord(v: Image, i: nat, r: nat): (rec: seq<byte>)
    requires IsReloc(v, i, r)
    ensures |rec| >= 2 * GnuTable.WordSize(v.enc.class_)
  {
    RelocWide(v, i, r);
    Reloc(v, i, r)
  }

  /** What `rebuild_gnu_hash` demands: a table it can use describes this many
      symbols, so does the version array, and relocations name only these. */
  ghost predicate GnuReady(v: Image, dynsym: nat, hashes: seq<u32>)
    requires |v.data| == |v.shdrs|
  {
    match GnuFound(v)
    case None => true
    case Some((gh, h)) =>
      && GnuInput(v, dynsym, gh, h, |hashes|) && VersionsReady(v, dynsym, gh, h, hashes)
      && RelocsInRange(v, |hashes|)
  }

  method RebuildGnuHash(image: ElfImage, dynsym: nat, hashes: seq<u32>) returns (r: Result<Option<Reordering>>)
    requires |image.data| == |image.shdrs| && GnuReady(image.View(), dynsym, hashes)
    modifies image
    ensures r.Err? ==> r == Err(ParseError)
    ensures GnuTooSmall(old(image.View())) ==> r.Err? && image.View() == old(image.View())
    ensures !GnuTooSmall(old(image.View())) && |hashes| <= 0x1_0000_0000 ==> r.Ok?
    ensures r.Ok? ==> GnuRebuilt(old(image.View()), image.View(), dynsym, hashes, r.value)
  {
    if GnuTooSmall(image.View()) {
      return Err(ParseError);
    }
    var found := GnuFound(image.View());
    if found.None? {
      return Ok(None);
    }
    var (gh, h) := found.value;
    ghost var v := image.View();
    SymbolsFit(v, dynsym, gh, h, hashes);
    HashedConsistent(v.enc, h, hashes);
    var es := HashedEntries(h, hashes);
    var old2new, new2old := Positions(hashes[h.symndx..], h.nbuckets);
    assert new2old == Reorders(h, hashes).new2old;
    MoveAll(image, dynsym, h.symndx, old2new, Reorders(h, hashes));
    var ok := RefillSection(image, gh, h, es);
    if !ok {
      return Err(ParseError);
    }
    r := Ok(Some(Reordering(h.symndx, new2old)));
  }

  method RefillSection(image: ElfImage, gh: nat, h: GnuHash.Header, es: seq<GnuHash.Entry>) returns (ok: bool)
    requires gh < |image.data| && GnuTable.Consistent(h, es) && h.wordbits == 8 * GnuTable.WordSize(image.enc.class_)
    requires GnuTable.ChainOff(image.enc, h) + Span(|es|, 4) <= |image.data[gh]|
    modifies image
    ensures h.symndx + |es| <= 0x1_0000_0000 ==> ok
    ensures var v := old(image.View());
            ok ==> image.View() == v.(data := v.data[gh := GnuTable.RebuiltUnder(v.enc, h, v.data[gh], es)])
  {
    var a := ArrayOf(image.data[gh]);
    ghost var d, end := image.data[gh], GnuTable.ChainOff(image.enc, h) + Span(|es|, 4);
    assert a[..16] == d[..16] && a[end..] == d[end..];
    ok := GnuTable.RefillTables(a, image.enc.endian, GnuTable.WordSize(image.enc.class_), h, es);
    image.data := image.data[gh := a[..]];
  }

  method RebuildSysvHash(image: ElfImage, hashes: seq<u32>, ro: Option<Reordering>)
    requires |image.data| == |image.shdrs| && OfSize(ro, |hashes|)
    requires SysvFound(image.View()).Some? ==> SysvFound(image.View()).value.2 <= |hashes|
    modifies image
    ensures image.View() == SysvStage(old(image.View()), hashes, ro)
  {
    var found := SysvFound(image.View());
    if found.Some? {
      var (i, nbuckets, nchain) := found.value;
      var a := ArrayOf(image.data[i]);
      SysvHash.Refill(a, image.enc.endian, SysvBuckets(hashes, ro, nbuckets, nchain), nbuckets);
      image.data := image.data[i := a[..]];
    }
  }

  // ---- What the stages leave alone ----

  /** The names stage rewrites the symbol and string tables and nothing else. */
  lemma NamesKept(v: Image, dynsym: nat, dynstr: nat, remap: map<seq<byte>, seq<byte>>, w: Image)
    requires Separate(v) && v.FindSection(DYNSYM) == Some(dynsym) && v.FindSection(DYNSTR) == Some(dynstr)
    requires NamesStage(v, dynsym, dynstr, remap) == Some(w)
    ensures Refilled(v, w) && Separate(w) && dynsym != dynstr && |w.data[dynsym]| == |v.data[dynsym]|
    ensures forall i :: 0 <= i < |v.data| && i != dynsym && i != dynstr ==> w.data[i] == v.data[i]
  {
    NamesDiffer();
    assert Symbolic(v, dynsym) && Symbolic(v, dynstr);
    assert Touched(v, dynsym) && Touched(v, dynstr);
    RefilledSeparate(v, w);
  }

  lemma GnuRefilled(v: Image, w: Image, dynsym: nat, n: nat, hashes: seq<u32>, ro: Option<Reordering>)
    requires Separate(v) && |hashes| == n && (GnuFound(v).Some? ==> VersionsCover(v, n))
             && GnuRebuilt(v, w, dynsym, hashes, ro)
    ensures Refilled(v, w)
  {
    if GnuFound(v).Some? {
      var (gh, h) := GnuFound(v).value;
      var old2new :| Inverse(old2new, ro.value.new2old) && w == GnuStage(v, dynsym, gh, h, hashes, old2new);
      VersionsCoverFit(v, n, Reorders(h, hashes));
      GnuStageSections(v, dynsym, gh, h, hashes, old2new);
    }
  }

  /** The GNU stage leaves `.hash` alone. */
  lemma HashKept(v: Image, m: Image, dynsym: nat, n: nat, hashes: seq<u32>, ro: Option<Reordering>, i: nat)
    requires Separate(v) && |hashes| == n && (GnuFound(v).Some? ==> VersionsCover(v, n))
             && GnuRebuilt(v, m, dynsym, hashes, ro)
    requires i < |v.data| && v.SectionName(i) == Some(HASH)
    ensures |m.data| == |v.data| && m.data[i] == v.data[i]
  {
    NamesDiffer();
    if GnuFound(v).Some? {
      var (gh, h) := GnuFound(v).value;
      var old2new :| Inverse(old2new, ro.value.new2old) && m == GnuStage(v, dynsym, gh, h, hashes, old2new);
      VersionsCoverFit(v, n, Reorders(h, hashes));
      GnuStageSections(v, dynsym, gh, h, hashes, old2new);
      SymbolicKept(v, m, dynsym, gh, h, hashes, old2new, i);
    }
  }

  lemma SymbolicKept(v: Image, m: Image, dynsym: nat, gh: nat, h: GnuHash.Header, hashes: seq<u32>, old2new: seq<nat>,
                     i: nat)
    requires Separate(v) && GnuInput(v, dynsym, gh, h, |hashes|) && |m.data| == |v.data|
    requires GnuSections(v, m, dynsym, gh, h, hashes, old2new)
    requires i < |v.data| && v.SectionName(i) == Some(HASH)
    ensures m.data[i] == v.data[i]
  {
    NamesDiffer();
    var ver := v.FindSection(GNU_VERSION);
    assert ver.Some? ==> v.SectionName(ver.value) == Some(GNU_VERSION);
    assert v.SectionName(gh) == Some(GNU_HASH);
    assert Symbolic(v, i);
    assert m.data[i] == SectionRemapped(v, i, h.symndx, old2new);
  }

  /** A `.hash` section that is left alone is used, or not, as before. */
  lemma SysvKept(v: Image, w: Image)
    requires |v.data| == |v.shdrs| && Refilled(v, w)
    requires v.FindSection(HASH).Some? ==> w.data[v.FindSection(HASH).value] == v.data[v.FindSection(HASH).value]
    ensures SysvFound(w) == SysvFound(v)
  {
    RefilledFind(v, w, HASH);
  }

  lemma GnuKept(v: Image, w: Image)
    requires |v.data| == |v.shdrs| && Refilled(v, w)
    requires v.FindSection(GNU_HASH).Some? ==>
               w.data[v.FindSection(GNU_HASH).value] == v.data[v.FindSection(GNU_HASH).value]
    ensures GnuFound(w) == GnuFound(v) && GnuTooSmall(w) == GnuTooSmall(v)
  {
    RefilledFind(v, w, GNU_HASH);
  }

  lemma RelocsKept(v: Image, w: Image, n: nat)
    requires Separate(v) && Refilled(v, w) && RelocsInRange(v, n)
    requires forall i :: 0 <= i < |v.data| && !Symbolic(v, i) ==> w.data[i] == v.data[i]
    ensures RelocsInRange(w, n)
  {
    forall i, r {:trigger IsReloc(w, i, r)} | IsReloc(w, i, r)
      ensures Relocs.Sym(w.enc, RelocRecord(w, i, r)) < n
    {
      assert !Symbolic(v, i);
      assert IsReloc(v, i, r);
    }
  }

  /** A section with another name is neither table. */
  lemma OtherName(v: Image, dynsym: nat, dynstr: nat, name: seq<byte>)
    requires v.FindSection(DYNSYM) == Some(dynsym) && v.FindSection(DYNSTR) == Some(dynstr) && name != DYNSYM
             && name != DYNSTR
    ensures v.FindSection(name).Some? ==> v.FindSection(name).value != dynsym && v.FindSection(name).value != dynstr
  {
  }

  /** Renaming alone keeps every condition of the later stages. */
  lemma NamesKeepReady(v: Image, dynsym: nat, dynstr: nat, remap: map<seq<byte>, seq<byte>>, w: Image)
    requires v.FindSection(DYNSYM) == Some(dynsym) && v.FindSection(DYNSTR) == Some(dynstr)
    requires dynsym < |v.data| && Ready(v, dynsym) && NamesStage(v, dynsym, dynstr, remap) == Some(w)
    ensures Refilled(v, w) && w.FindSection(DYNSYM) == Some(dynsym) && Ready(w, dynsym)
            && SymCount(w, dynsym) == SymCount(v, dynsym)
    ensures GnuTooSmall(w) == GnuTooSmall(v)
  {
    NamesDiffer();
    NamesKept(v, dynsym, dynstr, remap, w);
    OtherName(v, dynsym, dynstr, HASH);
    OtherName(v, dynsym, dynstr, GNU_HASH);
    OtherName(v, dynsym, dynstr, GNU_VERSION);
    SysvKept(v, w);
    GnuKept(v, w);
    RefilledFind(v, w, DYNSYM);
    RefilledFind(v, w, GNU_VERSION);
    if GnuFound(v).Some? {
      assert Symbolic(v, dynsym) && Symbolic(v, dynstr);
      RelocsKept(v, w, SymCount(v, dynsym));
    }
  }

  // ---- The operation ----

  /** What the operation demands of an image with a symbol and a string table: its
      tables are apart, a hash table it can use describes no more symbols than there
      are, so does the version array, and relocations name only these. */
  ghost predicate Ready(v: Image, dynsym: nat)
    requires dynsym < |v.data|
  {
    && Separate(v)
    && (SysvFound(v).Some? ==> SysvFound(v).value.2 <= SymCount(v, dynsym))
    && match GnuFound(v)
       case None => true
       case Some((gh, h)) =>
         && GnuFits(v, gh, h, SymCount(v, dynsym)) && VersionsCover(v, SymCount(v, dynsym))
         && RelocsInRange(v, SymCount(v, dynsym))
  }

  lemma ReadyForGnu(v: Image, dynsym: nat, hashes: seq<u32>)
    requires v.FindSection(DYNSYM) == Some(dynsym) && dynsym < |v.data| && Ready(v, dynsym)
             && |hashes| == SymCount(v, dynsym)
    ensures GnuReady(v, dynsym, hashes)
  {
    if GnuFound(v).Some? {
      var (gh, h) := GnuFound(v).value;
      VersionsCoverFit(v, |hashes|, Reorders(h, hashes));
      GnuStageSections(v, dynsym, gh, h, hashes, []);
    }
  }

  /** The `.hash` stage finds what it would have found before the GNU stage. */
  lemma GnuKeepsSysv(v: Image, m: Image, dynsym: nat, hashes: seq<u32>, ro: Option<Reordering>)
    requires v.FindSection(DYNSYM) == Some(dynsym) && dynsym < |v.data| && Ready(v, dynsym)
             && |hashes| == SymCount(v, dynsym)
    requires GnuRebuilt(v, m, dynsym, hashes, ro)
    ensures |m.data| == |m.shdrs| && SysvFound(m) == SysvFound(v)
  {
    GnuRefilled(v, m, dynsym, |hashes|, hashes, ro);
    if v.FindSection(HASH).Some? {
      HashKept(v, m, dynsym, |hashes|, hashes, ro, v.FindSection(HASH).value);
    }
    SysvKept(v, m);
  }

  /** All stages: `w` is `v` with its symbols renamed and its hash tables rebuilt,
      the hashed symbols reordered by `ro`. */
  ghost predicate SymbolsRenamed(v: Image, w: Image, dynsym: nat, dynstr: nat, remap: map<seq<byte>, seq<byte>>,
                                 ro: Option<Reordering>)
    requires dynsym < |v.data| == |v.shdrs| && dynstr < |v.data|
  {
    var v1 := NamesStage(v, dynsym, dynstr, remap);
    && v1.Some?
    && var names := Names(v1.value.enc, SymTables(v1.value, dynsym, dynstr), SymCount(v1.value, dynsym));
       exists m: Image ::
         && GnuRebuilt(v1.value, m, dynsym, GnuHashes(names), ro)
         && |m.data| == |m.shdrs| && OfSize(ro, |names|)
         && (SysvFound(m).Some? ==> SysvFound(m).value.2 <= |names|)
         && w == SysvStage(m, SysvHashes(names), ro)
  }

  /** Some symbol has a name the map changes. */
  ghost predicate Hits(v: Image, dynsym: nat, dynstr: nat, remap: map<seq<byte>, seq<byte>>)
    requires dynsym < |v.data| && dynstr < |v.data|
  {
    exists name :: name in Names(v.enc, SymTables(v, dynsym, dynstr), SymCount(v, dynsym)) && name in remap
  }

  lemma StagesDone(v: Image, v1: Image, m: Image, w: Image, dynsym: nat, dynstr: nat,
                   remap: map<seq<byte>, seq<byte>>, names: seq<seq<byte>>, ro: Option<Reordering>)
    requires dynsym < |v.data| == |v.shdrs| && dynstr < |v.data| && NamesStage(v, dynsym, dynstr, remap) == Some(v1)
    requires names == Names(v1.enc, SymTables(v1, dynsym, dynstr), SymCount(v1, dynsym))
    requires GnuRebuilt(v1, m, dynsym, GnuHashes(names), ro) && |m.data| == |m.shdrs| && OfSize(ro, |names|)
    requires (SysvFound(m).Some? ==> SysvFound(m).value.2 <= |names|) && w == SysvStage(m, SysvHashes(names), ro)
    ensures SymbolsRenamed(v, w, dynsym, dynstr, remap, ro)
  {
  }

  /** `rename_dynamic_symbols`: it does nothing when no name is in the map, and
      succeeds exactly when the names fit and `.gnu.hash` is not cut short. */
  method RenameDynamicSymbols(image: ElfImage, remap: map<seq<byte>, seq<byte>>) returns (r: Result<bool>)
    requires |image.data| == |image.shdrs|
    requires var v := image.View();
             v.FindSection(DYNSYM).Some? && v.FindSection(DYNSTR).Some? ==> Ready(v, v.FindSection(DYNSYM).value)
    modifies image
    ensures var v := old(image.View());
            var s, t := v.FindSection(DYNSYM), v.FindSection(DYNSTR);
            if s.None? || t.None? then r == Err(MissingError) && image.View() == v
            else if !Hits(v, s.value, t.value, remap) then r == Ok(false) && image.View() == v
            else
              && (NamesStage(v, s.value, t.value, remap).None? || GnuTooSmall(v) ==> r == Err(ParseError))
              && (NamesStage(v, s.value, t.value, remap).Some? && !GnuTooSmall(v)
                  && SymCount(v, s.value) <= 0x1_0000_0000 ==>
                    r == Ok(true))
              && (r.Ok? ==> r == Ok(true) && exists ro :: SymbolsRenamed(v, image.View(), s.value, t.value, remap, ro))
  {
    var s, t := image.View().FindSection(DYNSYM), image.View().FindSection(DYNSTR);
    if s.None? || t.None? {
      return Err(MissingError);
    }
    var dynsym, dynstr := s.value, t.value;
    ghost var v := image.View();
    NamesDiffer();
    var n := SymCount(image.View(), dynsym);
    var names := Names(image.enc, SymTables(image.View(), dynsym, dynstr), n);
    var renames := CollectRenames(names, remap);
    RenamesEmpty(names, remap);
    if renames == [] {
      return Ok(false);
    }
    var ok := AppendNames(image, dynsym, dynstr, n, renames);
    if !ok {
      return Err(ParseError);
    }
    ghost var v1 := image.View();
    NamesKeepReady(v, dynsym, dynstr, remap, v1);
    names := Names(image.enc, SymTables(image.View(), dynsym, dynstr), n);
    ReadyForGnu(v1, dynsym, GnuHashes(names));
    var rebuilt := RebuildGnuHash(image, dynsym, GnuHashes(names));
    if rebuilt.Err? {
      return Err(rebuilt.error);
    }
    ghost var m := image.View();
    GnuKeepsSysv(v1, m, dynsym, GnuHashes(names), rebuilt.value);
    RebuildSysvHash(image, SysvHashes(names), rebuilt.value);
    StagesDone(v, v1, m, image.View(), dynsym, dynstr, remap, names, rebuilt.value);
    r := Ok(true);
  }

  lemma {:induction false} RenamesEmpty(names: seq<seq<byte>>, remap: map<seq<byte>, seq<byte>>)
    ensures Renames(names, remap) == [] <==> forall name :: name in names ==> name !in remap
  {
    if names != [] {
      var n := |names| - 1;
      RenamesEmpty(names[..n], remap);
      assert names == names[..n] + [names[n]];
    }
  }
}
