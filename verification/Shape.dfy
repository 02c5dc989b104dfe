/** The final image of a layout, field by field. */
module Shape {
  import opened Bytes
  import opened Ir
  import opened Codec
  import opened Align
  import opened Serialize
  import opened Layout

  ghost predicate Arrangeable(img: Image, g: Geometry)
  {
    Placeable(img, g.region) && g.region.dataLen <= g.region.len
  }

  /** Two images whose sections carry the same names and types. */
  ghost predicate SameNames(a: Image, b: Image)
  {
    && |a.shdrs| == |b.shdrs| && |a.data| == |b.data|
    && a.ehdr.shstrndx == b.ehdr.shstrndx
    && (a.ehdr.shstrndx < |a.data| ==> a.data[a.ehdr.shstrndx] == b.data[b.ehdr.shstrndx])
    && forall i :: 0 <= i < |a.shdrs| ==> a.shdrs[i].name == b.shdrs[i].name && a.shdrs[i].shtype == b.shdrs[i].shtype
  }

  lemma SameFind(a: Image, b: Image, name: seq<byte>)
    requires SameNames(a, b)
    ensures a.FindSection(name) == b.FindSection(name)
  {
    assert a.Named(name) == b.Named(name);
  }

  lemma SameDynIdx(a: Image, b: Image)
    requires |a.shdrs| == |b.shdrs| && forall i :: 0 <= i < |a.shdrs| ==> a.shdrs[i].shtype == b.shdrs[i].shtype
    ensures a.DynIdx() == b.DynIdx()
  {
    SameFirstDynamic(a.shdrs, b.shdrs);
  }

  /** The loads take their places among the original headers: at the end, or
      moved in front of the first load. */
  function PushedPhdrs(img: Image, g: Geometry, front: bool): (r: seq<Phdr>)
    requires g.region.dataLen <= g.region.len
    ensures |r| == |img.phdrs| + |NewLoads(g.region, g.at)|
  {
    var loads := NewLoads(g.region, g.at);
    FirstLoadBeforePushed(img.phdrs, loads);
    if front then Rotated(img.phdrs + loads, |loads|) else img.phdrs + loads
  }

  lemma PushedShape(img: Image, g: Geometry, front: bool)
    requires Arrangeable(img, g)
    ensures var p := Pushed(img, g, front);
            && p == img.(shdrs := PlacedShdrs(img, g.region, g.at.off, g.at.vaddr),
                         phdrs := PushedPhdrs(img, g, front), ehdr := p.ehdr)
            && p.ehdr == img.ehdr.(entry := p.ehdr.entry)
            && SameNames(img, p)
            && p.ehdr.entry == (
                 if g.region.loads == 2 && img.FindSection(STUB).Some?
                 then p.shdrs[img.FindSection(STUB).value].addr + STUB_CODE_OFFSET else img.ehdr.entry)
  {
    var shdrs := PlacedShdrs(img, g.region, g.at.off, g.at.vaddr);
    var placed := img.(shdrs := shdrs, phdrs := img.phdrs + NewLoads(g.region, g.at));
    SameFind(img, placed, STUB);
  }

  /** Finishing rewrites the segments, the dynamic array and the dynamic
      section's bytes, and nothing else. */
  ghost predicate FinishedFrom(p: Image, note: Option<nat>, phdrVaddr: nat, moves: seq<Moved>, f: Image)
  {
    && f == p.(phdrs := SyncedPhdrs(p, note, phdrVaddr), dynamic := FixedDynamic(p, moves), data := f.data)
    && |f.data| == |p.data|
    && (forall i :: 0 <= i < |f.data| && p.DynIdx() != Some(i) ==> f.data[i] == p.data[i])
    && match p.DynIdx()
       case None => true
       case Some(d) =>
         d < |f.data| && PaddedDynamic(f, p.shdrs[d].size) == Ok(f.data[d])
  }

  lemma FinishedShape(p: Image, note: Option<nat>, phdrVaddr: nat, moves: seq<Moved>)
    requires WellShaped(p) && Finished(p, note, phdrVaddr, moves).Ok?
    ensures FinishedFrom(p, note, phdrVaddr, moves, Finished(p, note, phdrVaddr, moves).value)
  {
    var q := p.(phdrs := SyncedPhdrs(p, note, phdrVaddr), dynamic := FixedDynamic(p, moves));
    SameDynIdx(p, q);
    if q.DynIdx().Some? {
      var d := q.DynIdx().value;
      var f := Finished(p, note, phdrVaddr, moves).value;
      assert PaddedDynamic(f, p.shdrs[d].size) == PaddedDynamic(q, p.shdrs[d].size);
    }
  }

  /** Everything a layout's final image is made of. */
  ghost predicate ArrangedFrom(img: Image, g: Geometry, note: Option<nat>, front: bool, f: Image)
  {
    && Arrangeable(img, g)
    && FinishedFrom(Pushed(img, g, front), note, PhdrVaddr(g), Moves(img, g.region, g.at.vaddr, |g.region.sections|), f)
  }

  lemma ArrangedShape(img: Image, g: Geometry, note: Option<nat>, front: bool)
    requires Arrangeable(img, g) && Arranged(img, g, note, front).Ok?
    ensures ArrangedFrom(img, g, note, front, Arranged(img, g, note, front).value)
  {
    FinishedShape(Pushed(img, g, front), note, PhdrVaddr(g), Moves(img, g.region, g.at.vaddr, |g.region.sections|));
  }

  /** The section-name table is an ordinary section, not the dynamic array. */
  ghost predicate NamesFixed(img: Image)
  {
    img.ehdr.shstrndx < |img.shdrs| ==> img.DynIdx() != Some(img.ehdr.shstrndx)
  }

  lemma FinalFields(img: Image, g: Geometry, note: Option<nat>, front: bool, f: Image)
    requires ArrangedFrom(img, g, note, front, f)
    ensures f.enc == img.enc
    ensures f.ehdr == img.ehdr.(entry := f.ehdr.entry)
    ensures |f.shdrs| == |f.data| == |img.shdrs| == |img.data|
    ensures forall i :: 0 <= i < |f.shdrs| ==> f.shdrs[i] == PlacedShdr(img, g.region, g.at.off, g.at.vaddr, i)
    ensures forall i :: 0 <= i < |f.data| && img.DynIdx() != Some(i) ==> f.data[i] == img.data[i]
    ensures f.DynIdx() == img.DynIdx()
    ensures |f.phdrs| == |img.phdrs| + |NewLoads(g.region, g.at)|
    ensures |f.dynamic| == |img.dynamic|
    ensures WellShaped(f)
    ensures NamesFixed(img) ==> SameNames(img, f)
  {
    PushedShape(img, g, front);
    var p := Pushed(img, g, front);
    SameDynIdx(img, p);
    SameDynIdx(img, f);
  }

  lemma FinalDynamicData(img: Image, g: Geometry, note: Option<nat>, front: bool, f: Image, d: nat)
    requires ArrangedFrom(img, g, note, front, f) && img.DynIdx() == Some(d)
    ensures |f.data| == |img.shdrs| == |f.shdrs|
    ensures PaddedDynamic(f, f.shdrs[d].size) == Ok(f.data[d])
    ensures |f.data[d]| == Max(|img.dynamic| * DynSize(img.enc.class_), f.shdrs[d].size)
  {
    PushedShape(img, g, front);
    var p := Pushed(img, g, front);
    SameDynIdx(img, p);
    FinalFields(img, g, note, front, f);
    ConcatLength(WrittenDyns(f.enc, f.dynamic), DynSize(f.enc.class_));
  }
}
