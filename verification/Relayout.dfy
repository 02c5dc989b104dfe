/** The two layouts and `finalize` in place on the image (src/layout.rs): each
    writes exactly the file its specification names, or fails as it does. */
module Relayout {
  import opened Bytes
  import opened Ir
  import opened Codec
  import opened Align
  import opened Serialize
  import opened Layout
  import opened LayoutOps
  import Verify
  import RegionFacts
  import Writer
  import Parser
  import Append
  import Prepend
  import AppendTheorems
  import PrependTheorems

  // ---- What the loops over the program headers collect ----

  datatype Bounds = Bounds(align: nat, end: nat, base: Option<nat>)

  function BoundsOf(phdrs: seq<Phdr>, page: nat): Bounds
  {
    Bounds(MaxAlign(phdrs, page), MaxEnd(phdrs), LowestOf(Loads(phdrs)))
  }

  function LowestOf(loads: seq<Phdr>): Option<nat>
  {
    if loads == [] then None else Some(MinVaddr(loads))
  }

  lemma LowestSnoc(loads: seq<Phdr>, p: Phdr)
    ensures LowestOf(loads + [p])
            == match LowestOf(loads) case None => Some(p.vaddr) case Some(m) => Some(if p.vaddr < m then p.vaddr else m)
  {
    assert (loads + [p])[..|loads|] == loads;
  }

  method MeasureSegments(phdrs: seq<Phdr>, page: nat) returns (b: Bounds)
    ensures b == BoundsOf(phdrs, page)
  {
    var align, end := page, 0;
    var base: Option<nat> := None;
    for i := 0 to |phdrs|
      invariant Bounds(align, end, base) == BoundsOf(phdrs[..i], page)
    {
      var p := phdrs[i];
      assert phdrs[..i + 1][..i] == phdrs[..i];
      end := Max(end, p.vaddr + p.memsz);
      align := Max(align, p.align);
      if p.ptype == PT_LOAD {
        LowestSnoc(Loads(phdrs[..i]), p);
        base := Some(match base case None => p.vaddr case Some(m) => if p.vaddr < m then p.vaddr else m);
      } else {
        assert Loads(phdrs[..i]) + [] == Loads(phdrs[..i]);
      }
    }
    assert phdrs[..|phdrs|] == phdrs;
    b := Bounds(align, end, base);
  }

  lemma {:induction false} MaxAlignSnoc(loads: seq<Phdr>, p: Phdr, page: nat)
    ensures MaxAlign(loads + [p], page) == Max(MaxAlign(loads, page), p.align)
  {
    assert (loads + [p])[..|loads|] == loads;
  }

  method MeasureLoads(phdrs: seq<Phdr>, page: nat) returns (align: nat, base: Option<nat>)
    ensures align == MaxAlign(Loads(phdrs), page) && base == LowestOf(Loads(phdrs))
  {
    align, base := page, None;
    for i := 0 to |phdrs|
      invariant align == MaxAlign(Loads(phdrs[..i]), page) && base == LowestOf(Loads(phdrs[..i]))
    {
      var p := phdrs[i];
      assert phdrs[..i + 1][..i] == phdrs[..i];
      if p.ptype == PT_LOAD {
        LowestSnoc(Loads(phdrs[..i]), p);
        MaxAlignSnoc(Loads(phdrs[..i]), p, page);
        align := Max(align, p.align);
        base := Some(match base case None => p.vaddr case Some(m) => if p.vaddr < m then p.vaddr else m);
      } else {
        assert Loads(phdrs[..i]) + [] == Loads(phdrs[..i]);
      }
    }
    assert phdrs[..|phdrs|] == phdrs;
  }

  // ---- Bringing the image in line and writing it ----

  /** The tail both layouts share, after the region's loads have their place. */
  method Complete(image: ElfImage, note: Option<nat>, phdrVaddr: nat, moves: seq<Moved>) returns (ok: bool)
    requires WellShaped(image.View()) && (note.Some? ==> note.value < |image.phdrs|)
    modifies image
    ensures var f := Finished(old(image.View()), note, phdrVaddr, moves);
            ok == f.Ok? && (ok ==> image.View() == f.value)
  {
    ghost var v := image.View();
    SyncSegments(image, note, phdrVaddr);
    ghost var w := image.View();
    FixupDynamicAddrs(image, moves);
    SameFixed(v, w, moves);
    ok := SyncDynamic(image);
  }

  /** Dynamic fixups do not read the program headers. */
  lemma SameFixed(v: Image, w: Image, moves: seq<Moved>)
    requires w == v.(phdrs := w.phdrs)
    ensures FixedDynamic(w, moves) == FixedDynamic(v, moves)
  {
    SameSections(v, w, RLD_MAP);
    SameSections(v, w, DYNSTR);
    forall j | 0 <= j < |v.dynamic|
      ensures FixedEntry(w, moves, j) == FixedEntry(v, moves, j)
    {
    }
  }

  method CheckAndWrite(image: ElfImage, original: seq<byte>, shift: nat, total: nat) returns (r: Result<seq<byte>>)
    requires WellShaped(image.View())
    ensures r == match Verify.Run(image.View(), total)
                 case Err(e) => Err(e)
                 case Ok(_) => WriteSpec(image.View(), original, shift, total)
  {
    var checked := Verify.Run(image.View(), total);
    if checked.Err? {
      return Err(checked.error);
    }
    r := Writer.WriteToShifted(image.View(), original, shift, total);
  }

  // ---- Placing does not read what the layouts change first ----

  /** Shifting offsets and moving the tables changes no address, size or content. */
  ghost predicate SameAddresses(v: Image, w: Image)
  {
    && w.enc == v.enc && w.data == v.data && |w.shdrs| == |v.shdrs| && |w.ehdr.ident| == |v.ehdr.ident|
    && forall i :: 0 <= i < |v.shdrs| ==> w.shdrs[i] == v.shdrs[i].(offset := w.shdrs[i].offset)
  }

  lemma {:induction false} SameRanges(v: Image, w: Image, secs: seq<nat>, n: nat)
    requires SameAddresses(v, w) && InRange(v, secs) && InRange(w, secs) && n <= |secs|
    ensures OldRanges(w, secs, n) == OldRanges(v, secs, n)
  {
    if n > 0 {
      SameRanges(v, w, secs, n - 1);
    }
  }

  lemma SameRefs(v: Image, w: Image, ranges: seq<(nat, nat)>)
    requires SameAddresses(v, w) && WellShaped(v) && WellShaped(w)
    ensures NoAddressRefs(w, ranges) == NoAddressRefs(v, ranges)
  {
    forall i | 0 <= i < |v.shdrs|
      ensures References(w, i, ranges) == References(v, i, ranges)
    {
    }
  }

  lemma PlanDistinct(v: Image, flags: seq<bool>, head1: nat, head2: nat, page: nat)
    requires WellShaped(v) && |flags| == |v.shdrs|
    ensures Distinct(Plan(v, flags, head1, head2, page).sections)
  {
    RegionFacts.PlanOk(v, flags, head1, head2, page);
  }

  // ---- The append layout ----

  /** The kept content's end: a dropped region's start, or the file's. */
  function Cut(start: Option<nat>, original: seq<byte>): nat
  {
    match start case None => |original| case Some(s) => s
  }

  /** The file the append layout writes for an image. */
  ghost function AppendResult(v: Image, grown: seq<nat>, page: nat, reclaim: bool,
                              original: seq<byte>): Result<seq<byte>>
    requires WellShaped(v)
  {
    var d, start := DropPrior(v, reclaim), RegionStart(v, reclaim);
    AppendTheorems.AppendFile(d, RelocationFlags(d, grown, start), Cut(start, original), page, original)
  }

  /** The region's place: past every segment in memory, past the kept content in the file. */
  method AppendSite(image: ElfImage, cut: nat, page: nat) returns (off: nat, base: nat, align: nat)
    ensures off == AppendOffset(image.View(), cut, page) && base == BaseVaddr(Loads(image.phdrs))
    ensures align == MaxAlign(image.phdrs, page)
  {
    var b := MeasureSegments(image.phdrs, page);
    base := match b.base case None => 0 case Some(m) => m;
    align := b.align;
    var startPage := RoundUp(b.end, align);
    off := RoundUp(Max(cut, if startPage < base then 0 else startPage - base), align);
  }

  method AppendPlan(image: ElfImage, relocate: seq<nat>, ghost flags: seq<bool>, cut: nat,
                    page: nat) returns (g: Geometry)
    requires WellShaped(image.View()) && |flags| == |image.shdrs| && relocate == Indices(flags)
    ensures g == AppendGeometry(image.View(), flags, cut, page) && Distinct(g.region.sections)
  {
    var img := image.View();
    var off, base, align := AppendSite(image, cut, page);
    var head: nat -> nat := n => AppendPhtSize(img, n) + ShtSize(img);
    var region := PlanRegion(image, relocate, flags, head, page);
    PlanDistinct(img, flags, head(1), head(2), page);
    Append.HeadPlan(img, flags, page, head);
    g := Geometry(region, Site(off, base + off, region.dataLen, align, page),
                  off, off + AppendPhtSize(img, region.loads), off + region.len + 1);
  }

  /** Move the new loads, last in the table, in front of the first load. */
  method RotateLoads(image: ElfImage, n: nat)
    requires n <= |image.phdrs| - FirstLoad(image.phdrs)
    modifies image
    ensures image.View() == old(image.View()).(phdrs := Rotated(old(image.phdrs), n))
  {
    var f, end := FirstLoad(image.phdrs), |image.phdrs| - n;
    image.phdrs := image.phdrs[..f] + image.phdrs[end..] + image.phdrs[f..end];
  }

  /** Emit, rotate and complete: what both layouts do once they have their geometry. */
  method Arrange(image: ElfImage, g: Geometry, note: Option<nat>, front: bool) returns (r: Result<()>)
    requires Placeable(image.View(), g.region) && Distinct(g.region.sections) && g.region.dataLen <= g.region.len
    requires note.Some? ==> note.value < |image.phdrs|
    modifies image
    ensures var v := old(image.View());
            if !NoAddressRefs(v, OldRanges(v, g.region.sections, |g.region.sections|)) then r == Err(UnsupportedError)
            else match Arranged(v, g, note, front)
                 case Err(_) => r == Err(SerializeError)
                 case Ok(f) => r == Ok(()) && image.View() == f
  {
    ghost var v := image.View();
    var moves := Emit(image, g.region, g.at);
    if moves.Err? {
      return Err(moves.error);
    }
    FirstLoadBeforePushed(v.phdrs, NewLoads(g.region, g.at));
    if front {
      RotateLoads(image, if g.region.loads == 2 then 2 else 1);
    }
    assert image.View() == Pushed(v, g, front);
    var ok := Complete(image, note, PhdrVaddr(g), moves.value);
    r := if ok then Ok(()) else Err(SerializeError);
  }

  /** `relayout`. */
  method AppendLayout(image: ElfImage, original: seq<byte>, grown: seq<nat>, page: nat, reclaim: bool)
    returns (r: Result<seq<byte>>)
    requires WellShaped(image.View())
    modifies image
    ensures r == AppendResult(old(image.View()), grown, page, reclaim, original)
  {
    var start, relocate := RelocationSet(image, grown, reclaim);
    ghost var d := image.View();
    ghost var flags := RelocationFlags(d, grown, start);
    var g := AppendPlan(image, relocate, flags, Cut(start, original), page);
    var note := LdcacheNote(image.View());
    image.ehdr := image.ehdr.(phoff := g.phoff, shoff := g.shoff);
    ghost var w := WithTables(d, g);
    assert image.View() == w;
    SameRanges(d, w, g.region.sections, |g.region.sections|);
    SameRefs(d, w, OldRanges(d, g.region.sections, |g.region.sections|));
    var arranged := Arrange(image, g, note, false);
    if arranged.Err? {
      return Err(arranged.error);
    }
    r := CheckAndWrite(image, original, 0, g.total);
  }

  // ---- The prepend layout ----

  /** The file the prepend layout writes, or `None` when there is no room below the image. */
  ghost function PrependResult(v: Image, grown: seq<nat>, page: nat, keepTail: bool,
                               original: seq<byte>): Result<Option<seq<byte>>>
    requires WellShaped(v) && page > 0
  {
    var d, start := DropPrior(v, true), RegionStart(v, true);
    var flags := RelocationFlags(d, grown, start);
    if !CanPrepend(d, flags, page, keepTail) then Ok(None)
    else
      match PrependTheorems.PrependFile(d, flags, page, keepTail, original)
      case Err(e) => Err(e)
      case Ok(b) => Ok(Some(b))
  }

  /** The region and how far everything else moves up, if it fits below the image. */
  method PrependPlan(image: ElfImage, relocate: seq<nat>, ghost flags: seq<bool>, origLen: nat, page: nat,
                     keepTail: bool)
    returns (r: Option<(Geometry, nat)>)
    requires WellShaped(image.View()) && |flags| == |image.shdrs| && relocate == Indices(flags) && page > 0
    ensures r.Some? <==> CanPrepend(image.View(), flags, page, keepTail)
    ensures r.Some? ==> r.value.0 == PrependGeometry(image.View(), flags, origLen, page, keepTail)
                        && r.value.1 == PrependShift(image.View(), flags, page, keepTail)
                        && Distinct(r.value.0.region.sections)
  {
    var img := image.View();
    var align, base := MeasureLoads(img.phdrs, page);
    if base.None? || base.value % align != 0 {
      return None;
    }
    var head: nat -> nat := n => PrependHead(img, n, keepTail);
    var region := PlanRegion(image, relocate, flags, head, page);
    PlanDistinct(img, flags, head(1), head(2), page);
    Prepend.HeadPlan(img, flags, page, keepTail, head);
    var shift := RoundUp(region.len, align);
    if base.value < shift {
      return None;
    }
    r := Some((PrependSite(img, region, base.value, align, shift, origLen, page, keepTail), shift));
  }

  method ShiftOffsets(image: ElfImage, shift: nat)
    modifies image
    ensures image.View() == Shifted(old(image.View()), shift)
  {
    ghost var v := image.View();
    for i := 0 to |image.phdrs|
      invariant image.View() == v.(phdrs := image.phdrs) && |image.phdrs| == |v.phdrs|
      invariant forall j :: 0 <= j < i ==> image.phdrs[j] == v.phdrs[j].(offset := v.phdrs[j].offset + shift)
      invariant forall j :: i <= j < |v.phdrs| ==> image.phdrs[j] == v.phdrs[j]
    {
      image.phdrs := image.phdrs[i := image.phdrs[i].(offset := image.phdrs[i].offset + shift)];
    }
    assert image.phdrs == ShiftedPhdrs(v.phdrs, shift);
    for i := 0 to |image.shdrs|
      invariant image.View() == v.(phdrs := image.phdrs, shdrs := image.shdrs) && |image.shdrs| == |v.shdrs|
      invariant image.phdrs == ShiftedPhdrs(v.phdrs, shift)
      invariant forall j :: 0 <= j < i ==> image.shdrs[j] == v.shdrs[j].(offset := v.shdrs[j].offset + shift)
      invariant forall j :: i <= j < |v.shdrs| ==> image.shdrs[j] == v.shdrs[j]
    {
      image.shdrs := image.shdrs[i := image.shdrs[i].(offset := image.shdrs[i].offset + shift)];
    }
    assert image.shdrs == ShiftedShdrs(v.shdrs, shift);
  }

  /** `relayout_shift`; `None` leaves the caller to append instead. */
  method PrependLayout(image: ElfImage, original: seq<byte>, grown: seq<nat>, page: nat, keepTail: bool)
    returns (r: Result<Option<seq<byte>>>)
    requires WellShaped(image.View()) && page > 0
    modifies image
    ensures r == PrependResult(old(image.View()), grown, page, keepTail, original)
  {
    var start, relocate := RelocationSet(image, grown, true);
    ghost var d := image.View();
    ghost var flags := RelocationFlags(d, grown, start);
    var plan := PrependPlan(image, relocate, flags, |original|, page, keepTail);
    if plan.None? {
      return Ok(None);
    }
    var (g, shift) := plan.value;
    var note := LdcacheNote(image.View());
    ShiftOffsets(image, shift);
    image.ehdr := image.ehdr.(phoff := g.phoff, shoff := g.shoff);
    ghost var w := WithTables(Shifted(d, shift), g);
    assert image.View() == w;
    SameRanges(d, w, g.region.sections, |g.region.sections|);
    SameRefs(d, w, OldRanges(d, g.region.sections, |g.region.sections|));
    var arranged := Arrange(image, g, note, true);
    if arranged.Err? {
      return Err(arranged.error);
    }
    var written := CheckAndWrite(image, original, shift, g.total);
    r := match written case Err(e) => Err(e) case Ok(b) => Ok(Some(b));
  }

  // ---- What the layout theorems say of these files ----

  /** The file the append path returns is an append in the sense of the theorems. */
  lemma AppendResultAppends(v: Image, grown: seq<nat>, page: nat, reclaim: bool, original: seq<byte>, out: seq<byte>)
    returns (f: Image)
    requires WellShaped(v) && AppendResult(v, grown, page, reclaim, original) == Ok(out)
    requires var d, start := DropPrior(v, reclaim), RegionStart(v, reclaim);
             Append.AppendReady(d, RelocationFlags(d, grown, start), Cut(start, original), page)
    ensures var d, start := DropPrior(v, reclaim), RegionStart(v, reclaim);
            AppendTheorems.Appends(d, RelocationFlags(d, grown, start), Cut(start, original), page, original, f, out)
  {
    var d, start := DropPrior(v, reclaim), RegionStart(v, reclaim);
    f := Appended(d, RelocationFlags(d, grown, start), Cut(start, original), page).value;
  }

  /** The file the prepend path returns is a prepend in the sense of the theorems. */
  lemma PrependResultPrepends(v: Image, grown: seq<nat>, page: nat, keepTail: bool, original: seq<byte>, out: seq<byte>)
    returns (f: Image, shift: nat)
    requires WellShaped(v) && page > 0 && PrependResult(v, grown, page, keepTail, original) == Ok(Some(out))
    requires var d := DropPrior(v, true);
             Prepend.PrependReady(d, RelocationFlags(d, grown, RegionStart(v, true)), |original|, page, keepTail)
    ensures var d := DropPrior(v, true);
            PrependTheorems.Prepends(d, RelocationFlags(d, grown, RegionStart(v, true)), page, keepTail, original,
                                     shift, f, out)
  {
    var d := DropPrior(v, true);
    var flags := RelocationFlags(d, grown, RegionStart(v, true));
    f, shift := Prepended(d, flags, |original|, page, keepTail).value, PrependShift(d, flags, page, keepTail);
  }

  // ---- Which sections move ----

  /** The section's length on disk: the dynamic array is re-encoded and never shrinks. */
  function NewLength(v: Image, i: nat): nat
    requires i < |v.shdrs| && i < |v.data|
  {
    var bytes := if v.enc.class_.Elf64? then |v.dynamic| * 16 else |v.dynamic| * 8;
    if v.DynIdx() != Some(i) then |v.data[i]| else if bytes > v.shdrs[i].size then bytes else v.shdrs[i].size
  }

  lemma GrownIs(v: Image, i: nat)
    requires WellShaped(v) && i < |v.shdrs|
    ensures i in GrownSections(v) <==> v.shdrs[i].shtype != 8 && NewLength(v, i) != v.shdrs[i].size
  {
    IndicesFacts(seq(|v.shdrs|, i requires 0 <= i < |v.shdrs| => Layout.Resized(v, i)));
  }

  /** A section with bytes moves exactly when its length changed or it lies in the region
      that is reclaimed; `SHT_NOBITS` (8) never does. */
  lemma SectionMovesIff(v: Image, start: Option<nat>, i: nat)
    requires WellShaped(v) && i < |v.shdrs|
    ensures RelocationFlags(v, GrownSections(v), start)[i]
            <==> && v.shdrs[i].shtype != 8 && v.data[i] != []
                 && (NewLength(v, i) != v.shdrs[i].size || (start.Some? && start.value <= v.shdrs[i].offset))
  {
    GrownIs(v, i);
  }

  // ---- finalize ----

  /** The in-place rewrite, when nothing grew. */
  ghost function InPlaceResult(v: Image, original: seq<byte>): Result<seq<byte>>
    requires WellShaped(v)
  {
    match SyncedDynamic(v.(dynamic := RldFixed(v)))
    case Err(e) => Err(e)
    case Ok(f) =>
      match Verify.Run(f, |original|)
      case Err(e) => Err(e)
      case Ok(_) => WriteSpec(f, original, 0, |original|)
  }

  datatype Path = Rewriting | Appending | Prepending(keepTail: bool, file: seq<byte>) | Failing(error: Error)

  /** The way `finalize` goes. */
  ghost function PathOf(v: Image, original: seq<byte>, page: nat): (path: Path)
    requires WellShaped(v) && page > 0
    ensures path.Prepending? ==>
              PrependResult(v, GrownSections(v), page, path.keepTail, original) == Ok(Some(path.file))
  {
    var grown := GrownSections(v);
    match ReadEhdr(original)
    case Err(e) => Failing(e)
    case Ok(raw) =>
      if grown == [] && |v.phdrs| <= raw.phnum then Rewriting
      else if v.ehdr.eType != ET_DYN && v.ehdr.eType != ET_EXEC then Failing(UnsupportedError)
      else
        match Parser.HasOverlay(original)
        case Err(_) => Failing(ParseError)
        case Ok(keepTail) =>
          MovingPath(v, original, page, keepTail)
  }

  /** The layout that moves sections. */
  ghost function MovingPath(v: Image, original: seq<byte>, page: nat, keepTail: bool): (path: Path)
    requires WellShaped(v) && page > 0
    ensures path.Prepending? ==>
              PrependResult(v, GrownSections(v), page, path.keepTail, original) == Ok(Some(path.file))
  {
    match PrependAttempt(v, original, page, keepTail)
    case Err(e) => Failing(e)
    case Ok(Some(b)) => Prepending(keepTail, b)
    case Ok(None) => Appending
  }

  /** The prepended file, unless there is no call or no room for it. */
  ghost function PrependAttempt(v: Image, original: seq<byte>, page: nat, keepTail: bool): Result<Option<seq<byte>>>
    requires WellShaped(v) && page > 0
  {
    if !keepTail && v.FindSection(BUN).None? then Ok(None)
    else PrependResult(v, GrownSections(v), page, keepTail, original)
  }

  /** The file `finalize` writes. */
  ghost function FinalizedFile(v: Image, original: seq<byte>, page: nat, noClobber: bool): Result<seq<byte>>
    requires WellShaped(v) && page > 0
  {
    PathFile(v, original, page, noClobber, PathOf(v, original, page))
  }

  ghost function PathFile(v: Image, original: seq<byte>, page: nat, noClobber: bool, path: Path): Result<seq<byte>>
    requires WellShaped(v) && page > 0
  {
    match path
    case Failing(e) => Err(e)
    case Rewriting => InPlaceResult(v, original)
    case Appending => AppendResult(v, GrownSections(v), page, !noClobber, original)
    case Prepending(_, b) => Ok(b)
  }

  method OverlayOf(original: seq<byte>) returns (r: Result<bool>)
    ensures match Parser.HasOverlay(original) case Err(_) => r == Err(ParseError) case Ok(b) => r == Ok(b)
  {
    var parsed := Parser.ParseImage(original);
    if parsed.Err? {
      return Err(ParseError);
    }
    var b := AnyNonZero(original, Parser.DescribedEnd(parsed.value));
    r := Ok(b);
  }

  method AnyNonZero(b: seq<byte>, end: nat) returns (found: bool)
    ensures found == Parser.NonZeroFrom(b, end)
  {
    for i := 0 to |b|
      invariant forall j :: 0 <= j < i && end <= j ==> b[j] == 0
    {
      if end <= i && b[i] != 0 {
        return true;
      }
    }
    found := false;
  }

  method RewriteInPlace(image: ElfImage, original: seq<byte>) returns (r: Result<seq<byte>>)
    requires WellShaped(image.View())
    modifies image
    ensures r == InPlaceResult(old(image.View()), original)
  {
    FixupRldMapRel(image);
    var ok := SyncDynamic(image);
    if !ok {
      return Err(SerializeError);
    }
    r := CheckAndWrite(image, original, 0, |original|);
  }

  /** `finalize`: rewrite in place, prepend, or append. */
  method Finalize(image: ElfImage, original: seq<byte>, page: nat, noClobber: bool) returns (r: Result<seq<byte>>)
    requires WellShaped(image.View()) && page > 0
    modifies image
    ensures r == FinalizedFile(old(image.View()), original, page, noClobber)
  {
    ghost var v := image.View();
    var grown := GrownSections(image.View());
    var raw := ReadEhdr(original);
    if raw.Err? {
      assert PathOf(v, original, page) == Failing(raw.error);
      return Err(raw.error);
    }
    if grown == [] && |image.phdrs| <= raw.value.phnum {
      assert PathOf(v, original, page) == Rewriting;
      r := RewriteInPlace(image, original);
      return;
    }
    if image.ehdr.eType != ET_DYN && image.ehdr.eType != ET_EXEC {
      return Err(UnsupportedError);
    }
    var overlay := OverlayOf(original);
    if overlay.Err? {
      return Err(ParseError);
    }
    r := MoveSections(image, original, grown, page, noClobber, overlay.value);
  }

  method TryPrepend(image: ElfImage, original: seq<byte>, grown: seq<nat>, page: nat, keepTail: bool)
    returns (r: Result<Option<seq<byte>>>)
    requires WellShaped(image.View()) && page > 0 && grown == GrownSections(image.View())
    ensures r == PrependAttempt(image.View(), original, page, keepTail)
  {
    if !keepTail && image.View().FindSection(BUN).None? {
      return Ok(None);
    }
    var copy := new ElfImage(image.View());
    r := PrependLayout(copy, original, grown, page, keepTail);
  }

  lemma MovedFile(v: Image, original: seq<byte>, page: nat, noClobber: bool, keepTail: bool)
    requires WellShaped(v) && page > 0
    ensures PathFile(v, original, page, noClobber, MovingPath(v, original, page, keepTail))
            == match PrependAttempt(v, original, page, keepTail)
               case Err(e) => Err(e)
               case Ok(Some(b)) => Ok(b)
               case Ok(None) => AppendResult(v, GrownSections(v), page, !noClobber, original)
  {
  }

  /** Below the image base if an overlay or a bundle asks for it and there is room,
      else behind the program. */
  method MoveSections(image: ElfImage, original: seq<byte>, grown: seq<nat>, page: nat, noClobber: bool, keepTail: bool)
    returns (r: Result<seq<byte>>)
    requires WellShaped(image.View()) && page > 0 && grown == GrownSections(image.View())
    modifies image
    ensures var v := old(image.View());
            r == PathFile(v, original, page, noClobber, MovingPath(v, original, page, keepTail))
  {
    ghost var v := image.View();
    var prepended := TryPrepend(image, original, grown, page, keepTail);
    assert image.View() == v;
    MovedFile(v, original, page, noClobber, keepTail);
    match prepended {
      case Err(e) => return Err(e);
      case Ok(Some(b)) => return Ok(b);
      case Ok(None) => r := AppendLayout(image, original, grown, page, !noClobber);
    }
  }
}
