/** Which way `finalize` (src/layout.rs) goes, and what of the input makes a rewrite in
    place safe: no part of the new image leaves its part of the file. */
module Paths {
  import opened Bytes
  import opened Ir
  import opened Codec
  import opened Serialize
  import opened Layout
  import opened Parser
  import opened Records
  import opened Relayout
  import ParsedRecords
  import Placed

  // ---- The parts of a file ----

  /** `len` bytes of the file from `at` on. */
  datatype Part = Part(at: nat, len: nat)

  function SectionPart(s: Shdr): Part
  {
    if s.shtype == SHT_NOBITS then Part(0, 0) else Part(s.offset, s.size)
  }

  function SectionParts(o: Image): (r: seq<Part>)
    ensures |r| == |o.shdrs| && forall i :: 0 <= i < |r| ==> r[i] == SectionPart(o.shdrs[i])
  {
    seq(|o.shdrs|, i requires 0 <= i < |o.shdrs| => SectionPart(o.shdrs[i]))
  }

  function PhtPart(o: Image): Part
  {
    Part(o.ehdr.phoff, |o.phdrs| * PhdrSize(o.enc.class_))
  }

  function ShtPart(o: Image): Part
  {
    Part(o.ehdr.shoff, |o.shdrs| * ShdrSize(o.enc.class_))
  }

  /** The file header, the two header tables, and the sections. */
  function Parts(o: Image): seq<Part>
  {
    [Part(0, EhdrSize(o.enc.class_)), PhtPart(o), ShtPart(o)] + SectionParts(o)
  }

  /** No two parts share a byte of the file. */
  predicate PartsApart(parts: seq<Part>)
  {
    forall i, j :: 0 <= i < j < |parts| ==> TwoApart(parts[i], parts[j])
  }

  predicate TwoApart(p: Part, q: Part)
  {
    p.len == 0 || q.len == 0 || p.at + p.len <= q.at || q.at + q.len <= p.at
  }

  ghost predicate PartsInside(parts: seq<Part>, total: nat)
  {
    forall k :: 0 <= k < |parts| ==> PartIn(parts[k], total)
  }

  predicate PartIn(p: Part, total: nat)
  {
    p.at + p.len <= total
  }

  /** Each span starts where its part does and is no longer. */
  ghost predicate Fits(spans: seq<Span>, parts: seq<Part>)
  {
    |spans| == |parts| && forall k :: 0 <= k < |spans| ==> FitsIn(spans[k], parts[k])
  }

  predicate FitsIn(s: Span, p: Part)
  {
    s.at == p.at && |s.bytes| <= p.len
  }

  lemma FitApart(spans: seq<Span>, parts: seq<Part>, total: nat)
    requires Fits(spans, parts) && PartsApart(parts) && PartsInside(parts, total)
    ensures PairwiseApart(spans) && Inside(spans, total)
  {
    forall i, j | 0 <= i < j < |spans| ensures Apart(spans[i], spans[j]) {
      assert TwoApart(parts[i], parts[j]) && FitsIn(spans[i], parts[i]) && FitsIn(spans[j], parts[j]);
    }
    forall s | s in spans ensures s.End() <= total {
      var k :| 0 <= k < |spans| && spans[k] == s;
      assert FitsIn(spans[k], parts[k]) && PartIn(parts[k], total);
    }
  }

  /** A parsed file holds all its parts. */
  lemma ParsedInside(data: seq<byte>, o: Image)
    requires Parse(data) == Ok(o)
    ensures PartsInside(Parts(o), |data|)
  {
    HeadsParsed(data, o);
    forall i | 0 <= i < |o.shdrs| ensures PartIn(SectionParts(o)[i], |data|) {
      ParsedRecords.SectionParsed(data, o, i);
    }
    HeadsInside(Part(0, EhdrSize(o.enc.class_)), PhtPart(o), ShtPart(o), SectionParts(o), |data|);
  }

  lemma HeadsParsed(data: seq<byte>, o: Image)
    requires Parse(data) == Ok(o)
    ensures EhdrSize(o.enc.class_) <= |data|
    ensures PartIn(PhtPart(o), |data|)
    ensures PartIn(ShtPart(o), |data|)
  {
    var raw := RawParsed(data, o);
    var raw', c, pht, sht := ParsedRecords.Parts(data, o);
    SliceInside(data, o.ehdr.phoff, |o.phdrs| * PhdrSize(o.enc.class_));
    SliceInside(data, o.ehdr.shoff, |o.shdrs| * ShdrSize(o.enc.class_));
  }

  lemma SliceInside(data: seq<byte>, at: nat, len: nat)
    requires Slice(data, at, len).Ok?
    ensures at + len <= |data|
  {
  }

  lemma HeadsInside(a: Part, b: Part, c: Part, rest: seq<Part>, total: nat)
    requires PartIn(a, total) && PartIn(b, total) && PartIn(c, total)
    requires forall i :: 0 <= i < |rest| ==> PartIn(rest[i], total)
    ensures PartsInside([a, b, c] + rest, total)
  {
  }

  // ---- What edits keep ----

  /** Edits leave the tables and every section of the input where they are; a section
      they add has bytes and no size yet. */
  ghost predicate KeepsPlaces(o: Image, v: Image)
  {
    && v.enc == o.enc && v.ehdr.phoff == o.ehdr.phoff && v.ehdr.shoff == o.ehdr.shoff
    && v.ehdr.shstrndx == o.ehdr.shstrndx && |o.shdrs| <= |v.shdrs| <= |v.data|
    && (forall i :: 0 <= i < |o.shdrs| ==> StaysAt(o.shdrs[i], v.shdrs[i]))
    && forall i :: |o.shdrs| <= i < |v.shdrs| ==> Added(v.shdrs[i], v.data[i])
  }

  predicate StaysAt(s: Shdr, t: Shdr)
  {
    t.shtype == s.shtype && t.offset == s.offset && t.size <= s.size
  }

  predicate Added(s: Shdr, bytes: seq<byte>)
  {
    s.shtype != SHT_NOBITS && s.shtype != SHT_DYNAMIC && s.size == 0 && bytes != []
  }

  lemma GrownNone(v: Image)
    requires WellShaped(v)
    ensures GrownSections(v) == [] <==> forall i :: 0 <= i < |v.shdrs| ==> !Resized(v, i)
  {
    var bs := seq(|v.shdrs|, i requires 0 <= i < |v.shdrs| => Resized(v, i));
    IndicesFacts(bs);
    if GrownSections(v) != [] {
      assert bs[Indices(bs)[0]];
    }
    forall i | 0 <= i < |v.shdrs| && Resized(v, i) ensures GrownSections(v) != [] {
      assert bs[i];
    }
  }

  /** With nothing grown, nothing was added. */
  lemma NothingAdded(o: Image, v: Image)
    requires WellShaped(v) && KeepsPlaces(o, v) && GrownSections(v) == []
    ensures |v.shdrs| == |o.shdrs|
  {
    if |o.shdrs| < |v.shdrs| {
      GrownNone(v);
      AddedGrows(v, |o.shdrs|);
    }
  }

  lemma AddedGrows(v: Image, i: nat)
    requires WellShaped(v) && i < |v.shdrs| && Added(v.shdrs[i], v.data[i])
    ensures Resized(v, i)
  {
    FirstDynamicFacts(v.shdrs);
  }

  // ---- In place, each part keeps to its place ----

  lemma HeaderFits(o: Image, f: Image, h: seq<Span>)
    requires WellShaped(f) && Headers(f) == Ok(h) && f.enc == o.enc && f.ehdr.phoff == o.ehdr.phoff
    requires f.ehdr.shoff == o.ehdr.shoff && |f.phdrs| <= |o.phdrs| && |f.shdrs| == |o.shdrs|
    ensures FitsIn(h[0], Part(0, EhdrSize(o.enc.class_))) && FitsIn(h[1], PhtPart(o)) && FitsIn(h[2], ShtPart(o))
  {
    Placed.HeaderLengths(f);
    SmallerTable(|f.phdrs|, |o.phdrs|, PhdrSize(o.enc.class_));
  }

  lemma SmallerTable(a: nat, b: nat, size: nat)
    requires a <= b
    ensures a * size <= b * size
  {
  }

  lemma SectionFits(o: Image, v: Image, f: Image, i: nat)
    requires KeepsPlaces(o, v) && WellShaped(f) && SizesMatch(f) && f.shdrs == v.shdrs && i < |o.shdrs|
    ensures i < |f.shdrs| && FitsIn(SectionSpan(f, i), SectionPart(o.shdrs[i]))
  {
    assert StaysAt(o.shdrs[i], v.shdrs[i]);
  }

  lemma SectionsFit(o: Image, v: Image, f: Image)
    requires KeepsPlaces(o, v) && WellShaped(f) && SizesMatch(f) && f.shdrs == v.shdrs && |v.shdrs| == |o.shdrs|
    ensures Fits(SectionSpans(f), SectionParts(o))
  {
    forall i | 0 <= i < |SectionSpans(f)| ensures FitsIn(SectionSpans(f)[i], SectionParts(o)[i]) {
      SectionFits(o, v, f, i);
    }
  }

  lemma ImageFits(o: Image, v: Image, f: Image)
    requires KeepsPlaces(o, v) && WellShaped(f) && f == v.(dynamic := f.dynamic, data := f.data)
    requires Headers(f).Ok? && SizesMatch(f) && |v.phdrs| <= |o.phdrs| && |v.shdrs| == |o.shdrs|
    ensures Fits(Regions(f), Parts(o))
  {
    HeaderFits(o, f, Headers(f).value);
    SectionsFit(o, v, f);
    FitsConcat(Headers(f).value, Part(0, EhdrSize(o.enc.class_)), PhtPart(o), ShtPart(o),
               SectionSpans(f), SectionParts(o));
  }

  lemma FitsConcat(h: seq<Span>, x: Part, y: Part, z: Part, b: seq<Span>, q: seq<Part>)
    requires |h| == 3 && FitsIn(h[0], x) && FitsIn(h[1], y) && FitsIn(h[2], z) && Fits(b, q)
    ensures Fits(h + b, [x, y, z] + q)
  {
  }

  /** If no two parts of the input share a byte, and edits leave their places alone,
      the image written in place has none that do. */
  lemma RegionsApart(original: seq<byte>, o: Image, v: Image, f: Image)
    requires Parse(original) == Ok(o) && PartsApart(Parts(o)) && KeepsPlaces(o, v)
    requires WellShaped(v) && GrownSections(v) == [] && |v.phdrs| <= |o.phdrs|
    requires WellShaped(f) && f == v.(dynamic := f.dynamic, data := f.data) && Headers(f).Ok? && SizesMatch(f)
    ensures PairwiseApart(Regions(f)) && Inside(Regions(f), |original|)
  {
    NothingAdded(o, v);
    ImageFits(o, v, f);
    ParsedInside(original, o);
    FitApart(Regions(f), Parts(o), |original|);
  }

  // ---- When the file is rewritten in place ----

  /** `e_phnum`: the program header count in the file's own header. */
  function StoredCount(data: seq<byte>, enc: Enc): nat
    requires |data| >= if enc.class_.Elf64? then 64 else 52
  {
    if enc.class_.Elf64? then Get(enc.endian, data, 56, 2) else Get(enc.endian, data, 44, 2)
  }

  lemma RawParsed(data: seq<byte>, o: Image) returns (raw: RawEhdr)
    requires Parse(data) == Ok(o)
    ensures ReadEhdr(data) == Ok(raw) && IsEhdr(data, raw) && raw.enc == o.enc
    ensures EhdrSize(o.enc.class_) <= |data|
  {
    var c, pht, sht;
    raw, c, pht, sht := ParsedRecords.Parts(data, o);
    EhdrRead(data);
  }

  lemma RawCount(data: seq<byte>, o: Image) returns (raw: RawEhdr)
    requires Parse(data) == Ok(o)
    ensures ReadEhdr(data) == Ok(raw) && |data| >= (if o.enc.class_.Elf64? then 64 else 52)
    ensures raw.phnum == StoredCount(data, o.enc) && (raw.phnum != 0xffff ==> |o.phdrs| == raw.phnum)
  {
    raw := RawParsed(data, o);
    Counted(data, o, raw);
  }

  lemma Counted(data: seq<byte>, o: Image, raw: RawEhdr)
    requires Parse(data) == Ok(o) && ReadEhdr(data) == Ok(raw)
    ensures raw.phnum != 0xffff ==> |o.phdrs| == raw.phnum
  {
    var raw', c, pht, sht := ParsedRecords.Parts(data, o);
    ParsedRecords.CountsResolved(data, raw, c);
    ResolvedPlain(data, raw, c);
  }

  lemma ResolvedPlain(data: seq<byte>, raw: RawEhdr, c: Counts)
    requires ParsedRecords.Resolved(data, raw, c)
    ensures raw.phnum != 0xffff ==> c.phnum == raw.phnum
  {
  }

  /** No section changed its size on disk. */
  ghost predicate NothingResized(v: Image)
    requires WellShaped(v)
  {
    forall i :: 0 <= i < |v.shdrs| && v.shdrs[i].shtype != 8 ==> NewLength(v, i) == v.shdrs[i].size
  }

  lemma NothingGrown(v: Image)
    requires WellShaped(v)
    ensures NothingResized(v) <==> GrownSections(v) == []
  {
    GrownNone(v);
    forall i | 0 <= i < |v.shdrs|
      ensures i in GrownSections(v) <==> v.shdrs[i].shtype != 8 && NewLength(v, i) != v.shdrs[i].size
    {
      GrownIs(v, i);
    }
    if GrownSections(v) != [] {
      IndicesFacts(seq(|v.shdrs|, i requires 0 <= i < |v.shdrs| => Resized(v, i)));
      assert GrownSections(v)[0] in GrownSections(v);
    }
  }

  /** A file is rewritten in place exactly when no section changed its size and the
      table has no more entries than the file header says. */
  lemma RewritesIff(original: seq<byte>, o: Image, v: Image, page: nat)
    requires Parse(original) == Ok(o) && WellShaped(v) && page > 0
    ensures |original| >= if o.enc.class_.Elf64? then 64 else 52
    ensures PathOf(v, original, page) == Rewriting
            <==> NothingResized(v) && |v.phdrs| <= StoredCount(original, o.enc)
  {
    var raw := RawCount(original, o);
    NothingGrown(v);
  }

  /** A longer table than the input's goes over the input's exactly when the count in
      the file header is the escape, though the input's table needs none, and the new
      one is no longer than the escape's value; any other longer table moves. */
  lemma LongerTableIff(original: seq<byte>, o: Image, v: Image, page: nat)
    requires Parse(original) == Ok(o) && WellShaped(v) && page > 0 && |o.phdrs| < |v.phdrs|
    ensures |original| >= if o.enc.class_.Elf64? then 64 else 52
    ensures PathOf(v, original, page) == Rewriting
            <==> NothingResized(v) && StoredCount(original, o.enc) == 0xffff && |v.phdrs| <= 0xffff
  {
    var raw := RawCount(original, o);
    RewritesIff(original, o, v, page);
  }

  /** Some non-zero byte follows all that the file describes. */
  ghost predicate HasTail(original: seq<byte>, o: Image)
  {
    exists i: nat :: i < |original| && original[i] != 0 && EndsBy(o, i)
  }

  /** Any other program or shared object is prepended to if it has such a tail, or a `.bun`
      section, and there is room, and appended to otherwise; other files are refused. */
  lemma MovesHow(original: seq<byte>, o: Image, v: Image, page: nat)
    requires Parse(original) == Ok(o) && WellShaped(v) && page > 0 && PathOf(v, original, page) != Rewriting
    ensures var path := PathOf(v, original, page);
            if v.ehdr.eType != 2 && v.ehdr.eType != 3 then path == Failing(UnsupportedError)
            else if !HasTail(original, o) && v.FindSection(Ascii(".bun")).None? then path == Appending
            else match PrependResult(v, GrownSections(v), page, HasTail(original, o), original)
                 case Ok(None) => path == Appending
                 case Ok(Some(b)) => path == Prepending(HasTail(original, o), b)
                 case Err(e) => path == Failing(e)
  {
    var raw := RawCount(original, o);
    OverlayIff(original, o);
  }
}
