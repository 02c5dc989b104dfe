/** A concrete file whose program header count is escaped though it is 1: a longer
    table is written over what follows the old one (`finalize` in src/layout.rs). */
module EscapedCount {
  import opened Bytes
  import opened Ir
  import opened Codec
  import opened Parser
  import opened Serialize
  import opened Relayout
  import opened Paths

  const ENC: Enc := Enc(Elf64, Little)
  const IDENT: seq<byte> := [0x7f, 0x45, 0x4c, 0x46, 2, 1, 1, 0, 0, 0, 0, 0, 0, 0, 0, 0]
  const EHDR: Ehdr := Ehdr(3, 62, 1, 0, 128, 64, 0, 64, 56, 64, 0, IDENT)
  const SECTION: Shdr := Shdr(0, 0, 0, 0, 0, 0, 0, 1, 0, 0)
  const STACK: Phdr := Phdr(0x6474_e551, 6, 0, 0, 0, 0, 0, 16)

  lemma HeaderWrites()
    ensures |IDENT| == 16 && IdentOk(IDENT, ENC) && WriteEhdr(ENC, EHDR, 0xffff, 1).Ok?
  {
    Pow256Widths();
    var vals := EhdrVals(EHDR, EhdrCounts(0, 0xffff, 1));
    assert Codec.Fits(EhdrWidths(Elf64), vals);
  }

  lemma SectionWrites()
    ensures WriteShdr(ENC, SECTION).Ok?
  {
    Pow256Widths();
    assert Codec.Fits(ShdrWidths(Elf64), ShdrVals(SECTION));
  }

  lemma StackWrites()
    ensures WritePhdr(ENC, STACK).Ok?
  {
    Pow256Widths();
    assert Codec.Fits(PhdrWidths(Elf64), PhdrVals(Elf64, STACK));
  }

  /** The file header, section 0 with the real count, and one program header. */
  ghost function File(): (b: seq<byte>)
    requires |IDENT| == 16 && WriteEhdr(ENC, EHDR, 0xffff, 1).Ok? && WriteShdr(ENC, SECTION).Ok?
             && WritePhdr(ENC, STACK).Ok?
  {
    WriteEhdr(ENC, EHDR, 0xffff, 1).value + WriteShdr(ENC, SECTION).value + WritePhdr(ENC, STACK).value
  }

  lemma FileParts(h: seq<byte>, s: seq<byte>, p: seq<byte>, b: seq<byte>)
    requires |h| == 64 && |s| == 64 && |p| == 56 && b == h + s + p
    ensures |b| == 184 && b[..64] == h && Slice(b, 64, 64) == Ok(s) && Slice(b, 128, 56) == Ok(p)
            && Slice(b, 0, 0) == Ok([])
  {
    assert b[64..128] == s && b[128..184] == p;
  }

  const STORED: RawEhdr := RawEhdr(EHDR, ENC, 0xffff, 1)
  const PARSED: Image := Image(ENC, EHDR, [STACK], [SECTION], [[]], [])

  lemma FileParses() returns (b: seq<byte>)
    ensures Parse(b) == Ok(PARSED) && ReadEhdr(b) == Ok(STORED)
  {
    HeaderWrites();
    SectionWrites();
    StackWrites();
    b := File();
    var h, s, p := WriteEhdr(ENC, EHDR, 0xffff, 1).value, WriteShdr(ENC, SECTION).value, WritePhdr(ENC, STACK).value;
    FileParts(h, s, p, b);
    ReadWriteEhdr(ENC, EHDR, 0xffff, 1, b);
    ReadWriteShdr(ENC, SECTION);
    ReadWritePhdr(ENC, STACK);
    CountsFound(b, s);
    TablesFound(b, s, p);
  }

  lemma CountsFound(b: seq<byte>, s: seq<byte>)
    requires Slice(b, 64, 64) == Ok(s) && |s| == 64 && ReadShdr(ENC, s) == Ok(SECTION)
    ensures ResolveCounts(b, STORED) == Ok(Counts(1, 1, 0))
  {
  }

  lemma OnePhdr(p: seq<byte>)
    requires |p| == 56 && ReadPhdr(ENC, p) == Ok(STACK)
    ensures PhdrsIn(ENC, p, 1) == [STACK]
  {
    assert 0 * 56 == 0 && Chunk(p, 56, 1, 0) == p[0..56] == p;
  }

  lemma OneShdr(s: seq<byte>)
    requires |s| == 64 && ReadShdr(ENC, s) == Ok(SECTION)
    ensures ShdrsIn(ENC, s, 1) == [SECTION]
  {
    assert 0 * 64 == 0 && Chunk(s, 64, 1, 0) == s[0..64] == s;
  }

  lemma OneSection(b: seq<byte>, s: Shdr)
    requires SectionBytes(b, s) == Ok([])
    ensures AllBytes(b, [s]) == Ok([[]])
  {
    var one := [s];
    assert one[..|one| - 1] == [];
    var none: seq<seq<byte>>, first: seq<byte> := [], [];
    assert AllBytes(b, one[..|one| - 1]) == Ok(none);
    assert none + [first] == [first];
    assert AllBytes(b, one) == Ok(none + [first]);
  }

  lemma TablesFound(b: seq<byte>, s: seq<byte>, p: seq<byte>)
    requires Slice(b, 64, 64) == Ok(s) && |s| == 64 && ReadShdr(ENC, s) == Ok(SECTION)
    requires Slice(b, 128, 56) == Ok(p) && |p| == 56 && ReadPhdr(ENC, p) == Ok(STACK) && Slice(b, 0, 0) == Ok([])
    ensures ParseWith(b, STORED, Counts(1, 1, 0)) == Ok(PARSED)
  {
    OnePhdr(p);
    OneShdr(s);
    OneSection(b, SECTION);
    FirstDynamicFacts([SECTION]);
    assert FindPhdr([STACK], PT_DYNAMIC).None?;
  }

  /** A second header pushed onto that file is written in place, past its table's end. */
  lemma EscapeOverruns(page: nat) returns (b: seq<byte>, v: Image)
    requires page > 0
    ensures Parse(b) == Ok(PARSED) && v == PARSED.(phdrs := PARSED.phdrs + [STACK])
    ensures WellShaped(v) && PathOf(v, b, page) == Rewriting
  {
    b := FileParses();
    v := PARSED.(phdrs := PARSED.phdrs + [STACK]);
    var raw := RawCount(b, PARSED);
    FirstDynamicFacts(v.shdrs);
    LongerTableIff(b, PARSED, v, page);
  }
}
