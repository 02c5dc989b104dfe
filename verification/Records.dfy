/** Where each field of an ELF record stands in its bytes (src/codec.rs), as the
    gABI lays the records out: offset and width of every field, in both classes. */
module Records {
  import opened Bytes
  import opened Ir
  import opened Codec

  // ---- One field of a record ----

  lemma {:induction false} PrefixSum(widths: seq<nat>, k: nat)
    requires k < |widths|
    ensures Sum(widths[..k]) + widths[k] <= Sum(widths)
  {
    if k > 0 {
      PrefixSum(widths[1..], k - 1);
      assert widths[..k][1..] == widths[1..][..k - 1];
    }
  }

  /** Field `k` is read behind the fields before it. */
  lemma {:induction false} FieldAt(e: Endian, widths: seq<nat>, b: seq<byte>, k: nat)
    requires |b| >= Sum(widths) && k < |widths|
    ensures Sum(widths[..k]) + widths[k] <= |b|
    ensures DecodeRec(e, widths, b)[k] == Get(e, b, Sum(widths[..k]), widths[k])
  {
    PrefixSum(widths, k);
    var w := widths[0];
    if k > 0 {
      FieldAt(e, widths[1..], b[w..], k - 1);
      assert widths[..k][1..] == widths[1..][..k - 1];
      GetBehind(e, b, w, Sum(widths[1..][..k - 1]), widths[k]);
    } else {
      assert b[0..w] == b[..w];
    }
  }

  lemma GetBehind(e: Endian, b: seq<byte>, w: nat, o: nat, n: nat)
    requires w + o + n <= |b|
    ensures Get(e, b[w..], o, n) == Get(e, b, w + o, n)
  {
    assert b[w..][o..o + n] == b[w + o..w + o + n];
  }

  /** The offset at which each field starts. */
  ghost predicate Starts(widths: seq<nat>, starts: seq<nat>)
  {
    && |starts| == |widths| && (starts != [] ==> starts[0] == 0)
    && forall k, l :: 0 <= k && l == k + 1 && l < |starts| ==> starts[l] == starts[k] + widths[k]
  }

  lemma {:induction false} SumSnoc(widths: seq<nat>, w: nat)
    ensures Sum(widths + [w]) == Sum(widths) + w
  {
    if widths != [] {
      assert (widths + [w])[1..] == widths[1..] + [w];
      SumSnoc(widths[1..], w);
    } else {
      assert [] + [w] == [w] && [w][1..] == [];
    }
  }

  lemma {:induction false} StartIs(widths: seq<nat>, starts: seq<nat>, k: nat)
    requires Starts(widths, starts) && k < |widths|
    ensures Sum(widths[..k]) == starts[k]
  {
    if k > 0 {
      StartIs(widths, starts, k - 1);
      assert starts[k] == starts[k - 1] + widths[k - 1];
      SumSnoc(widths[..k - 1], widths[k - 1]);
      assert widths[..k] == widths[..k - 1] + [widths[k - 1]];
    }
  }

  /** Every field is read at its start. */
  lemma Fields(e: Endian, widths: seq<nat>, starts: seq<nat>, b: seq<byte>)
    requires |b| >= Sum(widths) && Starts(widths, starts)
    ensures forall k :: 0 <= k < |widths| ==>
              starts[k] + widths[k] <= |b| && DecodeRec(e, widths, b)[k] == Get(e, b, starts[k], widths[k])
  {
    forall k | 0 <= k < |widths|
      ensures starts[k] + widths[k] <= |b| && DecodeRec(e, widths, b)[k] == Get(e, b, starts[k], widths[k])
    {
      StartIs(widths, starts, k);
      FieldAt(e, widths, b, k);
    }
  }

  // ---- Program headers ----

  /** The eight fields of `Elf64_Phdr` in `b`. */
  ghost predicate IsPhdr64(e: Endian, b: seq<byte>, at: nat, p: Phdr)
    requires at + 56 <= |b|
  {
    && p.ptype == Get(e, b, at, 4) && p.flags == Get(e, b, at + 4, 4) && p.offset == Get(e, b, at + 8, 8)
    && p.vaddr == Get(e, b, at + 16, 8) && p.paddr == Get(e, b, at + 24, 8) && p.filesz == Get(e, b, at + 32, 8)
    && p.memsz == Get(e, b, at + 40, 8) && p.align == Get(e, b, at + 48, 8)
  }

  /** The eight fields of `Elf32_Phdr` in `b`. */
  ghost predicate IsPhdr32(e: Endian, b: seq<byte>, at: nat, p: Phdr)
    requires at + 32 <= |b|
  {
    && p.ptype == Get(e, b, at, 4) && p.offset == Get(e, b, at + 4, 4) && p.vaddr == Get(e, b, at + 8, 4)
    && p.paddr == Get(e, b, at + 12, 4) && p.filesz == Get(e, b, at + 16, 4) && p.memsz == Get(e, b, at + 20, 4)
    && p.flags == Get(e, b, at + 24, 4) && p.align == Get(e, b, at + 28, 4)
  }

  ghost predicate IsPhdr(enc: Enc, b: seq<byte>, at: nat, p: Phdr)
  {
    if enc.class_.Elf64? then at + 56 <= |b| && IsPhdr64(enc.endian, b, at, p)
    else at + 32 <= |b| && IsPhdr32(enc.endian, b, at, p)
  }

  /** Reading a program header reads each field at its own place. */
  lemma PhdrRead(enc: Enc, b: seq<byte>)
    requires |b| >= if enc.class_.Elf64? then 56 else 32
    ensures ReadPhdr(enc, b).Ok? && IsPhdr(enc, b, 0, ReadPhdr(enc, b).value)
  {
    PhdrWidthsSum(enc.class_);
    if enc.class_.Elf64? {
      Fields(enc.endian, PhdrWidths(Elf64), [0, 4, 8, 16, 24, 32, 40, 48], b);
    } else {
      Fields(enc.endian, PhdrWidths(Elf32), [0, 4, 8, 12, 16, 20, 24, 28], b);
    }
  }

  /** So does writing one. */
  lemma PhdrWritten(enc: Enc, p: Phdr)
    requires WritePhdr(enc, p).Ok?
    ensures IsPhdr(enc, WritePhdr(enc, p).value, 0, p)
  {
    ReadWritePhdr(enc, p);
    PhdrRead(enc, WritePhdr(enc, p).value);
  }

  // ---- Section headers ----

  /** The ten fields of `Elf64_Shdr` in `b`. */
  ghost predicate IsShdr64(e: Endian, b: seq<byte>, at: nat, s: Shdr)
    requires at + 64 <= |b|
  {
    && s.name == Get(e, b, at, 4) && s.shtype == Get(e, b, at + 4, 4) && s.flags == Get(e, b, at + 8, 8)
    && s.addr == Get(e, b, at + 16, 8) && s.offset == Get(e, b, at + 24, 8) && s.size == Get(e, b, at + 32, 8)
    && s.link == Get(e, b, at + 40, 4) && s.info == Get(e, b, at + 44, 4) && s.addralign == Get(e, b, at + 48, 8)
    && s.entsize == Get(e, b, at + 56, 8)
  }

  /** The ten fields of `Elf32_Shdr` in `b`. */
  ghost predicate IsShdr32(e: Endian, b: seq<byte>, at: nat, s: Shdr)
    requires at + 40 <= |b|
  {
    && s.name == Get(e, b, at, 4) && s.shtype == Get(e, b, at + 4, 4) && s.flags == Get(e, b, at + 8, 4)
    && s.addr == Get(e, b, at + 12, 4) && s.offset == Get(e, b, at + 16, 4) && s.size == Get(e, b, at + 20, 4)
    && s.link == Get(e, b, at + 24, 4) && s.info == Get(e, b, at + 28, 4) && s.addralign == Get(e, b, at + 32, 4)
    && s.entsize == Get(e, b, at + 36, 4)
  }

  ghost predicate IsShdr(enc: Enc, b: seq<byte>, at: nat, s: Shdr)
  {
    if enc.class_.Elf64? then at + 64 <= |b| && IsShdr64(enc.endian, b, at, s)
    else at + 40 <= |b| && IsShdr32(enc.endian, b, at, s)
  }

  lemma ShdrRead(enc: Enc, b: seq<byte>)
    requires |b| >= if enc.class_.Elf64? then 64 else 40
    ensures ReadShdr(enc, b).Ok? && IsShdr(enc, b, 0, ReadShdr(enc, b).value)
  {
    ShdrWidthsSum(enc.class_);
    if enc.class_.Elf64? {
      Fields(enc.endian, ShdrWidths(Elf64), [0, 4, 8, 16, 24, 32, 40, 44, 48, 56], b);
    } else {
      Fields(enc.endian, ShdrWidths(Elf32), [0, 4, 8, 12, 16, 20, 24, 28, 32, 36], b);
    }
  }

  lemma ShdrWritten(enc: Enc, s: Shdr)
    requires WriteShdr(enc, s).Ok?
    ensures IsShdr(enc, WriteShdr(enc, s).value, 0, s)
  {
    ReadWriteShdr(enc, s);
    ShdrRead(enc, WriteShdr(enc, s).value);
  }

  // ---- Dynamic entries ----

  /** An unsigned word read as a signed one of `n` bits, `half` being 2^(n-1). */
  function Signed(v: nat, half: nat): int
  {
    if v < half then v else v - 2 * half
  }

  /** The tag, a signed word, and the value of a dynamic entry in `b`. */
  ghost predicate IsDyn(enc: Enc, b: seq<byte>, at: nat, d: DynEntry)
  {
    if enc.class_.Elf64? then
      && at + 16 <= |b| && d.tag == Signed(Get(enc.endian, b, at, 8), 0x8000_0000_0000_0000)
      && d.val == Get(enc.endian, b, at + 8, 8)
    else
      && at + 8 <= |b| && d.tag == Signed(Get(enc.endian, b, at, 4), 0x8000_0000)
      && d.val == Get(enc.endian, b, at + 4, 4)
  }

  lemma DynRead(enc: Enc, b: seq<byte>)
    requires |b| >= if enc.class_.Elf64? then 16 else 8
    ensures ReadDyn(enc, b).Ok? && IsDyn(enc, b, 0, ReadDyn(enc, b).value)
  {
    DynWidthsSum(enc.class_);
    Pow256Widths();
    if enc.class_.Elf64? {
      Fields(enc.endian, DynWidths(Elf64), [0, 8], b);
    } else {
      Fields(enc.endian, DynWidths(Elf32), [0, 4], b);
    }
  }

  lemma DynWritten(enc: Enc, d: DynEntry)
    requires WriteDyn(enc, d).Ok? && TagFits(enc.class_, d.tag)
    ensures IsDyn(enc, WriteDyn(enc, d).value, 0, d)
  {
    ReadWriteDyn(enc, d);
    DynRead(enc, WriteDyn(enc, d).value);
  }

  // ---- The file header ----

  /** The fields of `Elf64_Ehdr` behind the identification. */
  ghost predicate IsEhdr64(e: Endian, b: seq<byte>, r: RawEhdr)
    requires |b| >= 64
  {
    var h := r.ehdr;
    && h.eType == Get(e, b, 16, 2) && h.machine == Get(e, b, 18, 2) && h.version == Get(e, b, 20, 4)
    && h.entry == Get(e, b, 24, 8) && h.phoff == Get(e, b, 32, 8) && h.shoff == Get(e, b, 40, 8)
    && h.flags == Get(e, b, 48, 4) && h.ehsize == Get(e, b, 52, 2) && h.phentsize == Get(e, b, 54, 2)
    && r.phnum == Get(e, b, 56, 2) && h.shentsize == Get(e, b, 58, 2) && r.shnum == Get(e, b, 60, 2)
    && h.shstrndx == Get(e, b, 62, 2)
  }

  /** The fields of `Elf32_Ehdr` behind the identification. */
  ghost predicate IsEhdr32(e: Endian, b: seq<byte>, r: RawEhdr)
    requires |b| >= 52
  {
    var h := r.ehdr;
    && h.eType == Get(e, b, 16, 2) && h.machine == Get(e, b, 18, 2) && h.version == Get(e, b, 20, 4)
    && h.entry == Get(e, b, 24, 4) && h.phoff == Get(e, b, 28, 4) && h.shoff == Get(e, b, 32, 4)
    && h.flags == Get(e, b, 36, 4) && h.ehsize == Get(e, b, 40, 2) && h.phentsize == Get(e, b, 42, 2)
    && r.phnum == Get(e, b, 44, 2) && h.shentsize == Get(e, b, 46, 2) && r.shnum == Get(e, b, 48, 2)
    && h.shstrndx == Get(e, b, 50, 2)
  }

  /** The magic number, the class and the byte order in the identification. */
  ghost predicate IsIdent(b: seq<byte>, enc: Enc)
  {
    && |b| >= 16 && b[0] == 0x7f && b[1] == 'E' as int && b[2] == 'L' as int && b[3] == 'F' as int
    && b[4] == (if enc.class_.Elf32? then 1 else 2) && b[5] == (if enc.endian.Little? then 1 else 2)
  }

  ghost predicate IsEhdr(b: seq<byte>, r: RawEhdr)
  {
    && IsIdent(b, r.enc) && r.ehdr.ident == b[..16]
    && if r.enc.class_.Elf64? then |b| >= 64 && IsEhdr64(r.enc.endian, b, r)
       else |b| >= 52 && IsEhdr32(r.enc.endian, b, r)
  }

  /** The fields of a record that starts at `base`. */
  lemma FieldsFrom(e: Endian, widths: seq<nat>, starts: seq<nat>, b: seq<byte>, base: nat)
    requires |b| >= base + Sum(widths) && Starts(widths, starts)
    ensures forall k :: 0 <= k < |widths| ==>
              && base + starts[k] + widths[k] <= |b|
              && DecodeRec(e, widths, b[base..])[k] == Get(e, b, base + starts[k], widths[k])
  {
    Fields(e, widths, starts, b[base..]);
    forall k | 0 <= k < |widths|
      ensures base + starts[k] + widths[k] <= |b|
              && DecodeRec(e, widths, b[base..])[k] == Get(e, b, base + starts[k], widths[k])
    {
      GetBehind(e, b, base, starts[k], widths[k]);
    }
  }

  /** Field values, each read behind the identification. */
  ghost predicate ReadsAt(e: Endian, b: seq<byte>, widths: seq<nat>, starts: seq<nat>, v: seq<nat>)
  {
    |v| == |widths| == |starts|
    && forall k :: 0 <= k < |v| ==> 16 + starts[k] + widths[k] <= |b| && v[k] == Get(e, b, 16 + starts[k], widths[k])
  }

  lemma Vals64(e: Endian, b: seq<byte>, w: seq<nat>, s: seq<nat>, v: seq<nat>, r: RawEhdr)
    requires ReadsAt(e, b, w, s, v) && w == [2, 2, 4, 8, 8, 8, 4, 2, 2, 2, 2, 2, 2]
    requires s == [0, 2, 4, 8, 16, 24, 32, 36, 38, 40, 42, 44, 46]
    requires v == EhdrVals(r.ehdr, (r.phnum, r.shnum, r.ehdr.shstrndx))
    ensures |b| >= 64 && IsEhdr64(e, b, r)
  {
    var h := r.ehdr;
    assert v[0] == h.eType && v[1] == h.machine && v[2] == h.version && v[3] == h.entry && v[4] == h.phoff;
    assert v[5] == h.shoff && v[6] == h.flags && v[7] == h.ehsize && v[8] == h.phentsize && v[9] == r.phnum;
    assert v[10] == h.shentsize && v[11] == r.shnum && v[12] == h.shstrndx;
  }

  lemma Vals32(e: Endian, b: seq<byte>, w: seq<nat>, s: seq<nat>, v: seq<nat>, r: RawEhdr)
    requires ReadsAt(e, b, w, s, v) && w == [2, 2, 4, 4, 4, 4, 4, 2, 2, 2, 2, 2, 2]
    requires s == [0, 2, 4, 8, 12, 16, 20, 24, 26, 28, 30, 32, 34]
    requires v == EhdrVals(r.ehdr, (r.phnum, r.shnum, r.ehdr.shstrndx))
    ensures |b| >= 52 && IsEhdr32(e, b, r)
  {
    var h := r.ehdr;
    assert v[0] == h.eType && v[1] == h.machine && v[2] == h.version && v[3] == h.entry && v[4] == h.phoff;
    assert v[5] == h.shoff && v[6] == h.flags && v[7] == h.ehsize && v[8] == h.phentsize && v[9] == r.phnum;
    assert v[10] == h.shentsize && v[11] == r.shnum && v[12] == h.shstrndx;
  }

  lemma IdentRead(b: seq<byte>, enc: Enc)
    requires |b| >= 16 && IdentOk(b[..16], enc)
    ensures IsIdent(b, enc)
  {
    assert b[..16][..4] == b[..4];
  }

  /** Reading a file header checks its identification and reads each field at its place. */
  lemma EhdrRead(b: seq<byte>)
    requires ReadEhdr(b).Ok?
    ensures IsEhdr(b, ReadEhdr(b).value)
  {
    var r := ReadEhdr(b).value;
    EhdrValsOfRead(b);
    IdentRead(b, r.enc);
    EhdrPlaces(b, r, EhdrFields(r.enc, b));
  }

  lemma EhdrPlaces(b: seq<byte>, r: RawEhdr, v: seq<nat>)
    requires |b| >= EhdrSize(r.enc.class_) && v == EhdrFields(r.enc, b)
    requires v == EhdrVals(r.ehdr, (r.phnum, r.shnum, r.ehdr.shstrndx))
    ensures if r.enc.class_.Elf64? then |b| >= 64 && IsEhdr64(r.enc.endian, b, r)
            else |b| >= 52 && IsEhdr32(r.enc.endian, b, r)
  {
    if r.enc.class_.Elf64? {
      EhdrPlaces64(b, r, v, [0, 2, 4, 8, 16, 24, 32, 36, 38, 40, 42, 44, 46]);
    } else {
      EhdrPlaces32(b, r, v, [0, 2, 4, 8, 12, 16, 20, 24, 26, 28, 30, 32, 34]);
    }
  }

  lemma EhdrPlaces64(b: seq<byte>, r: RawEhdr, v: seq<nat>, starts: seq<nat>)
    requires |b| >= 64 && r.enc.class_.Elf64? && v == EhdrFields(r.enc, b)
    requires v == EhdrVals(r.ehdr, (r.phnum, r.shnum, r.ehdr.shstrndx))
    requires starts == [0, 2, 4, 8, 16, 24, 32, 36, 38, 40, 42, 44, 46]
    ensures IsEhdr64(r.enc.endian, b, r)
  {
    EhdrReadsAt(r.enc, b, starts);
    Vals64(r.enc.endian, b, EhdrWidths(Elf64), starts, v, r);
  }

  lemma EhdrPlaces32(b: seq<byte>, r: RawEhdr, v: seq<nat>, starts: seq<nat>)
    requires |b| >= 52 && r.enc.class_.Elf32? && v == EhdrFields(r.enc, b)
    requires v == EhdrVals(r.ehdr, (r.phnum, r.shnum, r.ehdr.shstrndx))
    requires starts == [0, 2, 4, 8, 12, 16, 20, 24, 26, 28, 30, 32, 34]
    ensures IsEhdr32(r.enc.endian, b, r)
  {
    EhdrReadsAt(r.enc, b, starts);
    Vals32(r.enc.endian, b, EhdrWidths(Elf32), starts, v, r);
  }

  lemma EhdrReadsAt(enc: Enc, b: seq<byte>, starts: seq<nat>)
    requires |b| >= EhdrSize(enc.class_) && Starts(EhdrWidths(enc.class_), starts)
    ensures ReadsAt(enc.endian, b, EhdrWidths(enc.class_), starts, EhdrFields(enc, b))
  {
    EhdrWidthsSum(enc.class_);
    RecordReadsAt(enc.endian, b, EhdrWidths(enc.class_), starts);
  }

  lemma RecordReadsAt(e: Endian, b: seq<byte>, widths: seq<nat>, starts: seq<nat>)
    requires |b| >= 16 + Sum(widths) && Starts(widths, starts)
    ensures ReadsAt(e, b, widths, starts, DecodeRec(e, widths, b[16..]))
  {
    FieldsFrom(e, widths, starts, b, 16);
  }

  /** A file of the header's size is read if and only if it has an identification. */
  lemma EhdrReadable(b: seq<byte>)
    ensures ReadEhdr(b).Ok? <==> exists enc :: IsIdent(b, enc) && |b| >= if enc.class_.Elf64? then 64 else 52
  {
    if ReadEhdr(b).Ok? {
      EhdrRead(b);
      assert IsIdent(b, ReadEhdr(b).value.enc);
    }
    if enc :| IsIdent(b, enc) && |b| >= if enc.class_.Elf64? then 64 else 52 {
      assert b[..4] == MAGIC;
    }
  }

  /** A file that starts with a written header has each field at its place, the counts escaped. */
  lemma EhdrWrittenAt(enc: Enc, h: Ehdr, phnum: nat, shnum: nat, b: seq<byte>)
    requires IdentOk(h.ident, enc)
    requires WriteEhdr(enc, h, phnum, shnum).Ok?
    requires |b| >= EhdrSize(enc.class_) && b[..EhdrSize(enc.class_)] == WriteEhdr(enc, h, phnum, shnum).value
    ensures var c := EhdrCounts(h.shstrndx, phnum, shnum); IsEhdr(b, RawEhdr(h.(shstrndx := c.2), enc, c.0, c.1))
  {
    ReadWriteEhdr(enc, h, phnum, shnum, b);
    EhdrRead(b);
  }

  // ---- Records inside a file ----

  lemma GetInside(e: Endian, b: seq<byte>, lo: nat, hi: nat, o: nat, n: nat)
    requires lo <= hi <= |b| && o + n <= hi - lo
    ensures Get(e, b[lo..hi], o, n) == Get(e, b, lo + o, n)
  {
    var s := b[lo..hi];
    assert forall i :: 0 <= i < |s| ==> s[i] == b[lo + i];
    assert s[o..o + n] == b[lo + o..lo + o + n];
  }

  lemma PhdrInside(enc: Enc, b: seq<byte>, lo: nat, hi: nat, p: Phdr)
    requires lo <= hi <= |b| && IsPhdr(enc, b[lo..hi], 0, p)
    ensures IsPhdr(enc, b, lo, p)
  {
    Insides(enc.endian, b, lo, hi);
  }

  lemma ShdrInside(enc: Enc, b: seq<byte>, lo: nat, hi: nat, s: Shdr)
    requires lo <= hi <= |b| && IsShdr(enc, b[lo..hi], 0, s)
    ensures IsShdr(enc, b, lo, s)
  {
    Insides(enc.endian, b, lo, hi);
  }

  lemma DynInside(enc: Enc, b: seq<byte>, lo: nat, hi: nat, d: DynEntry)
    requires lo <= hi <= |b| && IsDyn(enc, b[lo..hi], 0, d)
    ensures IsDyn(enc, b, lo, d)
  {
    Insides(enc.endian, b, lo, hi);
  }

  lemma Insides(e: Endian, b: seq<byte>, lo: nat, hi: nat)
    requires lo <= hi <= |b|
    ensures forall o: nat, n: nat {:trigger Get(e, b[lo..hi], o, n)} ::
              o + n <= hi - lo ==> Get(e, b[lo..hi], o, n) == Get(e, b, lo + o, n)
  {
    forall o: nat, n: nat {:trigger Get(e, b[lo..hi], o, n)} | o + n <= hi - lo
      ensures Get(e, b[lo..hi], o, n) == Get(e, b, lo + o, n)
    {
      GetInside(e, b, lo, hi, o, n);
    }
  }
}
