/** Rewriting relocation symbol indices after the symbol table was reordered:
    `remap_reloc_symbols` (src/symbols.rs). */
module Relocs {
  import opened Bytes
  import opened Ir
  import opened Words
  import opened Reorder
  import Align
  import GnuTable

  /** The size of a relocation record, for section types that hold them. */
  function Stride(shtype: u32, c: Class): Option<nat>
  {
    if shtype == SHT_RELA then Some(if c.Elf64? then 24 else 12)
    else if shtype == SHT_REL then Some(if c.Elf64? then 16 else 8)
    else None
  }

  /** `r_info` is the symbol index times this, plus the type. */
  function SymUnit(c: Class): nat
  {
    if c.Elf64? then 0x1_0000_0000 else 0x100
  }

  /** One more than the largest symbol index `r_info` can hold. */
  function SymLimit(c: Class): nat
  {
    if c.Elf64? then 0x1_0000_0000 else 0x100_0000
  }

  lemma InfoLimit(c: Class)
    ensures Pow256(GnuTable.WordSize(c)) == SymUnit(c) * SymLimit(c)
  {
    Pow256Widths();
  }

  /** Where a symbol index goes. */
  function NewIndex(symndx: nat, old2new: seq<nat>, i: nat): nat
  {
    if symndx <= i < symndx + |old2new| then old2new[i - symndx] + symndx else i
  }

  /** The new `r_info`: the shifted index is cut to the word, as the store is. */
  function RemapInfo(c: Class, info: nat, symndx: nat, old2new: seq<nat>): nat
  {
    var u := SymUnit(c);
    var moved := NewIndex(symndx, old2new, info / u);
    if moved == info / u then info else (info % u + moved * u) % (u * SymLimit(c))
  }

  /** Cutting `x + v * u` to `u * q` values keeps `x` and cuts `v` to `q`. */
  ghost predicate Cuts(x: nat, v: nat, u: nat, q: nat)
    requires u > 0 && q > 0 && u * q > 0
  {
    var r := (x + v * u) % (u * q);
    r % u == x && r / u == v % q
  }

  lemma Cut32(x: nat, v: nat)
    requires x < 0x100
    ensures Cuts(x, v, 0x100, 0x100_0000)
  {
    var j, k := v % 0x100_0000, v / 0x100_0000;
    assert x + v * 0x100 == x + j * 0x100 + k * 0x1_0000_0000;
    assert (x + v * 0x100) % 0x1_0000_0000 == x + j * 0x100;
  }

  lemma Cut64(x: nat, v: nat)
    requires x < 0x1_0000_0000
    ensures Cuts(x, v, 0x1_0000_0000, 0x1_0000_0000)
  {
    var j, k := v % 0x1_0000_0000, v / 0x1_0000_0000;
    assert x + v * 0x1_0000_0000 == x + j * 0x1_0000_0000 + k * 0x1_0000_0000_0000_0000;
    assert (x + v * 0x1_0000_0000) % 0x1_0000_0000_0000_0000 == x + j * 0x1_0000_0000;
  }

  lemma CutInfo(c: Class, x: nat, v: nat)
    requires x < SymUnit(c)
    ensures Cuts(x, v, SymUnit(c), SymLimit(c))
  {
    if c.Elf64? {
      Cut64(x, v);
    } else {
      Cut32(x, v);
    }
  }

  /** The type bits never change, and the index follows its symbol exactly when
      its new value fits `r_info`. */
  lemma RemapInfoFollows(c: Class, info: nat, symndx: nat, old2new: seq<nat>)
    requires info < SymUnit(c) * SymLimit(c)
    ensures var u, r := SymUnit(c), RemapInfo(c, info, symndx, old2new);
            && r < u * SymLimit(c) && r % u == info % u
            && (r / u == NewIndex(symndx, old2new, info / u) <==> NewIndex(symndx, old2new, info / u) < SymLimit(c))
  {
    var u := SymUnit(c);
    IndexFits(c, info);
    var j := NewIndex(symndx, old2new, info / u);
    if j != info / u {
      CutInfo(c, info % u, j);
      CutFits(j, SymLimit(c));
    }
  }

  lemma CutFits(j: nat, q: nat)
    requires q > 0
    ensures j % q == j <==> j < q
  {
    Align.DivModFacts(j, q);
    if j < q {
      Align.BetweenMultiples(j / q, q, j - j % q);
    }
  }

  lemma IndexFits(c: Class, info: nat)
    requires info < SymUnit(c) * SymLimit(c)
    ensures info / SymUnit(c) < SymLimit(c)
  {
  }

  // ---- Records ----

  function Info(enc: Enc, rec: seq<byte>): (info: nat)
    requires |rec| >= 2 * GnuTable.WordSize(enc.class_)
    ensures info < SymUnit(enc.class_) * SymLimit(enc.class_)
  {
    InfoLimit(enc.class_);
    Get(enc.endian, rec, GnuTable.WordSize(enc.class_), GnuTable.WordSize(enc.class_))
  }

  /** The symbol a relocation record names, and its type. */
  function Sym(enc: Enc, rec: seq<byte>): nat
    requires |rec| >= 2 * GnuTable.WordSize(enc.class_)
  {
    Info(enc, rec) / SymUnit(enc.class_)
  }

  function Type(enc: Enc, rec: seq<byte>): nat
    requires |rec| >= 2 * GnuTable.WordSize(enc.class_)
  {
    Info(enc, rec) % SymUnit(enc.class_)
  }

  function RemapRecord(enc: Enc, rec: seq<byte>, symndx: nat, old2new: seq<nat>): (r: seq<byte>)
    requires |rec| >= 2 * GnuTable.WordSize(enc.class_)
    ensures |r| == |rec|
  {
    if NewIndex(symndx, old2new, Sym(enc, rec)) == Sym(enc, rec) then rec
    else
      Put(enc.endian, rec, GnuTable.WordSize(enc.class_), GnuTable.WordSize(enc.class_),
          RemapInfo(enc.class_, Info(enc, rec), symndx, old2new))
  }

  /** A rewritten record keeps its type, its offset and its addend, and names its
      symbol's new index exactly when `r_info` can hold it. */
  lemma RecordFollows(enc: Enc, rec: seq<byte>, symndx: nat, old2new: seq<nat>)
    requires |rec| >= 2 * GnuTable.WordSize(enc.class_)
    ensures var r, w, i := RemapRecord(enc, rec, symndx, old2new), GnuTable.WordSize(enc.class_),
                           NewIndex(symndx, old2new, Sym(enc, rec));
            && Type(enc, r) == Type(enc, rec) && r[..w] == rec[..w] && r[2 * w..] == rec[2 * w..]
            && (Sym(enc, r) == i <==> i < SymLimit(enc.class_))
  {
    var w, info := GnuTable.WordSize(enc.class_), Info(enc, rec);
    RemapInfoFollows(enc.class_, info, symndx, old2new);
    InfoLimit(enc.class_);
    GetPut(enc.endian, rec, w, w, RemapInfo(enc.class_, info, symndx, old2new));
    IndexFits(enc.class_, info);
  }

  // ---- Tables ----

  function Count(data: seq<byte>, stride: nat): (n: nat)
    requires stride > 0
    ensures Span(n, stride) <= |data|
  {
    SpanIsProduct(|data| / stride, stride);
    |data| / stride
  }

  function Remapped(enc: Enc, cs: seq<seq<byte>>, stride: nat, symndx: nat, old2new: seq<nat>): (r: seq<seq<byte>>)
    requires AllWide(cs, stride) && stride >= 2 * GnuTable.WordSize(enc.class_)
    ensures AllWide(r, stride) && |r| == |cs|
  {
    seq(|cs|, k requires 0 <= k < |cs| => RemapRecord(enc, cs[k], symndx, old2new))
  }

  /** The relocation section after the remap; bytes past the last whole record stay. */
  ghost function RemapTable(enc: Enc, data: seq<byte>, stride: nat, symndx: nat, old2new: seq<nat>): (r: seq<byte>)
    requires stride >= 2 * GnuTable.WordSize(enc.class_)
    ensures |r| == |data|
  {
    var n := Count(data, stride);
    var cs := Remapped(enc, Records(data, 0, stride, n), stride, symndx, old2new);
    JoinLength(cs, stride);
    Join(cs) + data[Span(n, stride)..]
  }

  /** Record `k` of the rewritten table is record `k` rewritten. */
  lemma TableRecord(enc: Enc, data: seq<byte>, stride: nat, symndx: nat, old2new: seq<nat>, k: nat)
    requires stride >= 2 * GnuTable.WordSize(enc.class_) && k < Count(data, stride)
    ensures Span(k, stride) + stride <= |data|
    ensures Record(RemapTable(enc, data, stride, symndx, old2new), stride, k)
         == RemapRecord(enc, Record(data, stride, k), symndx, old2new)
  {
    var n := Count(data, stride);
    SpanBounds(k, n, stride);
    var cs := Remapped(enc, Records(data, 0, stride, n), stride, symndx, old2new);
    TableChunk(cs, data[Span(n, stride)..], stride, k);
    assert Slot(data, 0, stride, n, k) == Record(data, stride, k);
  }

  lemma TableChunk(cs: seq<seq<byte>>, after: seq<byte>, w: nat, k: nat)
    requires AllWide(cs, w) && k < |cs|
    ensures Span(k, w) + w <= |Join(cs) + after| && Record(Join(cs) + after, w, k) == cs[k]
  {
    ChunkBytes([], cs, after, w, k);
    assert [] + Join(cs) == Join(cs);
  }

  /** Overwriting part of a chunk. */
  lemma {:induction false} SpliceInChunk(before: seq<byte>, cs: seq<seq<byte>>, after: seq<byte>, w: nat, k: nat,
                                         o: nat, b: seq<byte>, c: seq<byte>)
    requires AllWide(cs, w) && k < |cs| && o + |b| <= w && c == cs[k][..o] + b + cs[k][o + |b|..]
    ensures var s, at := before + Join(cs) + after, |before| + Span(k, w) + o;
            && at + |b| <= |s|
            && s[..at] + b + s[at + |b|..] == before + Join(cs[k := c]) + after
    decreases cs
  {
    var n := |cs| - 1;
    MoveOut(before, Join(cs[..n]), cs[n], after);
    if k == n {
      JoinLength(cs[..n], w);
      assert cs[k := c][..n] == cs[..n];
      MoveOut(before, Join(cs[..n]), c, after);
      SpliceInside(before + Join(cs[..n]), cs[n], after, o, b);
    } else {
      assert cs[k := c][..n] == cs[..n][k := c];
      MoveOut(before, Join(cs[..n][k := c]), cs[n], after);
      SpliceInChunk(before, cs[..n], cs[n] + after, w, k, o, b, c);
    }
  }

  lemma SpliceInside(a: seq<byte>, d: seq<byte>, z: seq<byte>, o: nat, b: seq<byte>)
    requires o + |b| <= |d|
    ensures var s, at := a + (d + z), |a| + o;
            s[..at] + b + s[at + |b|..] == a + ((d[..o] + b + d[o + |b|..]) + z)
  {
    var s, at := a + (d + z), |a| + o;
    assert s[..at] == a + d[..o];
    assert s[at + |b|..] == d[o + |b|..] + z;
  }

  lemma GetInChunk(e: Endian, before: seq<byte>, cs: seq<seq<byte>>, after: seq<byte>, w: nat, k: nat, o: nat, n: nat)
    requires AllWide(cs, w) && k < |cs| && o + n <= w
    ensures var s := before + Join(cs) + after;
            && |before| + Span(k, w) + o + n <= |s|
            && Get(e, s, |before| + Span(k, w) + o, n) == Get(e, cs[k], o, n)
  {
    ChunkPart(before, cs, after, w, k, o, n);
  }

  lemma {:induction false} ChunkPart(before: seq<byte>, cs: seq<seq<byte>>, after: seq<byte>, w: nat, k: nat, o: nat,
                                     n: nat)
    requires AllWide(cs, w) && k < |cs| && o + n <= w
    ensures var s, at := before + Join(cs) + after, |before| + Span(k, w) + o;
            at + n <= |s| && s[at..at + n] == cs[k][o..o + n]
    decreases cs
  {
    var m := |cs| - 1;
    MoveOut(before, Join(cs[..m]), cs[m], after);
    if k == m {
      JoinLength(cs[..m], w);
      SliceInside(before + Join(cs[..m]), cs[m], after, o, n);
    } else {
      ChunkPart(before, cs[..m], cs[m] + after, w, k, o, n);
    }
  }

  lemma SliceInside(a: seq<byte>, d: seq<byte>, z: seq<byte>, o: nat, n: nat)
    requires o + n <= |d|
    ensures (a + (d + z))[|a| + o..|a| + o + n] == d[o..o + n]
  {
  }

  /** A field of one record, in place. */
  method StoreInfo(a: array<byte>, e: Endian, stride: nat, k: nat, w: nat, v: nat,
                   ghost cs: seq<seq<byte>>, ghost after: seq<byte>)
    requires 2 * w <= stride && k < |cs| && IsChunks(a[..], [], cs, stride, after)
    requires Span(k, stride) + 2 * w <= a.Length
    modifies a
    ensures |cs[k]| == stride && IsChunks(a[..], [], cs[k := Put(e, cs[k], w, w, v)], stride, after)
  {
    var b := Encode(e, v, w);
    PutIsSplice(e, cs[k], w, w, v, b);
    SpliceInChunk([], cs, after, stride, k, w, b, Put(e, cs[k], w, w, v));
    CopyInto(a, Span(k, stride) + w, b);
  }

  /** One record's rewrite, in place. */
  method RemapOne(a: array<byte>, enc: Enc, stride: nat, k: nat, symndx: nat, old2new: seq<nat>,
                  ghost cs: seq<seq<byte>>, ghost after: seq<byte>)
    requires stride >= 2 * GnuTable.WordSize(enc.class_) && k < |cs| && IsChunks(a[..], [], cs, stride, after)
    modifies a
    ensures IsChunks(a[..], [], cs[k := RemapRecord(enc, cs[k], symndx, old2new)], stride, after)
  {
    var w, u := GnuTable.WordSize(enc.class_), SymUnit(enc.class_);
    GetInChunk(enc.endian, [], cs, after, stride, k, w, w);
    var info := Get(enc.endian, a[..], Span(k, stride) + w, w);
    var moved := NewIndex(symndx, old2new, info / u);
    if moved != info / u {
      var v := RemapInfo(enc.class_, info, symndx, old2new);
      StoreInfo(a, enc.endian, stride, k, w, v, cs, after);
    } else {
      assert cs[k := cs[k]] == cs;
    }
  }

  /** One relocation table, in place. */
  method RemapRelocs(a: array<byte>, enc: Enc, stride: nat, symndx: nat, old2new: seq<nat>)
    requires stride >= 2 * GnuTable.WordSize(enc.class_)
    modifies a
    ensures a[..] == RemapTable(enc, old(a[..]), stride, symndx, old2new)
  {
    var n := Count(a[..], stride);
    ghost var rs, after := Records(a[..], 0, stride, n), a[Span(n, stride)..];
    ghost var done := Remapped(enc, rs, stride, symndx, old2new);
    ghost var cs := rs;
    RecordsBetween(a[..], 0, stride, n);
    assert a[..0] == [];
    for k := 0 to n
      invariant |cs| == n && IsChunks(a[..], [], cs, stride, after)
      invariant forall j :: 0 <= j < k ==> cs[j] == done[j]
      invariant forall j :: k <= j < n ==> cs[j] == rs[j]
    {
      RemapOne(a, enc, stride, k, symndx, old2new, cs, after);
      cs := cs[k := RemapRecord(enc, cs[k], symndx, old2new)];
    }
    assert cs == done;
    assert [] + Join(done) == Join(done);
  }
}
