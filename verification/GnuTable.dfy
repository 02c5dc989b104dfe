/** The `.gnu.hash` section's bytes: refilled in place (src/symbols.rs), and read
    back as the table the loader searches. */
module GnuTable {
  import opened Bytes
  import opened Ir
  import opened Words
  import opened GnuHash

  function WordSize(c: Class): nat
  {
    if c.Elf64? then 8 else 4
  }

  function ReadHeader(enc: Enc, data: seq<byte>): Header
    requires |data| >= 16
  {
    Pow256Widths();
    Header(Get(enc.endian, data, 0, 4), Get(enc.endian, data, 4, 4), Get(enc.endian, data, 8, 4),
           Get(enc.endian, data, 12, 4), 8 * WordSize(enc.class_))
  }

  function BucketsOff(enc: Enc, h: Header): nat
  {
    16 + Span(h.maskwords, WordSize(enc.class_))
  }

  function ChainOff(enc: Enc, h: Header): nat
  {
    BucketsOff(enc, h) + Span(h.nbuckets, 4)
  }

  /** The table with `count` chain words, as it lies in the section. */
  function ReadTable(enc: Enc, data: seq<byte>, count: nat): Table
    requires |data| >= 16 && ChainOff(enc, ReadHeader(enc, data)) + Span(count, 4) <= |data|
  {
    var h, w := ReadHeader(enc, data), WordSize(enc.class_);
    Table(GetWords(enc.endian, data, 16, w, h.maskwords),
          GetWords(enc.endian, data, BucketsOff(enc, h), 4, h.nbuckets),
          GetWords(enc.endian, data, ChainOff(enc, h), 4, count))
  }

  ghost predicate Consistent(h: Header, es: seq<Entry>)
  {
    h.wordbits > 0 && (es != [] ==> h.maskwords > 0) && forall i :: 0 <= i < |es| ==> es[i].bucket < h.nbuckets
  }

  /** The section after the refill. */
  ghost function Rebuilt(enc: Enc, data: seq<byte>, es: seq<Entry>): (r: seq<byte>)
    requires |data| >= 16
    requires var h := ReadHeader(enc, data); Consistent(h, es) && ChainOff(enc, h) + Span(|es|, 4) <= |data|
    ensures |r| == |data|
  {
    RebuiltUnder(enc, ReadHeader(enc, data), data, es)
  }

  ghost function RebuiltUnder(enc: Enc, h: Header, data: seq<byte>, es: seq<Entry>): (r: seq<byte>)
    requires |data| >= 16 && Consistent(h, es) && ChainOff(enc, h) + Span(|es|, 4) <= |data|
    ensures |r| == |data|
  {
    Three(enc.endian, data[..16], WordSize(enc.class_), Bloom(h, es), Buckets(h, es), Chain(es),
          data[ChainOff(enc, h) + Span(|es|, 4)..])
  }

  // ---- Every word fits its width ----

  ghost predicate AllBelow(ws: seq<nat>, limit: nat)
  {
    forall k :: 0 <= k < |ws| ==> ws[k] < limit
  }

  lemma {:induction false} BloomFits(h: Header, es: seq<Entry>, w: nat)
    requires h.wordbits == 8 * w > 0 && (es != [] ==> h.maskwords > 0)
    ensures AllBelow(Bloom(h, es), Pow256(w))
  {
    if es != [] {
      BloomFits(h, es[..|es| - 1], w);
      Pow2Bytes(w);
      var b, e := Bloom(h, es[..|es| - 1]), es[|es| - 1];
      var i := BloomIndex(h, e.hash);
      SetBitFits(b[i], e.hash % h.wordbits, h.wordbits);
      SetBitFits(SetBit(b[i], e.hash % h.wordbits), e.hash / Pow2(h.shift2) % h.wordbits, h.wordbits);
    }
  }

  lemma {:induction false} BucketsFit(h: Header, es: seq<Entry>)
    requires Consistent(h, es) && h.symndx + |es| <= 0x1_0000_0000
    ensures AllBelow(Buckets(h, es), 0x1_0000_0000)
  {
    if es != [] {
      BucketsFit(h, es[..|es| - 1]);
    }
  }

  lemma ChainFits(es: seq<Entry>)
    ensures AllBelow(Chain(es), 0x1_0000_0000)
  {
  }

  // ---- Reading back what was filled in ----

  /** Three word arrays in a row. */
  ghost function Three(e: Endian, head: seq<byte>, w: nat, bloom: seq<nat>, buckets: seq<nat>, chain: seq<nat>,
                       tail: seq<byte>): (r: seq<byte>)
    ensures |r| == |head| + Span(|bloom|, w) + Span(|buckets|, 4) + Span(|chain|, 4) + |tail|
    ensures r[..|head|] == head
  {
    head + EncodeWords(e, w, bloom) + EncodeWords(e, 4, buckets) + EncodeWords(e, 4, chain) + tail
  }

  lemma ThreeSlices(a: seq<byte>, b: seq<byte>, c: seq<byte>, d: seq<byte>, z: seq<byte>)
    ensures var r := a + b + c + d + z;
            && r[..|a|] == a && r[|a|..|a| + |b|] == b && r[|a| + |b|..|a| + |b| + |c|] == c
            && r[|a| + |b| + |c|..|a| + |b| + |c| + |d|] == d
  {
  }

  lemma ThreeParts(s: seq<byte>, o: nat, b: seq<byte>)
    requires HasSlice(s, o, b)
    ensures s == s[..o] + b + s[o + |b|..]
  {
  }

  lemma ReadWords(e: Endian, s: seq<byte>, o: nat, w: nat, ws: seq<nat>)
    requires HasSlice(s, o, EncodeWords(e, w, ws)) && AllBelow(ws, Pow256(w))
    ensures GetWords(e, s, o, w, |ws|) == ws
  {
    var b := EncodeWords(e, w, ws);
    ThreeParts(s, o, b);
    GetWordsBack(e, s[..o], w, ws, s[o + |b|..]);
  }

  /** The loader reads the filled table out of the rebuilt section, under the
      unchanged header. */
  lemma ReadRebuilt(enc: Enc, data: seq<byte>, es: seq<Entry>)
    requires |data| >= 16
    requires var h := ReadHeader(enc, data);
             Consistent(h, es) && ChainOff(enc, h) + Span(|es|, 4) <= |data| && h.symndx + |es| <= 0x1_0000_0000
    ensures var h, r := ReadHeader(enc, data), Rebuilt(enc, data, es);
            ReadHeader(enc, r) == h && ReadTable(enc, r, |es|) == Filled(h, es)
  {
    var h := ReadHeader(enc, data);
    RebuiltSlices(enc, h, data, es);
    SameHeader(enc, data, Rebuilt(enc, data, es));
    ReadFilled(enc, h, Rebuilt(enc, data, es), es);
  }

  ghost predicate HasSlice(r: seq<byte>, o: nat, b: seq<byte>)
  {
    o + |b| <= |r| && r[o..o + |b|] == b
  }

  lemma RebuiltSlices(enc: Enc, h: Header, data: seq<byte>, es: seq<Entry>)
    requires |data| >= 16 && Consistent(h, es) && ChainOff(enc, h) + Span(|es|, 4) <= |data|
    ensures var r, e := RebuiltUnder(enc, h, data, es), enc.endian;
            && r[..16] == data[..16]
            && HasSlice(r, 16, EncodeWords(e, WordSize(enc.class_), Bloom(h, es)))
            && HasSlice(r, BucketsOff(enc, h), EncodeWords(e, 4, Buckets(h, es)))
            && HasSlice(r, ChainOff(enc, h), EncodeWords(e, 4, Chain(es)))
  {
    var w, e := WordSize(enc.class_), enc.endian;
    ThreeHas(e, data[..16], w, Bloom(h, es), Buckets(h, es), Chain(es), data[ChainOff(enc, h) + Span(|es|, 4)..]);
  }

  lemma ThreeHas(e: Endian, head: seq<byte>, w: nat, bloom: seq<nat>, buckets: seq<nat>, chain: seq<nat>,
                 tail: seq<byte>)
    ensures var r := Three(e, head, w, bloom, buckets, chain, tail);
            && HasSlice(r, |head|, EncodeWords(e, w, bloom))
            && HasSlice(r, |head| + Span(|bloom|, w), EncodeWords(e, 4, buckets))
            && HasSlice(r, |head| + Span(|bloom|, w) + Span(|buckets|, 4), EncodeWords(e, 4, chain))
  {
    ThreeSlices(head, EncodeWords(e, w, bloom), EncodeWords(e, 4, buckets), EncodeWords(e, 4, chain), tail);
  }

  lemma ReadFilled(enc: Enc, h: Header, r: seq<byte>, es: seq<Entry>)
    requires |r| >= 16 && ReadHeader(enc, r) == h && Consistent(h, es) && h.symndx + |es| <= 0x1_0000_0000
    requires HasSlice(r, 16, EncodeWords(enc.endian, WordSize(enc.class_), Bloom(h, es)))
    requires HasSlice(r, BucketsOff(enc, h), EncodeWords(enc.endian, 4, Buckets(h, es)))
    requires HasSlice(r, ChainOff(enc, h), EncodeWords(enc.endian, 4, Chain(es)))
    ensures ReadTable(enc, r, |es|) == Filled(h, es)
  {
    BloomFits(h, es, WordSize(enc.class_));
    BucketsFit(h, es);
    ChainFits(es);
    Pow256Widths();
    ReadWords(enc.endian, r, 16, WordSize(enc.class_), Bloom(h, es));
    ReadWords(enc.endian, r, BucketsOff(enc, h), 4, Buckets(h, es));
    ReadWords(enc.endian, r, ChainOff(enc, h), 4, Chain(es));
  }

  lemma SameHeader(enc: Enc, data: seq<byte>, r: seq<byte>)
    requires |data| >= 16 && |r| >= 16 && r[..16] == data[..16]
    ensures ReadHeader(enc, r) == ReadHeader(enc, data)
  {
    assert r[0..4] == r[..16][0..4] && data[0..4] == data[..16][0..4];
    assert r[4..8] == r[..16][4..8] && data[4..8] == data[..16][4..8];
    assert r[8..12] == r[..16][8..12] && data[8..12] == data[..16][8..12];
    assert r[12..16] == r[..16][12..16] && data[12..16] == data[..16][12..16];
  }

  // ---- The refill in place ----

  method Clear(a: array<byte>, lo: nat, hi: nat)
    requires lo <= hi <= a.Length
    modifies a
    ensures a[..lo] == old(a[..lo]) && a[hi..] == old(a[hi..])
    ensures forall i :: lo <= i < hi ==> a[i] == 0
  {
    for i := lo to hi
      invariant a[..lo] == old(a[..lo]) && a[hi..] == old(a[hi..])
      invariant forall j :: lo <= j < i ==> a[j] == 0
    {
      a[i] := 0;
    }
  }

  /** Clear an array of words. */
  method ClearWords(a: array<byte>, e: Endian, lo: nat, w: nat, n: nat)
    requires lo + Span(n, w) <= a.Length
    modifies a
    ensures a[..] == old(a[..lo]) + EncodeWords(e, w, Zeros(n)) + old(a[lo + Span(n, w)..])
  {
    ghost var before, after := a[..lo], a[lo + Span(n, w)..];
    Clear(a, lo, lo + Span(n, w));
    ClearedIs(a[..], before, after, e, w, n);
  }

  lemma ClearedIs(s: seq<byte>, before: seq<byte>, after: seq<byte>, e: Endian, w: nat, n: nat)
    requires |before| + Span(n, w) <= |s| && s[..|before|] == before && s[|before| + Span(n, w)..] == after
    requires forall i :: |before| <= i < |before| + Span(n, w) ==> s[i] == 0
    ensures s == before + EncodeWords(e, w, Zeros(n)) + after
  {
    var lo, hi := |before|, |before| + Span(n, w);
    ZeroWords(e, w, n);
    assert s[lo..hi] == EncodeWords(e, w, Zeros(n));
    assert s == s[..lo] + s[lo..hi] + s[hi..];
  }

  /** `s` is the word array `ws` between two fixed byte strings. */
  ghost predicate IsWords(s: seq<byte>, before: seq<byte>, e: Endian, w: nat, ws: seq<nat>, after: seq<byte>)
  {
    s == before + EncodeWords(e, w, ws) + after
  }

  method StoreWord(a: array<byte>, e: Endian, o: nat, w: nat, k: nat, v: nat,
                   ghost before: seq<byte>, ghost ws: seq<nat>, ghost after: seq<byte>)
    requires |before| == o && k < |ws| && IsWords(a[..], before, e, w, ws, after)
    modifies a
    ensures IsWords(a[..], before, e, w, ws[k := v], after)
  {
    ChunksUpdate(e, w, ws, k, v);
    StoreChunk(a, o, w, k, Encode(e, v, w), before, Chunks(e, w, ws), after);
  }

  method LoadWord(a: array<byte>, e: Endian, o: nat, w: nat, k: nat,
                  ghost before: seq<byte>, ghost ws: seq<nat>, ghost after: seq<byte>) returns (v: nat)
    requires |before| == o && k < |ws| && ws[k] < Pow256(w) && IsWords(a[..], before, e, w, ws, after)
    ensures v == ws[k]
  {
    GetWord(e, before, w, ws, after, k);
    v := Get(e, a[..], o + Span(k, w), w);
  }

  method FillBloom(a: array<byte>, e: Endian, w: nat, h: Header, es: seq<Entry>,
                   ghost before: seq<byte>, ghost after: seq<byte>)
    requires h.wordbits == 8 * w > 0 && (es != [] ==> h.maskwords > 0)
    requires |before| == 16 && IsWords(a[..], before, e, w, Zeros(h.maskwords), after)
    modifies a
    ensures IsWords(a[..], before, e, w, Bloom(h, es), after)
  {
    for i := 0 to |es|
      invariant IsWords(a[..], before, e, w, Bloom(h, es[..i]), after)
    {
      assert es[..i + 1][..i] == es[..i];
      var idx := BloomIndex(h, es[i].hash);
      BloomFits(h, es[..i], w);
      var v := LoadWord(a, e, 16, w, idx, before, Bloom(h, es[..i]), after);
      v := SetBit(v, es[i].hash % h.wordbits);
      v := SetBit(v, es[i].hash / Pow2(h.shift2) % h.wordbits);
      StoreWord(a, e, 16, w, idx, v, before, Bloom(h, es[..i]), after);
    }
    assert es[..|es|] == es;
  }

  /** Fails when a symbol index does not fit a 32-bit word. */
  method FillBuckets(a: array<byte>, e: Endian, h: Header, es: seq<Entry>, o: nat,
                     ghost before: seq<byte>, ghost after: seq<byte>) returns (ok: bool)
    requires Consistent(h, es)
    requires |before| == o && IsWords(a[..], before, e, 4, Zeros(h.nbuckets), after)
    modifies a
    ensures h.symndx + |es| <= 0x1_0000_0000 ==> ok
    ensures ok ==> IsWords(a[..], before, e, 4, Buckets(h, es), after)
  {
    Pow256Widths();
    for i := 0 to |es|
      invariant AllBelow(Buckets(h, es[..i]), 0x1_0000_0000)
      invariant IsWords(a[..], before, e, 4, Buckets(h, es[..i]), after)
    {
      assert es[..i + 1][..i] == es[..i];
      ghost var buckets := Buckets(h, es[..i]);
      var k := es[i].bucket;
      var v := LoadWord(a, e, o, 4, k, before, buckets, after);
      if v == 0 {
        if i + h.symndx >= 0x1_0000_0000 {
          return false;
        }
        StoreWord(a, e, o, 4, k, i + h.symndx, before, buckets, after);
      }
    }
    assert es[..|es|] == es;
    ok := true;
  }

  method ChainWordAt(es: seq<Entry>, i: nat) returns (v: nat)
    requires i < |es|
    ensures v == ChainWord(es, i)
  {
    var last := i + 1 == |es| || es[i + 1].bucket != es[i].bucket;
    v := if last then es[i].hash / 2 * 2 + 1 else es[i].hash / 2 * 2;
  }

  method FillChain(a: array<byte>, e: Endian, es: seq<Entry>, o: nat, ghost before: seq<byte>, ghost after: seq<byte>)
    requires |before| == o && a.Length == o + Span(|es|, 4) + |after|
    requires a[..o] == before && a[o + Span(|es|, 4)..] == after
    modifies a
    ensures IsWords(a[..], before, e, 4, Chain(es), after)
  {
    ghost var ws: seq<nat> := AsWords(e, a[..], before, after, |es|);
    for i := 0 to |es|
      invariant |ws| == |es| && forall j :: 0 <= j < i ==> ws[j] == ChainWord(es, j)
      invariant IsWords(a[..], before, e, 4, ws, after)
    {
      var v := ChainWordAt(es, i);
      StoreWord(a, e, o, 4, i, v, before, ws, after);
      ws := ws[i := v];
    }
    assert ws == Chain(es);
  }

  lemma AsWords(e: Endian, s: seq<byte>, before: seq<byte>, after: seq<byte>, n: nat) returns (ws: seq<nat>)
    requires |s| == |before| + Span(n, 4) + |after|
    requires s[..|before|] == before && s[|before| + Span(n, 4)..] == after
    ensures |ws| == n && IsWords(s, before, e, 4, ws, after)
  {
    var b := s[|before|..|before| + Span(n, 4)];
    ws := AnyWords(e, b, n);
    ThreeParts(s, |before|, b);
  }

  /** Any bytes of the right length are an array of words. */
  lemma {:induction false} AnyWords(e: Endian, b: seq<byte>, n: nat) returns (ws: seq<nat>)
    requires |b| == Span(n, 4)
    ensures |ws| == n && EncodeWords(e, 4, ws) == b
  {
    if n == 0 {
      ws := [];
    } else {
      var m := Span(n - 1, 4);
      var ws' := AnyWords(e, b[..m], n - 1);
      EncodeDecode(e, b[m..]);
      ws := ws' + [Decode(e, b[m..])];
      WordsSnoc(e, 4, ws', Decode(e, b[m..]));
      assert b == b[..m] + b[m..];
    }
  }

  /** The refill half of `rebuild_gnu_hash`, in place. */
  method Refill(a: array<byte>, enc: Enc, es: seq<Entry>) returns (ok: bool)
    requires a.Length >= 16
    requires var h := ReadHeader(enc, a[..]); Consistent(h, es) && ChainOff(enc, h) + Span(|es|, 4) <= a.Length
    modifies a
    ensures ReadHeader(enc, old(a[..])).symndx + |es| <= 0x1_0000_0000 ==> ok
    ensures ok ==> a[..] == Rebuilt(enc, old(a[..]), es)
  {
    var h := ReadHeader(enc, a[..]);
    ok := RefillTables(a, enc.endian, WordSize(enc.class_), h, es);
  }

  method RefillTables(a: array<byte>, e: Endian, w: nat, h: Header, es: seq<Entry>) returns (ok: bool)
    requires Consistent(h, es) && h.wordbits == 8 * w
    requires 16 + Span(h.maskwords, w) + Span(h.nbuckets, 4) + Span(|es|, 4) <= a.Length
    modifies a
    ensures h.symndx + |es| <= 0x1_0000_0000 ==> ok
    ensures ok ==> a[..] == Three(e, old(a[..16]), w, Bloom(h, es), Buckets(h, es), Chain(es),
                                  old(a[16 + Span(h.maskwords, w) + Span(h.nbuckets, 4) + Span(|es|, 4)..]))
  {
    var bucketsOff := 16 + Span(h.maskwords, w);
    ghost var data, end := a[..], bucketsOff + Span(h.nbuckets, 4) + Span(|es|, 4);
    RefillBloom(a, e, w, h, es);
    ghost var bloom := data[..16] + EncodeWords(e, w, Bloom(h, es));
    LaterTail(bloom, data, bucketsOff, end);
    ok := RefillIndex(a, e, h, es, bucketsOff, bloom, data[end..]);
  }

  lemma LaterTail(x: seq<byte>, data: seq<byte>, off: nat, end: nat)
    requires |x| == off <= end <= |data|
    ensures (x + data[off..])[..off] == x && (x + data[off..])[end..] == data[end..]
  {
  }

  /** Buckets, then the chain, behind what is already stored. */
  method RefillIndex(a: array<byte>, e: Endian, h: Header, es: seq<Entry>, o: nat, ghost before: seq<byte>,
                     ghost after: seq<byte>)
    returns (ok: bool)
    requires Consistent(h, es) && |before| == o && o + Span(h.nbuckets, 4) + Span(|es|, 4) <= a.Length
    requires a[..o] == before && a[o + Span(h.nbuckets, 4) + Span(|es|, 4)..] == after
    modifies a
    ensures h.symndx + |es| <= 0x1_0000_0000 ==> ok
    ensures ok ==> a[..] == before + EncodeWords(e, 4, Buckets(h, es)) + EncodeWords(e, 4, Chain(es)) + after
  {
    var chainOff := o + Span(h.nbuckets, 4);
    ghost var tail := a[chainOff..];
    ok := RefillBuckets(a, e, h, es, o, before, tail);
    if ok {
      ghost var buckets := before + EncodeWords(e, 4, Buckets(h, es));
      KeptEnds(buckets, tail, Span(|es|, 4));
      FillChain(a, e, es, chainOff, buckets, after);
    }
  }

  lemma KeptEnds(x: seq<byte>, y: seq<byte>, n: nat)
    requires n <= |y|
    ensures (x + y)[..|x|] == x && (x + y)[|x| + n..] == y[n..]
  {
  }

  method RefillBloom(a: array<byte>, e: Endian, w: nat, h: Header, es: seq<Entry>)
    requires h.wordbits == 8 * w > 0 && (es != [] ==> h.maskwords > 0) && 16 + Span(h.maskwords, w) <= a.Length
    modifies a
    ensures a[..] == old(a[..16]) + EncodeWords(e, w, Bloom(h, es)) + old(a[16 + Span(h.maskwords, w)..])
  {
    ghost var before, after := a[..16], a[16 + Span(h.maskwords, w)..];
    ClearWords(a, e, 16, w, h.maskwords);
    FillBloom(a, e, w, h, es, before, after);
  }

  method RefillBuckets(a: array<byte>, e: Endian, h: Header, es: seq<Entry>, o: nat,
                       ghost before: seq<byte>, ghost after: seq<byte>) returns (ok: bool)
    requires Consistent(h, es)
    requires |before| == o && o + Span(h.nbuckets, 4) <= a.Length && a[..o] == before
             && a[o + Span(h.nbuckets, 4)..] == after
    modifies a
    ensures h.symndx + |es| <= 0x1_0000_0000 ==> ok
    ensures ok ==> a[..] == before + EncodeWords(e, 4, Buckets(h, es)) + after
  {
    ClearWords(a, e, o, 4, h.nbuckets);
    ok := FillBuckets(a, e, h, es, o, before, after);
  }
}
