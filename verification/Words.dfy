/** Arrays of fixed-width words inside byte strings, and single bits of words. */
module Words {
  import opened Bytes

  /** The bytes that `n` words of `w` bytes take: `n * w`, kept linear for the verifier. */
  function Span(n: nat, w: nat): nat
  {
    if n == 0 then 0 else Span(n - 1, w) + w
  }

  lemma {:induction false} SpanIsProduct(n: nat, w: nat)
    ensures Span(n, w) == n * w
  {
    if n > 0 {
      SpanIsProduct(n - 1, w);
    }
  }

  lemma {:induction false} SpanBounds(k: nat, n: nat, w: nat)
    requires k < n
    ensures Span(k, w) + w <= Span(n, w)
  {
    if k < n - 1 {
      SpanBounds(k, n - 1, w);
    }
  }

  // ---- Equal chunks joined ----

  function Join(cs: seq<seq<byte>>): seq<byte>
  {
    if cs == [] then [] else Join(cs[..|cs| - 1]) + cs[|cs| - 1]
  }

  ghost predicate AllWide(cs: seq<seq<byte>>, w: nat)
  {
    forall k :: 0 <= k < |cs| ==> |cs[k]| == w
  }

  lemma {:induction false} JoinLength(cs: seq<seq<byte>>, w: nat)
    requires AllWide(cs, w)
    ensures |Join(cs)| == Span(|cs|, w)
  {
    if cs != [] {
      JoinLength(cs[..|cs| - 1], w);
    }
  }

  lemma MoveOut(a: seq<byte>, j: seq<byte>, d: seq<byte>, c: seq<byte>)
    ensures a + (j + d) + c == a + j + (d + c)
  {
  }

  /** Where chunk `k` lies in a join between `before` and `after`. */
  lemma {:induction false} ChunkBytes(before: seq<byte>, cs: seq<seq<byte>>, after: seq<byte>, w: nat, k: nat)
    requires AllWide(cs, w) && k < |cs|
    ensures var s, o := before + Join(cs) + after, |before| + Span(k, w);
            o + w <= |s| && s[o..o + w] == cs[k]
    decreases cs
  {
    var n := |cs| - 1;
    MoveOut(before, Join(cs[..n]), cs[n], after);
    if k == n {
      JoinLength(cs[..n], w);
      SliceEnd(before + Join(cs[..n]), cs[n], after);
    } else {
      ChunkBytes(before, cs[..n], cs[n] + after, w, k);
    }
  }

  lemma SliceEnd(a: seq<byte>, c: seq<byte>, z: seq<byte>)
    ensures (a + (c + z))[|a|..|a| + |c|] == c
  {
  }

  /** Overwriting chunk `k`'s bytes. */
  lemma {:induction false} SpliceChunk(before: seq<byte>, cs: seq<seq<byte>>, after: seq<byte>, w: nat, k: nat,
                                       c: seq<byte>)
    requires AllWide(cs, w) && k < |cs| && |c| == w
    ensures var s, o := before + Join(cs) + after, |before| + Span(k, w);
            o + w <= |s| && s[..o] + c + s[o + w..] == before + Join(cs[k := c]) + after
    decreases cs
  {
    var n := |cs| - 1;
    MoveOut(before, Join(cs[..n]), cs[n], after);
    if k == n {
      JoinLength(cs[..n], w);
      assert cs[k := c][..n] == cs[..n];
      MoveOut(before, Join(cs[..n]), c, after);
      SpliceEnd(before + Join(cs[..n]), cs[n], c, after);
    } else {
      assert cs[k := c][..n] == cs[..n][k := c];
      MoveOut(before, Join(cs[..n][k := c]), cs[n], after);
      SpliceChunk(before, cs[..n], cs[n] + after, w, k, c);
    }
  }

  lemma SpliceEnd(a: seq<byte>, d: seq<byte>, c: seq<byte>, z: seq<byte>)
    requires |c| == |d|
    ensures (a + (d + z))[..|a|] + c + (a + (d + z))[|a| + |c|..] == a + (c + z)
  {
  }

  // ---- Word arrays ----

  function Chunks(e: Endian, w: nat, ws: seq<nat>): (cs: seq<seq<byte>>)
    ensures |cs| == |ws| && forall k :: 0 <= k < |cs| ==> |cs[k]| == w
  {
    seq(|ws|, k requires 0 <= k < |ws| => Encode(e, ws[k], w))
  }

  /** The bytes of an array of `w`-byte words. */
  function EncodeWords(e: Endian, w: nat, ws: seq<nat>): (b: seq<byte>)
    ensures |b| == Span(|ws|, w)
  {
    JoinLength(Chunks(e, w, ws), w);
    Join(Chunks(e, w, ws))
  }

  lemma WordsSnoc(e: Endian, w: nat, ws: seq<nat>, v: nat)
    ensures EncodeWords(e, w, ws + [v]) == EncodeWords(e, w, ws) + Encode(e, v, w)
  {
    var cs := Chunks(e, w, ws + [v]);
    assert cs[..|ws|] == Chunks(e, w, ws);
  }

  /** Reading word `k` of a word array between `before` and `after` gives its value. */
  lemma GetWord(e: Endian, before: seq<byte>, w: nat, ws: seq<nat>, after: seq<byte>, k: nat)
    requires k < |ws| && ws[k] < Pow256(w)
    ensures var s := before + EncodeWords(e, w, ws) + after;
            && |before| + Span(k, w) + w <= |s|
            && Get(e, s, |before| + Span(k, w), w) == ws[k]
  {
    var cs := Chunks(e, w, ws);
    ChunkBytes(before, cs, after, w, k);
    GetEncoded(e, before + Join(cs) + after, |before| + Span(k, w), w, cs[k], ws[k]);
  }

  lemma GetEncoded(e: Endian, s: seq<byte>, o: nat, w: nat, c: seq<byte>, v: nat)
    requires o + w <= |s| && s[o..o + w] == c && c == Encode(e, v, w) && v < Pow256(w)
    ensures Get(e, s, o, w) == v
  {
    DecodeEncode(e, v, w);
  }

  /** The `n` words at offset `o`. */
  function GetWords(e: Endian, s: seq<byte>, o: nat, w: nat, n: nat): (r: seq<nat>)
    requires o + Span(n, w) <= |s|
    ensures |r| == n
  {
    seq(n, k requires 0 <= k < n => SpanBounds(k, n, w); Get(e, s, o + Span(k, w), w))
  }

  lemma GetWordsBack(e: Endian, before: seq<byte>, w: nat, ws: seq<nat>, after: seq<byte>)
    requires forall k :: 0 <= k < |ws| ==> ws[k] < Pow256(w)
    ensures GetWords(e, before + EncodeWords(e, w, ws) + after, |before|, w, |ws|) == ws
  {
    var s := before + EncodeWords(e, w, ws) + after;
    var r := GetWords(e, s, |before|, w, |ws|);
    forall k | 0 <= k < |ws|
      ensures r[k] == ws[k]
    {
      GetWord(e, before, w, ws, after, k);
    }
  }

  lemma PutIsSplice(e: Endian, s: seq<byte>, o: nat, w: nat, v: nat, c: seq<byte>)
    requires o + w <= |s| && c == Encode(e, v, w)
    ensures Put(e, s, o, w, v) == s[..o] + c + s[o + w..]
  {
  }

  lemma ChunksUpdate(e: Endian, w: nat, ws: seq<nat>, k: nat, v: nat)
    requires k < |ws|
    ensures Chunks(e, w, ws[k := v]) == Chunks(e, w, ws)[k := Encode(e, v, w)]
  {
  }

  function Zeros(n: nat): (z: seq<nat>)
    ensures |z| == n && forall i :: 0 <= i < n ==> z[i] == 0
  {
    seq(n, i => 0)
  }

  lemma {:induction false} EncodeZero(e: Endian, w: nat)
    ensures forall i :: 0 <= i < w ==> Encode(e, 0, w)[i] == 0
  {
    LeZero(w);
  }

  lemma {:induction false} LeZero(w: nat)
    ensures forall i :: 0 <= i < w ==> LeBytes(0, w)[i] == 0
  {
    if w > 0 {
      LeZero(w - 1);
    }
  }

  /** Cleared bytes are an array of zero words. */
  lemma {:induction false} ZeroWords(e: Endian, w: nat, n: nat)
    ensures forall i :: 0 <= i < Span(n, w) ==> EncodeWords(e, w, Zeros(n))[i] == 0
  {
    if n > 0 {
      ZeroWords(e, w, n - 1);
      EncodeZero(e, w);
      assert Zeros(n) == Zeros(n - 1) + [0];
      WordsSnoc(e, w, Zeros(n - 1), 0);
    }
  }

  // ---- Bits ----

  predicate HasBit(v: nat, k: nat)
  {
    if k == 0 then v % 2 == 1 else HasBit(v / 2, k - 1)
  }

  /** `v | (1 << k)` */
  function SetBit(v: nat, k: nat): nat
    decreases k
  {
    if k == 0 then v / 2 * 2 + 1 else 2 * SetBit(v / 2, k - 1) + v % 2
  }

  lemma {:induction false} SetBitHas(v: nat, k: nat, j: nat)
    ensures HasBit(SetBit(v, k), j) <==> j == k || HasBit(v, j)
    decreases k
  {
    if k > 0 && j > 0 {
      SetBitHas(v / 2, k - 1, j - 1);
      assert SetBit(v, k) / 2 == SetBit(v / 2, k - 1);
    } else if k == 0 && j > 0 {
      assert SetBit(v, k) / 2 == v / 2;
    }
  }

  function Pow2(k: nat): (r: nat)
    ensures r > 0
  {
    if k == 0 then 1 else 2 * Pow2(k - 1)
  }

  lemma {:induction false} SetBitFits(v: nat, k: nat, n: nat)
    requires k < n && v < Pow2(n)
    ensures SetBit(v, k) < Pow2(n)
    decreases k
  {
    if k > 0 {
      SetBitFits(v / 2, k - 1, n - 1);
    }
  }

  lemma {:induction false} Pow2Bytes(w: nat)
    ensures Pow2(8 * w) == Pow256(w)
  {
    if w > 0 {
      Pow2Bytes(w - 1);
      var n := 8 * (w - 1);
      assert Pow2(n + 1) == 2 * Pow2(n) && Pow2(n + 2) == 4 * Pow2(n) && Pow2(n + 3) == 8 * Pow2(n);
      assert Pow2(n + 4) == 16 * Pow2(n) && Pow2(n + 5) == 32 * Pow2(n) && Pow2(n + 6) == 64 * Pow2(n);
      assert Pow2(n + 7) == 128 * Pow2(n) && Pow2(n + 8) == 256 * Pow2(n);
    }
  }

  // ---- Chunks of an array ----

  /** `a` holds the chunks `cs` between two fixed byte strings. */
  ghost predicate IsChunks(s: seq<byte>, before: seq<byte>, cs: seq<seq<byte>>, w: nat, after: seq<byte>)
  {
    AllWide(cs, w) && s == before + Join(cs) + after
  }

  method StoreChunk(a: array<byte>, o: nat, w: nat, k: nat, c: seq<byte>,
                    ghost before: seq<byte>, ghost cs: seq<seq<byte>>, ghost after: seq<byte>)
    requires |before| == o && k < |cs| && |c| == w && IsChunks(a[..], before, cs, w, after)
    modifies a
    ensures IsChunks(a[..], before, cs[k := c], w, after)
  {
    SpliceChunk(before, cs, after, w, k, c);
    CopyInto(a, o + Span(k, w), c);
  }

  lemma StoreStep(s: seq<byte>, c: seq<byte>, o: nat, j: nat)
    requires j < |c| && o + |c| <= |s|
    ensures var t := s[..o] + c[..j] + s[o + j..];
            o + j < |t| && t[o + j := c[j]] == s[..o] + c[..j + 1] + s[o + j + 1..]
  {
  }

  method CopyInto(a: array<byte>, o: nat, c: seq<byte>)
    requires o + |c| <= a.Length
    modifies a
    ensures a[..] == old(a[..])[..o] + c + old(a[..])[o + |c|..]
  {
    ghost var before := a[..];
    for j := 0 to |c|
      invariant a[..] == before[..o] + c[..j] + before[o + j..]
    {
      StoreStep(before, c, o, j);
      a[o + j] := c[j];
    }
  }
}
