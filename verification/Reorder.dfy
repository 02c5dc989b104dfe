/** Moving fixed-stride records under a permutation and rewriting the symbol
    indices of relocations to follow it (src/symbols.rs). */
module Reorder {
  import opened Bytes
  import opened Words
  import Sorting
  import GnuHash
  import GnuTable

  // ---- The permutation ----

  /** `old2new` and `new2old` are inverse permutations of `[0, n)`. */
  ghost predicate Inverse(old2new: seq<nat>, new2old: seq<nat>)
  {
    && |old2new| == |new2old|
    && (forall p :: 0 <= p < |old2new| ==> old2new[p] < |new2old| && new2old[old2new[p]] == p)
    && forall k :: 0 <= k < |new2old| ==> new2old[k] < |old2new| && old2new[new2old[k]] == k
  }

  function NewToOld(es: seq<GnuHash.Entry>): (r: seq<nat>)
    ensures |r| == |es|
  {
    seq(|es|, k requires 0 <= k < |es| => es[k].oldPos)
  }

  lemma UnsortedDistinct(hashes: seq<u32>, nbuckets: nat)
    requires nbuckets > 0
    ensures Sorting.NoDuplicates(GnuHash.Unsorted(hashes, nbuckets))
  {
    var us := GnuHash.Unsorted(hashes, nbuckets);
    forall i, j | 0 <= i < j < |us| ensures us[i] != us[j] {
      assert us[i].oldPos == i && us[j].oldPos == j;
    }
  }

  /** Where the symbol that was at `p` is in the sorted entries. */
  lemma EntryOf(hashes: seq<u32>, nbuckets: nat, p: nat) returns (k: nat)
    requires nbuckets > 0 && p < |hashes|
    ensures var es := GnuHash.Entries(hashes, nbuckets);
            k < |es| && es[k].oldPos == p && es[k].hash == hashes[p]
  {
    var us, es := GnuHash.Unsorted(hashes, nbuckets), GnuHash.Entries(hashes, nbuckets);
    GnuHash.EntriesGrouped(hashes, nbuckets);
    Sorting.PermutationMembers(es, us, us[p]);
    k :| 0 <= k < |es| && es[k] == us[p];
  }

  /** Each sorted entry is some symbol's. */
  lemma EntryFrom(hashes: seq<u32>, nbuckets: nat, k: nat)
    requires nbuckets > 0 && k < |hashes|
    ensures var e := GnuHash.Entries(hashes, nbuckets)[k];
            e.oldPos < |hashes| && e.hash == hashes[e.oldPos]
  {
    var us, es := GnuHash.Unsorted(hashes, nbuckets), GnuHash.Entries(hashes, nbuckets);
    GnuHash.EntriesGrouped(hashes, nbuckets);
    Sorting.PermutationMembers(es, us, es[k]);
  }

  lemma SamePlace(hashes: seq<u32>, nbuckets: nat, i: nat, j: nat)
    requires nbuckets > 0 && i < |hashes| && j < |hashes|
    requires var es := GnuHash.Entries(hashes, nbuckets); es[i].oldPos == es[j].oldPos
    ensures i == j
  {
    var us, es := GnuHash.Unsorted(hashes, nbuckets), GnuHash.Entries(hashes, nbuckets);
    GnuHash.EntriesGrouped(hashes, nbuckets);
    UnsortedDistinct(hashes, nbuckets);
    Sorting.PermutationNoDuplicates(es, us);
    Sorting.PermutationMembers(es, us, es[i]);
    Sorting.PermutationMembers(es, us, es[j]);
    assert es[i] == es[j];
  }

  /** The index loop fills two arrays that are inverse to each other. */
  method Positions(hashes: seq<u32>, nbuckets: nat) returns (old2new: seq<nat>, new2old: seq<nat>)
    requires nbuckets > 0
    ensures new2old == NewToOld(GnuHash.Entries(hashes, nbuckets)) && |new2old| == |hashes|
    ensures Inverse(old2new, new2old)
  {
    var es := GnuHash.Entries(hashes, nbuckets);
    var n := |es|;
    var to, from := new nat[n](_ => 0), new nat[n](_ => 0);
    for k := 0 to n
      invariant forall j :: 0 <= j < k ==> from[j] == es[j].oldPos && es[j].oldPos < n && to[es[j].oldPos] == j
      invariant forall p :: 0 <= p < n ==> to[p] < n
    {
      EntryFrom(hashes, nbuckets, k);
      forall j | 0 <= j < k ensures es[j].oldPos != es[k].oldPos {
        if es[j].oldPos == es[k].oldPos {
          SamePlace(hashes, nbuckets, j, k);
        }
      }
      to[es[k].oldPos] := k;
      from[k] := es[k].oldPos;
    }
    old2new, new2old := to[..], from[..];
    forall p | 0 <= p < n ensures new2old[old2new[p]] == p {
      var k := EntryOf(hashes, nbuckets, p);
    }
  }

  // ---- Records ----

  /** Record `k` of a table of `stride`-byte records. */
  function Record(data: seq<byte>, stride: nat, k: nat): (r: seq<byte>)
    requires Span(k, stride) + stride <= |data|
    ensures |r| == stride
  {
    data[Span(k, stride)..Span(k, stride) + stride]
  }

  /** The `n` records from byte `base` on. */
  function Records(data: seq<byte>, base: nat, stride: nat, n: nat): (r: seq<seq<byte>>)
    requires base + Span(n, stride) <= |data|
    ensures |r| == n && AllWide(r, stride)
  {
    seq(n, k requires 0 <= k < n => Slot(data, base, stride, n, k))
  }

  function Slot(data: seq<byte>, base: nat, stride: nat, n: nat, k: nat): (r: seq<byte>)
    requires base + Span(n, stride) <= |data| && k < n
    ensures |r| == stride
  {
    SpanBounds(k, n, stride);
    data[base + Span(k, stride)..base + Span(k, stride) + stride]
  }

  /** Bytes split into head, records and tail. */
  lemma {:induction false} RecordsJoin(data: seq<byte>, base: nat, stride: nat, n: nat)
    requires base + Span(n, stride) <= |data|
    ensures Join(Records(data, base, stride, n)) == data[base..base + Span(n, stride)]
  {
    if n > 0 {
      RecordsJoin(data, base, stride, n - 1);
      assert Records(data, base, stride, n)[..n - 1] == Records(data, base, stride, n - 1);
      assert data[base..base + Span(n, stride)]
          == data[base..base + Span(n - 1, stride)] + data[base + Span(n - 1, stride)..base + Span(n, stride)];
    }
  }

  function Permuted(cs: seq<seq<byte>>, new2old: seq<nat>): (r: seq<seq<byte>>)
    requires |cs| == |new2old| && forall k :: 0 <= k < |new2old| ==> new2old[k] < |cs|
    ensures |r| == |cs|
  {
    seq(|cs|, k requires 0 <= k < |cs| => cs[new2old[k]])
  }

  /** The table after the reorder: record `k` is the one that was at `new2old[k]`. */
  ghost function Reordered(data: seq<byte>, base: nat, stride: nat, new2old: seq<nat>): (r: seq<byte>)
    requires base + Span(|new2old|, stride) <= |data|
    requires forall k :: 0 <= k < |new2old| ==> new2old[k] < |new2old|
    ensures |r| == |data| && r[..base] == data[..base]
  {
    var cs := Permuted(Records(data, base, stride, |new2old|), new2old);
    JoinLength(cs, stride);
    data[..base] + Join(cs) + data[base + Span(|new2old|, stride)..]
  }

  /** `reorder_records`, in place. */
  method ReorderRecords(a: array<byte>, base: nat, stride: nat, old2new: seq<nat>, ghost new2old: seq<nat>)
    requires Inverse(old2new, new2old) && base + Span(|old2new|, stride) <= a.Length
    modifies a
    ensures a[..] == Reordered(old(a[..]), base, stride, new2old)
  {
    var n := |old2new|;
    var region := Records(a[..], base, stride, n);
    ghost var before, after, cs := a[..base], a[base + Span(n, stride)..], region;
    RecordsBetween(a[..], base, stride, n);
    for p := 0 to n
      invariant |cs| == n && IsChunks(a[..], before, cs, stride, after)
      invariant forall q :: 0 <= q < p ==> cs[old2new[q]] == region[q]
    {
      StoreChunk(a, base, stride, old2new[p], region[p], before, cs, after);
      forall q | 0 <= q < p ensures old2new[q] != old2new[p] {
        assert new2old[old2new[q]] == q && new2old[old2new[p]] == p;
      }
      cs := cs[old2new[p] := region[p]];
    }
    assert cs == Permuted(region, new2old) by {
      forall k | 0 <= k < n ensures cs[k] == region[new2old[k]] {
        assert old2new[new2old[k]] == k;
      }
    }
  }

  lemma RecordsBetween(s: seq<byte>, base: nat, stride: nat, n: nat)
    requires base + Span(n, stride) <= |s|
    ensures IsChunks(s, s[..base], Records(s, base, stride, n), stride, s[base + Span(n, stride)..])
  {
    RecordsJoin(s, base, stride, n);
    GnuTable.ThreeParts(s, base, s[base..base + Span(n, stride)]);
  }

  /** The old index of the record now at `k`, counting from the table's start. */
  function OldIndex(symndx: nat, new2old: seq<nat>, k: nat): nat
  {
    if symndx <= k < symndx + |new2old| then symndx + new2old[k - symndx] else k
  }

  lemma {:induction false} SpanAdd(a: nat, b: nat, w: nat)
    ensures Span(a + b, w) == Span(a, w) + Span(b, w)
  {
    if b > 0 {
      SpanAdd(a, b - 1, w);
    }
  }

  /** After a reorder of the records from `symndx` on, every record is its old one. */
  lemma RecordMoved(data: seq<byte>, stride: nat, symndx: nat, new2old: seq<nat>, k: nat)
    requires Span(symndx, stride) + Span(|new2old|, stride) <= |data| && k < symndx + |new2old|
    requires forall j :: 0 <= j < |new2old| ==> new2old[j] < |new2old|
    ensures Span(k, stride) + stride <= |data| && Span(OldIndex(symndx, new2old, k), stride) + stride <= |data|
    ensures Record(Reordered(data, Span(symndx, stride), stride, new2old), stride, k)
         == Record(data, stride, OldIndex(symndx, new2old, k))
  {
    var n := |new2old|;
    SpanAdd(symndx, n, stride);
    SpanBounds(k, symndx + n, stride);
    SpanBounds(OldIndex(symndx, new2old, k), symndx + n, stride);
    if k < symndx {
      RecordKept(data, stride, symndx, new2old, k);
    } else {
      RecordPermuted(data, stride, symndx, new2old, k - symndx);
    }
  }

  lemma RecordKept(data: seq<byte>, stride: nat, symndx: nat, new2old: seq<nat>, k: nat)
    requires Span(symndx, stride) + Span(|new2old|, stride) <= |data| && k < symndx
    requires Span(k, stride) + stride <= |data|
    requires forall j :: 0 <= j < |new2old| ==> new2old[j] < |new2old|
    ensures Record(Reordered(data, Span(symndx, stride), stride, new2old), stride, k) == Record(data, stride, k)
  {
    SpanBounds(k, symndx, stride);
    SameRecord(Reordered(data, Span(symndx, stride), stride, new2old), data, Span(symndx, stride), stride, k);
  }

  lemma RecordPermuted(data: seq<byte>, stride: nat, symndx: nat, new2old: seq<nat>, k: nat)
    requires Span(symndx, stride) + Span(|new2old|, stride) <= |data| && k < |new2old|
    requires forall j :: 0 <= j < |new2old| ==> new2old[j] < |new2old|
    ensures Span(symndx + k, stride) + stride <= |data| && Span(symndx + new2old[k], stride) + stride <= |data|
    ensures Record(Reordered(data, Span(symndx, stride), stride, new2old), stride, symndx + k)
         == Record(data, stride, symndx + new2old[k])
  {
    var n, base := |new2old|, Span(symndx, stride);
    ReorderedSlot(data, base, stride, new2old, k);
    SpanBounds(k, n, stride);
    SpanBounds(new2old[k], n, stride);
    SpanAdd(symndx, k, stride);
    SpanAdd(symndx, new2old[k], stride);
  }

  /** Slot `k` of the reordered area holds the old slot `new2old[k]`. */
  lemma ReorderedSlot(data: seq<byte>, base: nat, stride: nat, new2old: seq<nat>, k: nat)
    requires base + Span(|new2old|, stride) <= |data| && k < |new2old|
    requires forall j :: 0 <= j < |new2old| ==> new2old[j] < |new2old|
    ensures base + Span(k, stride) + stride <= |data|
    ensures Reordered(data, base, stride, new2old)[base + Span(k, stride)..base + Span(k, stride) + stride]
         == Slot(data, base, stride, |new2old|, new2old[k])
  {
    var n := |new2old|;
    SpanBounds(k, n, stride);
    var cs := Records(data, base, stride, n);
    assert Permuted(cs, new2old)[k] == Slot(data, base, stride, n, new2old[k]);
    ChunkBytes(data[..base], Permuted(cs, new2old), data[base + Span(n, stride)..], stride, k);
  }

  lemma SameRecord(r: seq<byte>, s: seq<byte>, n: nat, stride: nat, k: nat)
    requires Span(k, stride) + stride <= n <= |r| && n <= |s| && r[..n] == s[..n]
    ensures Record(r, stride, k) == Record(s, stride, k)
  {
    assert Record(r, stride, k) == r[..n][Span(k, stride)..Span(k, stride) + stride];
    assert Record(s, stride, k) == s[..n][Span(k, stride)..Span(k, stride) + stride];
  }
}
