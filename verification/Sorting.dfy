/** Stable sorting by an integer key: what `sort_by_key` of Rust's standard
    library computes. */
module Sorting {

  ghost predicate SortedBy<T>(s: seq<T>, key: T -> int)
  {
    forall i, j :: 0 <= i < j < |s| ==> key(s[i]) <= key(s[j])
  }

  ghost predicate NoDuplicates<T>(s: seq<T>)
  {
    forall i, j :: 0 <= i < j < |s| ==> s[i] != s[j]
  }

  /** Insert `x` after every element whose key does not exceed its own. */
  function Insert<T>(s: seq<T>, x: T, key: T -> int): (r: seq<T>)
    ensures |r| == |s| + 1
  {
    if s == [] || key(s[|s| - 1]) <= key(x) then s + [x]
    else Insert(s[..|s| - 1], x, key) + [s[|s| - 1]]
  }

  function Sort<T>(s: seq<T>, key: T -> int): (r: seq<T>)
    ensures |r| == |s|
  {
    if s == [] then [] else Insert(Sort(s[..|s| - 1], key), s[|s| - 1], key)
  }

  lemma {:induction false} InsertSorted<T>(s: seq<T>, x: T, key: T -> int)
    requires SortedBy(s, key)
    ensures SortedBy(Insert(s, x, key), key)
    ensures multiset(Insert(s, x, key)) == multiset(s) + multiset{x}
  {
    if s != [] && key(s[|s| - 1]) > key(x) {
      var s', y := s[..|s| - 1], s[|s| - 1];
      assert s == s' + [y];
      InsertSorted(s', x, key);
      var r := Insert(s', x, key);
      forall i | 0 <= i < |r|
        ensures key(r[i]) <= key(y)
      {
        assert r[i] in multiset(r);
        assert r[i] == x || r[i] in s';
      }
    }
  }

  lemma {:induction false} SortSorted<T>(s: seq<T>, key: T -> int)
    ensures SortedBy(Sort(s, key), key)
    ensures multiset(Sort(s, key)) == multiset(s)
  {
    if s != [] {
      var s', x := s[..|s| - 1], s[|s| - 1];
      SortSorted(s', key);
      InsertSorted(Sort(s', key), x, key);
      assert s == s' + [x];
    }
  }

  /** Inserting into a concatenation whose left part has no larger key. */
  lemma {:induction false} InsertConcat<T>(a: seq<T>, b: seq<T>, x: T, key: T -> int)
    requires forall y :: y in a ==> key(y) <= key(x)
    ensures Insert(a + b, x, key) == a + Insert(b, x, key)
    decreases |b|
  {
    if b == [] {
      assert a + b == a;
    } else if key(b[|b| - 1]) <= key(x) {
      assert (a + b) + [x] == a + (b + [x]);
    } else {
      var b', y := b[..|b| - 1], b[|b| - 1];
      assert (a + b)[..|a + b| - 1] == a + b';
      InsertConcat(a, b', x, key);
      assert (a + Insert(b', x, key)) + [y] == a + (Insert(b', x, key) + [y]);
    }
  }

  /** Two runs that are already in order with respect to each other sort separately. */
  lemma {:induction false} SortConcat<T>(a: seq<T>, b: seq<T>, key: T -> int)
    requires forall x, y :: x in a && y in b ==> key(x) <= key(y)
    ensures Sort(a + b, key) == Sort(a, key) + Sort(b, key)
    decreases |b|
  {
    if b == [] {
      assert a + b == a;
    } else {
      var b', y := b[..|b| - 1], b[|b| - 1];
      assert (a + b)[..|a + b| - 1] == a + b';
      SortConcat(a, b', key);
      SortSorted(a, key);
      forall x | x in Sort(a, key)
        ensures key(x) <= key(y)
      {
        assert x in multiset(Sort(a, key));
        assert x in a && y in b;
      }
      InsertConcat(Sort(a, key), Sort(b', key), y, key);
    }
  }

  lemma {:induction false} SortOfSorted<T>(s: seq<T>, key: T -> int)
    requires SortedBy(s, key)
    ensures Sort(s, key) == s
  {
    if s != [] {
      var s' := s[..|s| - 1];
      SortOfSorted(s', key);
    }
  }

  ghost predicate PairwiseBy<T>(s: seq<T>, rel: (T, T) -> bool)
  {
    forall i, j :: 0 <= i < j < |s| ==> rel(s[i], s[j])
  }

  ghost predicate AllRelated<T>(s: seq<T>, x: T, rel: (T, T) -> bool)
  {
    forall t :: t in s ==> rel(t, x)
  }

  ghost predicate Symmetric<T(!new)>(rel: (T, T) -> bool)
  {
    forall x, y :: rel(x, y) == rel(y, x)
  }

  lemma PairwiseSnoc<T>(s: seq<T>, x: T, rel: (T, T) -> bool)
    ensures PairwiseBy(s + [x], rel) <==> PairwiseBy(s, rel) && AllRelated(s, x, rel)
  {
    var r := s + [x];
    if PairwiseBy(r, rel) {
      assert forall i :: 0 <= i < |s| ==> r[i] == s[i] && rel(r[i], r[|s|]);
    }
  }

  lemma AllRelatedSnoc<T>(s: seq<T>, y: T, x: T, rel: (T, T) -> bool)
    ensures AllRelated(s + [y], x, rel) <==> AllRelated(s, x, rel) && rel(y, x)
  {
    assert forall t :: t in s + [y] <==> t in s || t == y;
  }

  lemma {:induction false} InsertPairwise<T(!new)>(s: seq<T>, x: T, key: T -> int, rel: (T, T) -> bool)
    requires Symmetric(rel)
    ensures PairwiseBy(Insert(s, x, key), rel) <==> PairwiseBy(s + [x], rel)
    ensures forall z :: AllRelated(Insert(s, x, key), z, rel) <==> AllRelated(s, z, rel) && rel(x, z)
  {
    if s != [] && key(s[|s| - 1]) > key(x) {
      var s', y := s[..|s| - 1], s[|s| - 1];
      var r := Insert(s', x, key);
      assert s == s' + [y];
      InsertPairwise(s', x, key, rel);
      PairwiseSnoc(r, y, rel);
      PairwiseSnoc(s', x, rel);
      PairwiseSnoc(s', y, rel);
      PairwiseSnoc(s, x, rel);
      AllRelatedSnoc(s', y, x, rel);
      forall z ensures AllRelated(r + [y], z, rel) <==> AllRelated(s, z, rel) && rel(x, z) {
        AllRelatedSnoc(r, y, z, rel);
        AllRelatedSnoc(s', y, z, rel);
      }
    } else {
      forall z ensures AllRelated(s + [x], z, rel) <==> AllRelated(s, z, rel) && rel(x, z) {
        AllRelatedSnoc(s, x, z, rel);
      }
    }
  }

  /** A symmetric relation holds pairwise before sorting exactly when it does after. */
  lemma {:induction false} SortPairwise<T(!new)>(s: seq<T>, key: T -> int, rel: (T, T) -> bool)
    requires Symmetric(rel)
    ensures PairwiseBy(Sort(s, key), rel) <==> PairwiseBy(s, rel)
    ensures forall z :: AllRelated(Sort(s, key), z, rel) <==> AllRelated(s, z, rel)
  {
    if s != [] {
      var s', x := s[..|s| - 1], s[|s| - 1];
      var r := Sort(s', key);
      assert s == s' + [x];
      SortPairwise(s', key, rel);
      InsertPairwise(r, x, key, rel);
      PairwiseSnoc(r, x, rel);
      PairwiseSnoc(s', x, rel);
      forall z ensures AllRelated(Sort(s, key), z, rel) <==> AllRelated(s, z, rel) {
        AllRelatedSnoc(s', x, z, rel);
      }
    }
  }

  lemma PermutationMembers<T>(r: seq<T>, s: seq<T>, x: T)
    requires multiset(r) == multiset(s)
    ensures x in r <==> x in s
  {
    assert x in r <==> x in multiset(r);
    assert x in s <==> x in multiset(s);
  }

  lemma {:induction false} NoDuplicatesMultiset<T>(s: seq<T>, x: T)
    requires NoDuplicates(s)
    ensures multiset(s)[x] <= 1
  {
    if s != [] {
      var s', y := s[..|s| - 1], s[|s| - 1];
      assert s == s' + [y];
      NoDuplicatesMultiset(s', x);
      assert y !in s' by {
        assert forall i :: 0 <= i < |s'| ==> s[i] != s[|s| - 1];
      }
    }
  }

  lemma DuplicateCounted<T>(s: seq<T>, i: nat, j: nat)
    requires i < j < |s| && s[i] == s[j]
    ensures multiset(s)[s[i]] >= 2
  {
    assert s == s[..i] + [s[i]] + s[i + 1..];
    assert s[i + 1..][j - i - 1] == s[j];
    assert multiset(s) == multiset(s[..i]) + multiset{s[i]} + multiset(s[i + 1..]);
    assert s[j] in multiset(s[i + 1..]);
  }

  /** A permutation of a duplicate-free sequence is duplicate-free. */
  lemma PermutationNoDuplicates<T>(r: seq<T>, s: seq<T>)
    requires multiset(r) == multiset(s) && NoDuplicates(s)
    ensures NoDuplicates(r)
  {
    forall i, j | 0 <= i < j < |r|
      ensures r[i] != r[j]
    {
      if r[i] == r[j] {
        DuplicateCounted(r, i, j);
        NoDuplicatesMultiset(s, r[i]);
      }
    }
  }
}
