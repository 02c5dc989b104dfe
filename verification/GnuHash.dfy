/** The `.gnu.hash` table: what `rebuild_gnu_hash` (src/symbols.rs) fills in and
    how a loader searches it. */
module GnuHash {
  import opened Bytes
  import opened Words
  import Sorting
  import Align

  // ---- The hash function ----

  /** One step of the wrapping 32-bit accumulation. */
  function Mix(h: u32, c: byte): u32
  {
    (h * 33 % 0x1_0000_0000 + c) % 0x1_0000_0000
  }

  function HashFrom(h: u32, name: seq<byte>): u32
    decreases |name|
  {
    if name == [] then h else HashFrom(Mix(h, name[0]), name[1..])
  }

  function Hash(name: seq<byte>): u32
  {
    HashFrom(5381, name)
  }

  /** Horner's polynomial in 33, without wrap-around. */
  function Polynomial(h: nat, name: seq<byte>): nat
    decreases |name|
  {
    if name == [] then h else Polynomial(h * 33 + name[0], name[1..])
  }

  lemma MixMod(h: nat, c: byte)
    ensures Mix(h % 0x1_0000_0000, c) == (h * 33 + c) % 0x1_0000_0000
  {
    var q, r := h / 0x1_0000_0000, h % 0x1_0000_0000;
    var q', r' := r * 33 / 0x1_0000_0000, r * 33 % 0x1_0000_0000;
    Align.ModOfMultiple(33 * q + q', 0x1_0000_0000);
    Align.AddMultiples(r' + c, (33 * q + q') * 0x1_0000_0000, 0x1_0000_0000);
    assert h * 33 + c == (r' + c) + (33 * q + q') * 0x1_0000_0000;
  }

  /** The wrapping accumulation computes the polynomial modulo 2^32. */
  lemma {:induction false} HashFromPolynomial(r: u32, h: nat, name: seq<byte>)
    requires r == h % 0x1_0000_0000
    ensures HashFrom(r, name) == Polynomial(h, name) % 0x1_0000_0000
    decreases |name|
  {
    if name != [] {
      MixMod(h, name[0]);
      HashFromPolynomial(Mix(r, name[0]), h * 33 + name[0], name[1..]);
    }
  }

  lemma HashPolynomial(name: seq<byte>)
    ensures Hash(name) == Polynomial(5381, name) % 0x1_0000_0000
  {
    HashFromPolynomial(5381, 5381, name);
  }

  // ---- The table ----

  /** A hashed symbol's hash, bucket and pre-sort position. */
  datatype Entry = Entry(hash: u32, bucket: nat, oldPos: nat)

  /** The table's header words and its bloom word width in bits. */
  datatype Header = Header(nbuckets: nat, symndx: nat, maskwords: nat, shift2: nat, wordbits: nat)

  /** Bloom filter, buckets and chain as the loader reads them. */
  datatype Table = Table(bloom: seq<nat>, buckets: seq<nat>, chain: seq<nat>)

  function Bucket(e: Entry): int
  {
    e.bucket
  }

  function Unsorted(hashes: seq<u32>, nbuckets: nat): (r: seq<Entry>)
    requires nbuckets > 0
    ensures |r| == |hashes|
  {
    seq(|hashes|, p requires 0 <= p < |hashes| => Entry(hashes[p], hashes[p] % nbuckets, p))
  }

  /** The hashed symbols grouped by bucket. */
  function Entries(hashes: seq<u32>, nbuckets: nat): (r: seq<Entry>)
    requires nbuckets > 0
    ensures |r| == |hashes|
  {
    Sorting.Sort(Unsorted(hashes, nbuckets), Bucket)
  }

  ghost predicate Grouped(es: seq<Entry>, nbuckets: nat)
    requires nbuckets > 0
  {
    && (forall i, j :: 0 <= i < j < |es| ==> es[i].bucket <= es[j].bucket)
    && forall i :: 0 <= i < |es| ==> es[i].bucket == es[i].hash % nbuckets
  }

  lemma EntriesGrouped(hashes: seq<u32>, nbuckets: nat)
    requires nbuckets > 0
    ensures Grouped(Entries(hashes, nbuckets), nbuckets)
    ensures multiset(Entries(hashes, nbuckets)) == multiset(Unsorted(hashes, nbuckets))
  {
    var us, es := Unsorted(hashes, nbuckets), Entries(hashes, nbuckets);
    Sorting.SortSorted(us, Bucket);
    forall i | 0 <= i < |es| ensures es[i].bucket == es[i].hash % nbuckets {
      Sorting.PermutationMembers(es, us, es[i]);
    }
    forall i, j | 0 <= i < j < |es| ensures es[i].bucket <= es[j].bucket {
      assert Bucket(es[i]) <= Bucket(es[j]);
    }
  }

  // ---- Filling ----

  function BloomIndex(h: Header, hash: u32): nat
    requires h.maskwords > 0 && h.wordbits > 0
  {
    hash / h.wordbits % h.maskwords
  }

  function BloomSet(h: Header, word: nat, hash: u32): nat
    requires h.wordbits > 0
  {
    SetBit(SetBit(word, hash % h.wordbits), hash / Pow2(h.shift2) % h.wordbits)
  }

  function Bloom(h: Header, es: seq<Entry>): (b: seq<nat>)
    requires h.wordbits > 0 && (es != [] ==> h.maskwords > 0)
    ensures |b| == h.maskwords
  {
    if es == [] then Zeros(h.maskwords)
    else
      var b, e := Bloom(h, es[..|es| - 1]), es[|es| - 1];
      var i := BloomIndex(h, e.hash);
      b[i := BloomSet(h, b[i], e.hash)]
  }

  /** First index of each bucket: a zero word is still free. */
  function Buckets(h: Header, es: seq<Entry>): (b: seq<nat>)
    requires forall i :: 0 <= i < |es| ==> es[i].bucket < h.nbuckets
    ensures |b| == h.nbuckets
  {
    if es == [] then Zeros(h.nbuckets)
    else
      var n := |es| - 1;
      var b := Buckets(h, es[..n]);
      if b[es[n].bucket] == 0 then b[es[n].bucket := n + h.symndx] else b
  }

  /** The hash with its low bit telling whether the bucket's run ends here. */
  function ChainWord(es: seq<Entry>, i: nat): nat
    requires i < |es|
  {
    var last := i + 1 == |es| || es[i + 1].bucket != es[i].bucket;
    es[i].hash / 2 * 2 + if last then 1 else 0
  }

  function Chain(es: seq<Entry>): (c: seq<nat>)
    ensures |c| == |es|
  {
    seq(|es|, i requires 0 <= i < |es| => ChainWord(es, i))
  }

  function Filled(h: Header, es: seq<Entry>): Table
    requires h.wordbits > 0 && (es != [] ==> h.maskwords > 0)
    requires forall i :: 0 <= i < |es| ==> es[i].bucket < h.nbuckets
  {
    Table(Bloom(h, es), Buckets(h, es), Chain(es))
  }

  // ---- The loader's search ----

  datatype Found = At(index: nat) | Absent | Escaped

  /** Follow the chain from symbol `i` until a match or a low bit; leaving the
      chain's array is `Escaped`. */
  function Walk(chain: seq<nat>, symndx: nat, hash: u32, matches: nat -> bool, i: nat): Found
    decreases symndx + |chain| - i
  {
    if i < symndx || i >= symndx + |chain| then Escaped
    else
      var c := chain[i - symndx];
      if c / 2 == hash / 2 && matches(i) then At(i)
      else if c % 2 == 1 then Absent
      else Walk(chain, symndx, hash, matches, i + 1)
  }

  /** The word the loader tests: it masks with one less than the number of words. */
  function MaskedIndex(h: Header, hash: u32): (i: nat)
    requires h.maskwords > 0 && h.wordbits > 0
    ensures i < h.maskwords
  {
    AndBounded(hash / h.wordbits, h.maskwords - 1);
    And(hash / h.wordbits, h.maskwords - 1)
  }

  predicate WordPasses(h: Header, word: nat, hash: u32)
    requires h.wordbits > 0
  {
    HasBit(word, hash % h.wordbits) && HasBit(word, hash / Pow2(h.shift2) % h.wordbits)
  }

  predicate BloomPasses(h: Header, bloom: seq<nat>, hash: u32)
    requires |bloom| == h.maskwords > 0 && h.wordbits > 0
  {
    WordPasses(h, bloom[BloomIndex(h, hash)], hash)
  }

  /** The GNU C library's search: bloom word, bucket, chain. */
  function Lookup(h: Header, t: Table, hash: u32, matches: nat -> bool): Found
    requires |t.bloom| == h.maskwords > 0 && |t.buckets| == h.nbuckets > 0 && h.wordbits > 0
  {
    LookupIn(h, t, t.bloom[MaskedIndex(h, hash)], hash, matches)
  }

  /** The search once the bloom word to test is chosen. */
  function LookupIn(h: Header, t: Table, word: nat, hash: u32, matches: nat -> bool): Found
    requires |t.buckets| == h.nbuckets > 0 && h.wordbits > 0
  {
    if !WordPasses(h, word, hash) then Absent
    else
      var first := t.buckets[hash % h.nbuckets];
      if first == 0 then Absent else Walk(t.chain, h.symndx, hash, matches, first)
  }

  // ---- Masking and taking the remainder ----

  /** Bitwise and. */
  function And(a: nat, b: nat): nat
    decreases a
  {
    if a == 0 then 0 else 2 * And(a / 2, b / 2) + (a % 2) * (b % 2)
  }

  lemma {:induction false} AndBounded(a: nat, b: nat)
    ensures And(a, b) <= b
    decreases a
  {
    if a > 0 {
      AndBounded(a / 2, b / 2);
    }
  }

  /** Masking with a power of two less one is taking the remainder. */
  lemma {:induction false} MaskIsRemainder(x: nat, m: nat)
    requires Align.PowerOfTwo(m)
    ensures And(x, m - 1) == x % m
    decreases m
  {
    if m == 1 {
      AndBounded(x, 0);
    } else {
      var k := m / 2;
      assert (m - 1) / 2 == k - 1 && (m - 1) % 2 == 1;
      MaskIsRemainder(x / 2, k);
      HalfRemainder(x, k);
    }
  }

  lemma HalfRemainder(x: nat, k: nat)
    requires k > 0
    ensures x % (2 * k) == 2 * (x / 2 % k) + x % 2
  {
    var q, r := x / 2 / k, x / 2 % k;
    Align.DivModFacts(x / 2, k);
    Doubled(q, k);
    assert x == q * (2 * k) + (2 * r + x % 2);
    Align.ModOfMultiple(q, 2 * k);
    Align.AddMultiples(2 * r + x % 2, q * (2 * k), 2 * k);
    Small(2 * r + x % 2, 2 * k);
  }

  lemma Doubled(q: nat, k: nat)
    ensures 2 * (q * k) == q * (2 * k)
  {
  }

  lemma Small(v: nat, d: nat)
    requires v < d
    ensures v % d == v
  {
  }

  /** A number below `m` that masking changes, unless `m` is a power of two. */
  lemma {:induction false} MaskedBit(m: nat) returns (y: nat)
    requires m > 0 && !Align.PowerOfTwo(m)
    ensures y < m && And(y, m - 1) != y
    decreases m
  {
    var half := (m - 1) / 2;
    if m % 2 == 1 {
      y := 1;
    } else {
      assert m / 2 - 1 == half;
      var z := MaskedBit(m / 2);
      y := 2 * z;
    }
  }

  /** A hash that the builder files under one bloom word and the loader seeks in another. */
  lemma MaskedAside(h: Header) returns (hash: u32)
    requires h.wordbits > 0 && h.maskwords > 0 && !Align.PowerOfTwo(h.maskwords)
    requires h.maskwords * h.wordbits <= 0x1_0000_0000
    ensures MaskedIndex(h, hash) != BloomIndex(h, hash)
  {
    var y := MaskedBit(h.maskwords);
    Align.SlotInside(y, h.maskwords, h.wordbits);
    hash := y * h.wordbits;
    QuotientBack(y, h.wordbits);
    Small(y, h.maskwords);
  }

  lemma QuotientBack(y: nat, d: nat)
    requires d > 0
    ensures y * d / d == y
  {
    Align.ModOfMultiple(y, d);
    Align.DivModFacts(y * d, d);
    SameQuotient(y * d / d, y, d);
  }

  lemma SameQuotient(a: nat, b: nat, d: nat)
    requires d > 0 && a * d == b * d
    ensures a == b
  {
    if a < b {
      Align.MulMono(a + 1, b, d);
    } else if b < a {
      Align.MulMono(b + 1, a, d);
    }
  }

  lemma BloomOfOne(h: Header, e: Entry, i: nat)
    requires h.wordbits > 0 && i < h.maskwords && i != BloomIndex(h, e.hash)
    ensures Bloom(h, [e])[i] == 0
  {
    assert [e][..0] == [];
  }

  /** The loader's filter test passes entry `k` of a table the builder fills. */
  ghost predicate FilterPasses(h: Header, es: seq<Entry>, k: nat)
    requires h.wordbits > 0 && h.maskwords > 0
  {
    k < |es| ==> WordPasses(h, Bloom(h, es)[MaskedIndex(h, es[k].hash)], es[k].hash)
  }

  /** The loader passes every hashed symbol of every table the builder fills if and
      only if the number of bloom words is a power of two. */
  lemma FilterCoversIff(h: Header)
    requires h.wordbits > 0 && h.maskwords > 0 && h.maskwords * h.wordbits <= 0x1_0000_0000
    ensures Align.PowerOfTwo(h.maskwords) <==> forall es: seq<Entry>, k: nat :: FilterPasses(h, es, k)
  {
    if Align.PowerOfTwo(h.maskwords) {
      forall es: seq<Entry>, k: nat ensures FilterPasses(h, es, k) {
        if k < |es| {
          MaskIsRemainder(es[k].hash / h.wordbits, h.maskwords);
          BloomCovers(h, es, k);
        }
      }
    } else {
      var hash := MaskedAside(h);
      DeniedAlone(h, hash);
    }
  }

  lemma {:induction false} ZeroHasNoBit(k: nat)
    ensures !HasBit(0, k)
  {
    if k > 0 {
      ZeroHasNoBit(k - 1);
    }
  }

  lemma DeniedAlone(h: Header, hash: u32)
    requires h.wordbits > 0 && h.maskwords > 0 && MaskedIndex(h, hash) != BloomIndex(h, hash)
    ensures !FilterPasses(h, [Entry(hash, 0, 0)], 0)
  {
    var es := [Entry(hash, 0, 0)];
    BloomOfOne(h, es[0], MaskedIndex(h, hash));
    ZeroHasNoBit(hash % h.wordbits);
  }

  /** With three bloom words the loader denies a symbol the table holds. */
  lemma ThreeWordsDeny()
    ensures var h, es := Header(1, 1, 3, 6, 64), Entries([Hash([97])], 1);
            Lookup(h, Filled(h, es), Hash([97]), Named(1, [[97]], [97])) == Absent
  {
    var h, us := Header(1, 1, 3, 6, 64), Unsorted([Hash([97])], 1);
    assert us[..0] == [] && Sorting.Sort(us[..0], Bucket) == [];
    assert Entries([Hash([97])], 1) == [us[0]];
    HashOfA();
    assert And(2776, 2) == 0;
    BloomOfOne(h, us[0], 0);
  }

  lemma HashOfA()
    ensures Hash([97]) == 177670
  {
    assert [97][1..] == [];
    assert HashFrom(Mix(5381, 97), []) == 177670;
  }

  // ---- The bloom filter has no false negatives ----

  lemma {:induction false} BloomCovers(h: Header, es: seq<Entry>, k: nat)
    requires h.wordbits > 0 && h.maskwords > 0 && k < |es|
    ensures BloomPasses(h, Bloom(h, es), es[k].hash)
  {
    var n := |es| - 1;
    if k < n {
      BloomCovers(h, es[..n], k);
    }
    BloomStep(h, Bloom(h, es[..n]), es[n].hash, es[k].hash);
  }

  /** Setting one hash's bits passes that hash and keeps passing every other. */
  lemma BloomStep(h: Header, b: seq<nat>, hash: u32, other: u32)
    requires h.wordbits > 0 && |b| == h.maskwords > 0
    requires other == hash || BloomPasses(h, b, other)
    ensures var i := BloomIndex(h, hash); BloomPasses(h, b[i := BloomSet(h, b[i], hash)], other)
  {
    var i, j := BloomIndex(h, hash), BloomIndex(h, other);
    var k, l := hash % h.wordbits, hash / Pow2(h.shift2) % h.wordbits;
    var k', l' := other % h.wordbits, other / Pow2(h.shift2) % h.wordbits;
    if i == j {
      SetBitHas(b[i], k, k');
      SetBitHas(b[i], k, l');
      SetBitHas(SetBit(b[i], k), l, k');
      SetBitHas(SetBit(b[i], k), l, l');
    }
  }

  // ---- Each bucket points at the start of its run ----

  lemma {:induction false} BucketStart(h: Header, es: seq<Entry>, b: nat)
    requires forall i :: 0 <= i < |es| ==> es[i].bucket < h.nbuckets
    requires b < h.nbuckets && h.symndx > 0
    ensures var first := Buckets(h, es)[b];
            && (first == 0 ==> forall i :: 0 <= i < |es| ==> es[i].bucket != b)
            && (first != 0 ==> h.symndx <= first < h.symndx + |es| && es[first - h.symndx].bucket == b
                               && forall i :: 0 <= i < first - h.symndx ==> es[i].bucket != b)
  {
    if es != [] {
      BucketStart(h, es[..|es| - 1], b);
    }
  }

  /** From any member of a bucket's run, the walk inspects exactly the rest of the
      run: it never escapes, and it finds the first match there if there is one. */
  lemma {:induction false} WalkRun(h: Header, es: seq<Entry>, hash: u32, matches: nat -> bool, i: nat)
    requires h.nbuckets > 0 && Grouped(es, h.nbuckets) && i < |es|
    ensures match Walk(Chain(es), h.symndx, hash, matches, h.symndx + i)
            case Escaped => false
            case At(s) => && h.symndx + i <= s < h.symndx + |es| && matches(s)
                          && es[s - h.symndx].bucket == es[i].bucket && es[s - h.symndx].hash / 2 == hash / 2
                          && NoMatch(h, es, hash, matches, i, s - h.symndx, es[i].bucket)
            case Absent => NoMatch(h, es, hash, matches, i, |es|, es[i].bucket)
    decreases |es| - i
  {
    assert Chain(es)[i] == ChainWord(es, i);
    if (es[i].hash / 2 != hash / 2 || !matches(h.symndx + i)) && ChainWord(es, i) % 2 == 0 {
      WalkRun(h, es, hash, matches, i + 1);
    }
  }

  /** No entry of the bucket in `[lo, hi)` matches. */
  ghost predicate NoMatch(h: Header, es: seq<Entry>, hash: u32, matches: nat -> bool, lo: nat, hi: nat, bucket: nat)
    requires hi <= |es|
  {
    forall j :: lo <= j < hi && es[j].bucket == bucket ==> es[j].hash / 2 != hash / 2 || !matches(h.symndx + j)
  }

  // ---- The loader's search is exact ----

  /** `names[j]` is the name of the symbol at `symndx + j`. */
  ghost predicate Hashes(es: seq<Entry>, names: seq<seq<byte>>)
  {
    |names| == |es| && forall j :: 0 <= j < |es| ==> es[j].hash == Hash(names[j])
  }

  function Named(symndx: nat, names: seq<seq<byte>>, name: seq<byte>): nat -> bool
  {
    i => i >= symndx && i - symndx < |names| && names[i - symndx] == name
  }

  /** The right answer to a search: the first hashed symbol of that name, or `Absent`. */
  ghost predicate FirstNamed(h: Header, names: seq<seq<byte>>, name: seq<byte>, found: Found)
  {
    match found
    case Escaped => false
    case Absent => name !in names
    case At(s) => && h.symndx <= s < h.symndx + |names| && names[s - h.symndx] == name
                  && forall j :: 0 <= j < s - h.symndx ==> names[j] != name
  }

  /** The search for a name ends inside the bucket's run, and finds the first hashed
      symbol of that name exactly when there is one; masking finds the right bloom
      word when their number is a power of two. */
  lemma LookupExact(h: Header, es: seq<Entry>, names: seq<seq<byte>>, name: seq<byte>)
    requires h.nbuckets > 0 && Align.PowerOfTwo(h.maskwords) && h.wordbits > 0 && h.symndx > 0
    requires Grouped(es, h.nbuckets) && Hashes(es, names)
    ensures FirstNamed(h, names, name, Lookup(h, Filled(h, es), Hash(name), Named(h.symndx, names, name)))
  {
    MaskIsRemainder(Hash(name) / h.wordbits, h.maskwords);
    RemainderLookupExact(h, es, names, name);
  }

  /** A loader that takes the remainder is exact for any number of bloom words. */
  lemma RemainderLookupExact(h: Header, es: seq<Entry>, names: seq<seq<byte>>, name: seq<byte>)
    requires h.nbuckets > 0 && h.maskwords > 0 && h.wordbits > 0 && h.symndx > 0
    requires Grouped(es, h.nbuckets) && Hashes(es, names)
    ensures var t := Filled(h, es);
            FirstNamed(h, names, name,
                       LookupIn(h, t, t.bloom[BloomIndex(h, Hash(name))], Hash(name), Named(h.symndx, names, name)))
  {
    var hash := Hash(name);
    BucketStart(h, es, hash % h.nbuckets);
    if !BloomPasses(h, Bloom(h, es), hash) {
      BloomRejects(h, es, names, name);
    } else if Buckets(h, es)[hash % h.nbuckets] != 0 {
      WalkExact(h, es, names, name, Buckets(h, es)[hash % h.nbuckets] - h.symndx);
    }
  }

  lemma BloomRejects(h: Header, es: seq<Entry>, names: seq<seq<byte>>, name: seq<byte>)
    requires h.maskwords > 0 && h.wordbits > 0 && Hashes(es, names)
    requires !BloomPasses(h, Bloom(h, es), Hash(name))
    ensures name !in names
  {
    forall j | 0 <= j < |names| ensures names[j] != name {
      BloomCovers(h, es, j);
    }
  }

  lemma WalkExact(h: Header, es: seq<Entry>, names: seq<seq<byte>>, name: seq<byte>, first: nat)
    requires h.nbuckets > 0 && Grouped(es, h.nbuckets) && Hashes(es, names)
    requires first < |es| && es[first].bucket == Hash(name) % h.nbuckets
    requires forall i :: 0 <= i < first ==> es[i].bucket != es[first].bucket
    ensures FirstNamed(h, names, name,
                       Walk(Chain(es), h.symndx, Hash(name), Named(h.symndx, names, name), h.symndx + first))
  {
    var matches := Named(h.symndx, names, name);
    WalkRun(h, es, Hash(name), matches, first);
    match Walk(Chain(es), h.symndx, Hash(name), matches, h.symndx + first) {
      case Escaped =>
      case Absent => NotNamed(h, es, names, name, first, |es|);
      case At(s) => NotNamed(h, es, names, name, first, s - h.symndx);
    }
  }

  lemma NotNamed(h: Header, es: seq<Entry>, names: seq<seq<byte>>, name: seq<byte>, first: nat, end: nat)
    requires h.nbuckets > 0 && Grouped(es, h.nbuckets) && Hashes(es, names) && first < |es| && end <= |es|
    requires es[first].bucket == Hash(name) % h.nbuckets
    requires forall i :: 0 <= i < first ==> es[i].bucket != es[first].bucket
    requires NoMatch(h, es, Hash(name), Named(h.symndx, names, name), first, end, es[first].bucket)
    ensures forall j :: 0 <= j < end ==> names[j] != name
  {
    NamedInRun(h, es, names, name, first);
  }

  lemma NamedInRun(h: Header, es: seq<Entry>, names: seq<seq<byte>>, name: seq<byte>, first: nat)
    requires h.nbuckets > 0 && Grouped(es, h.nbuckets) && Hashes(es, names) && first < |es|
    requires es[first].bucket == Hash(name) % h.nbuckets
    requires forall i :: 0 <= i < first ==> es[i].bucket != es[first].bucket
    ensures forall j :: 0 <= j < |names| && names[j] == name ==>
              && first <= j && es[j].bucket == es[first].bucket && es[j].hash == Hash(name)
              && Named(h.symndx, names, name)(h.symndx + j)
  {
  }

  // ---- Why the first hashed symbol must not be symbol 0 ----

  /** Whether the walk from its bucket word passes entry `i`. */
  ghost predicate Reaches(h: Header, es: seq<Entry>, i: nat)
    requires forall k :: 0 <= k < |es| ==> es[k].bucket < h.nbuckets
    requires i < |es|
  {
    var first := Buckets(h, es)[es[i].bucket];
    first != 0 && h.symndx <= first <= h.symndx + i
    && forall k :: first - h.symndx <= k <= i ==> es[k].bucket == es[i].bucket
  }

  /** Every hashed symbol is reachable from its bucket exactly when none of them
      is symbol 0, whose index also marks an empty bucket. */
  lemma ReachableIff(h: Header, es: seq<Entry>)
    requires h.nbuckets > 0 && Grouped(es, h.nbuckets)
    ensures (forall i :: 0 <= i < |es| ==> Reaches(h, es, i)) <==> h.symndx > 0 || es == []
  {
    if h.symndx > 0 {
      forall i | 0 <= i < |es| ensures Reaches(h, es, i) {
        BucketStart(h, es, es[i].bucket);
      }
    } else if es != [] {
      assert !Reaches(h, es, 0);
    }
  }

  /** With `symndx` 0, a table holding one symbol denies having it. */
  lemma SymbolZeroUnreachable(name: seq<byte>)
    ensures var h, es := Header(1, 0, 1, 0, 32), Entries([Hash(name)], 1);
            Lookup(h, Filled(h, es), Hash(name), Named(0, [name], name)) == Absent
  {
    var us := Unsorted([Hash(name)], 1);
    assert us[..0] == [] && Sorting.Sort(us[..0], Bucket) == [];
    assert Entries([Hash(name)], 1) == [us[0]] && us[0].bucket == 0;
    assert Buckets(Header(1, 0, 1, 0, 32), us)[0] == 0;
  }
}
