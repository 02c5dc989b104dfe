/** The `.hash` table of the System V gABI, chapter 5: what `rebuild_sysv_hash`
    (src/symbols.rs) fills in and how a loader searches it. */
module SysvHash {
  import opened Bytes
  import opened Ir
  import opened Words
  import opened Bits
  import GnuTable

  // ---- The hash function ----

  /** The top four bits folded back in and cleared. */
  function Folded(sum: nat): nat
    requires sum < 0x1_0000_0000
  {
    var g := And(sum, 0xf000_0000);
    var folded := if g != 0 then Xor(sum, g / 0x100_0000) else sum;
    And(folded, 0xffff_ffff - g % 0x1_0000_0000)
  }

  /** One step of the loop: shift and add, wrapping around, then fold. */
  function Mix(h: u32, c: byte): (r: nat)
  {
    Folded((h * 16 % 0x1_0000_0000 + c) % 0x1_0000_0000)
  }

  // ---- The hash of the gABI, without bit operations on words ----

  lemma DigitFits(low: nat, d: hex)
    requires low < 0x1000_0000
    ensures 0 <= low - 16 * (low / 16 % 16) && low - 16 * (low / 16 % 16) + 16 * d < 0x1000_0000
  {
    DivMod16(low);
    DivMod16(low / 16);
    LeadBound(low / 16, low / 16 / 16);
  }

  lemma LeadBound(q: nat, lead: nat)
    requires q < 0x100_0000 && lead == q / 16
    ensures lead < 0x10_0000
  {
  }

  /** The low 28 bits, with the four bits above them added into the second
      hexadecimal digit, without carry. */
  function GabiFold(s: nat): (r: nat)
    requires s < 0x1_0000_0000
    ensures r < 0x1000_0000
  {
    var low, high := s % 0x1000_0000, s / 0x1000_0000;
    var digit := low / 16 % 16;
    DigitFits(low, XorDigit(digit, high));
    low - 16 * digit + 16 * XorDigit(digit, high)
  }

  function GabiStep(h: nat, c: byte): (r: nat)
    ensures r < 0x1000_0000
  {
    GabiFold((16 * h + c) % 0x1_0000_0000)
  }

  lemma FoldedBack(top: hex, low: nat, low': nat)
    requires low < 0x1000_0000 && low' < 0x1000_0000
    requires Xor(0x1000_0000 * top + low, 16 * top) == 0x1000_0000 * top + low' && (top == 0 ==> low' == low)
    ensures Folded(0x1000_0000 * top + low) == low'
  {
    TopMask(top, low);
    TopMask(top, low');
    TopShifted(top, 0x1000_0000 * top);
  }

  lemma TopShifted(top: hex, g: nat)
    requires g == 0x1000_0000 * top
    ensures g / 0x100_0000 == 16 * top && g % 0x1_0000_0000 == g && (g == 0 <==> top == 0)
  {
  }

  lemma FoldedParts(top: hex, a: nat, n: hex, x: hex)
    requires a < 0x10_0000
    ensures Parts(top, a, n, x) < 0x1_0000_0000 && Folded(Parts(top, a, n, x)) == Parts(0, a, XorDigit(n, top), x)
  {
    TopOf(top, a, n, x);
    TopOf(top, a, XorDigit(n, top), x);
    ZeroDigit(n);
    FoldedDigit(top, a, n, x, top);
    FoldedBack(top, Parts(0, a, n, x), Parts(0, a, XorDigit(n, top), x));
  }

  lemma GabiParts(top: hex, a: nat, n: hex, x: hex)
    requires a < 0x10_0000
    ensures Parts(top, a, n, x) < 0x1_0000_0000 && GabiFold(Parts(top, a, n, x)) == Parts(0, a, XorDigit(n, top), x)
  {
    TopOf(top, a, n, x);
  }

  lemma FoldIsGabi(s: nat)
    requires s < 0x1_0000_0000
    ensures Folded(s) == GabiFold(s)
  {
    var top, a, n, x := AsParts(s);
    FoldedParts(top, a, n, x);
    GabiParts(top, a, n, x);
  }

  lemma SumsAgree(h: nat, c: byte)
    ensures (h * 16 % 0x1_0000_0000 + c) % 0x1_0000_0000 == (16 * h + c) % 0x1_0000_0000
  {
  }

  /** The loop's step is the gABI's. */
  lemma MixIsGabi(h: u32, c: byte)
    ensures Mix(h, c) == GabiStep(h, c)
  {
    SumsAgree(h, c);
    FoldIsGabi((16 * h + c) % 0x1_0000_0000);
  }

  function HashFrom(h: u32, name: seq<byte>): (r: u32)
    decreases |name|
  {
    if name == [] then h
    else
      MixIsGabi(h, name[0]);
      HashFrom(Mix(h, name[0]), name[1..])
  }

  function Hash(name: seq<byte>): u32
  {
    HashFrom(0, name)
  }

  /** The hash of the gABI. */
  function GabiFrom(h: nat, name: seq<byte>): nat
    decreases |name|
  {
    if name == [] then h else GabiFrom(GabiStep(h, name[0]), name[1..])
  }

  lemma {:induction false} HashIsGabi(h: u32, name: seq<byte>)
    requires h < 0x1000_0000
    ensures HashFrom(h, name) == GabiFrom(h, name) < 0x1000_0000
    decreases |name|
  {
    if name != [] {
      MixIsGabi(h, name[0]);
      HashIsGabi(GabiStep(h, name[0]), name[1..]);
    }
  }

  /** The bytes as digits in base 16, those above 15 carrying. */
  function Base16(h: nat, name: seq<byte>): nat
    decreases |name|
  {
    if name == [] then h else Base16(16 * h + name[0], name[1..])
  }

  lemma {:induction false} Base16Grows(h: nat, name: seq<byte>)
    ensures h <= Base16(h, name)
    decreases |name|
  {
    if name != [] {
      Base16Grows(16 * h + name[0], name[1..]);
    }
  }

  lemma MixSmall(h: u32, c: byte)
    requires 16 * h + c < 0x1000_0000
    ensures Mix(h, c) == 16 * h + c
  {
    MixIsGabi(h, c);
    StepSmall(h, c);
  }

  lemma StepSmall(h: nat, c: byte)
    requires 16 * h + c < 0x1000_0000
    ensures GabiStep(h, c) == 16 * h + c
  {
    var s := 16 * h + c;
    assert s % 0x1_0000_0000 == s;
    GabiSmall(s);
  }

  /** As long as the top four bits stay clear nothing is folded. */
  lemma {:induction false} HashUnfolded(h: u32, name: seq<byte>)
    requires Base16(h, name) < 0x1000_0000
    ensures HashFrom(h, name) == Base16(h, name)
    decreases |name|
  {
    if name != [] {
      Base16Grows(16 * h + name[0], name[1..]);
      MixSmall(h, name[0]);
      HashUnfolded(16 * h + name[0], name[1..]);
    }
  }

  lemma GabiSmall(s: nat)
    requires s < 0x1000_0000
    ensures GabiFold(s) == s
  {
    SmallParts(s, s % 0x1000_0000, s / 0x1000_0000);
    ZeroDigit(s / 16 % 16);
  }

  lemma SmallParts(s: nat, low: nat, high: nat)
    requires s < 0x1000_0000 && low == s % 0x1000_0000 && high == s / 0x1000_0000
    ensures low == s && high == 0
  {
  }

  /** `Hash` is the gABI's hash: below 2^28, and the base-16 polynomial of the bytes
      when that is below 2^28. */
  lemma HashOfGabi(name: seq<byte>)
    ensures Hash(name) == GabiFrom(0, name) < 0x1000_0000
    ensures Base16(0, name) < 0x1000_0000 ==> Hash(name) == Base16(0, name)
  {
    HashIsGabi(0, name);
    if Base16(0, name) < 0x1000_0000 {
      HashUnfolded(0, name);
    }
  }

  // ---- Filling ----

  /** First symbol of each bucket, and each symbol's successor; 0 ends a chain. */
  datatype Table = Table(buckets: seq<nat>, chain: seq<nat>)

  ghost predicate InBuckets(names: seq<nat>, nbuckets: nat)
  {
    forall i :: 0 <= i < |names| ==> names[i] < nbuckets
  }

  /** The table after the first `i` symbols; `names[i]` is symbol `i`'s bucket. */
  function FilledTo(names: seq<nat>, nbuckets: nat, i: nat): (t: Table)
    requires i <= |names| && InBuckets(names, nbuckets)
    ensures |t.buckets| == nbuckets && |t.chain| == |names|
  {
    if i == 0 then Table(Zeros(nbuckets), Zeros(|names|))
    else
      var t, b := FilledTo(names, nbuckets, i - 1), names[i - 1];
      Table(t.buckets[b := i - 1], t.chain[i - 1 := t.buckets[b]])
  }

  function Filled(names: seq<nat>, nbuckets: nat): Table
    requires InBuckets(names, nbuckets)
  {
    FilledTo(names, nbuckets, |names|)
  }

  // ---- What the words mean ----

  /** The last symbol before `i`, other than symbol 0, in bucket `b`; 0 if none. */
  function LastIn(names: seq<nat>, b: nat, i: nat): (r: nat)
    requires i <= |names|
    ensures r == 0 || (r < i && names[r] == b)
  {
    if i <= 1 then 0 else if names[i - 1] == b then i - 1 else LastIn(names, b, i - 1)
  }

  /** What makes `r` the last symbol of bucket `b` below `i`. */
  ghost predicate IsLast(names: seq<nat>, b: nat, i: nat, r: nat)
    requires i <= |names|
  {
    && (r == 0 || (r < i && names[r] == b))
    && forall j :: 0 < j && r < j < i ==> names[j] != b
  }

  lemma {:induction false} LastInIsLast(names: seq<nat>, b: nat, i: nat)
    requires i <= |names|
    ensures IsLast(names, b, i, LastIn(names, b, i))
  {
    if i > 1 && names[i - 1] != b {
      LastInIsLast(names, b, i - 1);
    }
  }

  lemma {:induction false} BucketMeans(names: seq<nat>, nbuckets: nat, i: nat, b: nat)
    requires i <= |names| && InBuckets(names, nbuckets) && b < nbuckets
    ensures FilledTo(names, nbuckets, i).buckets[b] == LastIn(names, b, i)
  {
    if i > 0 {
      BucketMeans(names, nbuckets, i - 1, b);
    }
  }

  lemma {:induction false} ChainMeans(names: seq<nat>, nbuckets: nat, i: nat, j: nat)
    requires j < i <= |names| && InBuckets(names, nbuckets)
    ensures FilledTo(names, nbuckets, i).chain[j] == LastIn(names, names[j], j)
  {
    if j < i - 1 {
      ChainMeans(names, nbuckets, i - 1, j);
    } else {
      BucketMeans(names, nbuckets, j, names[j]);
    }
  }

  /** Each symbol's chain word is its predecessor in its bucket. */
  ghost predicate Linked(chain: seq<nat>, names: seq<nat>)
  {
    |chain| == |names| && forall j :: 0 <= j < |chain| ==> IsLast(names, names[j], j, chain[j])
  }

  lemma FilledLinked(names: seq<nat>, nbuckets: nat)
    requires InBuckets(names, nbuckets)
    ensures Linked(Filled(names, nbuckets).chain, names)
  {
    var chain := Filled(names, nbuckets).chain;
    forall j | 0 <= j < |chain|
      ensures IsLast(names, names[j], j, chain[j])
    {
      ChainMeans(names, nbuckets, |names|, j);
      LastInIsLast(names, names[j], j);
    }
  }

  // ---- The loader's search ----

  /** Following the chain goes to a smaller index, so it cannot cycle. */
  ghost predicate Descending(chain: seq<nat>)
  {
    forall j :: 0 < j < |chain| ==> chain[j] < j
  }

  lemma LinkedDescends(chain: seq<nat>, names: seq<nat>)
    requires Linked(chain, names)
    ensures Descending(chain)
  {
  }

  /** The symbols a search visits from `i` on. */
  ghost function Visit(chain: seq<nat>, i: nat): seq<nat>
    requires Descending(chain) && i <= |chain|
  {
    if i == 0 || i == |chain| then [] else [i] + Visit(chain, chain[i])
  }

  /** Follow the chain from symbol `i` to the first match. */
  ghost function Search(chain: seq<nat>, i: nat, matches: nat -> bool): Option<nat>
    requires Descending(chain) && i <= |chain|
  {
    if i == 0 || i == |chain| then None
    else if matches(i) then Some(i)
    else Search(chain, chain[i], matches)
  }

  lemma {:induction false} VisitFrom(chain: seq<nat>, names: seq<nat>, b: nat, i: nat, last: nat, s: nat)
    requires Linked(chain, names) && Descending(chain) && i <= |names| && IsLast(names, b, i, last)
    ensures s in Visit(chain, last) <==> 0 < s < i && names[s] == b
    decreases last
  {
    if last != 0 {
      VisitFrom(chain, names, b, last, chain[last], s);
    }
  }

  /** A bucket's chain is acyclic and visits exactly the symbols 1 to n - 1 of that bucket. */
  lemma BucketVisitsExactly(names: seq<nat>, nbuckets: nat, b: nat, s: nat)
    requires InBuckets(names, nbuckets) && b < nbuckets
    ensures var t := Filled(names, nbuckets);
            && Descending(t.chain) && t.buckets[b] <= |t.chain|
            && (s in Visit(t.chain, t.buckets[b]) <==> 0 < s < |names| && names[s] == b)
  {
    FilledLinked(names, nbuckets);
    LinkedDescends(Filled(names, nbuckets).chain, names);
    BucketMeans(names, nbuckets, |names|, b);
    LastInIsLast(names, b, |names|);
    VisitFrom(Filled(names, nbuckets).chain, names, b, |names|, LastIn(names, b, |names|), s);
  }

  /** The answer of a search below `i`: the last symbol of bucket `b` that matches. */
  ghost predicate LastMatch(names: seq<nat>, b: nat, i: nat, matches: nat -> bool, r: Option<nat>)
    requires i <= |names|
  {
    match r
    case None => forall s :: 0 < s < i && names[s] == b ==> !matches(s)
    case Some(k) => 0 < k < i && names[k] == b && matches(k) && forall s :: k < s < i && names[s] == b ==> !matches(s)
  }

  lemma {:induction false} SearchFrom(chain: seq<nat>, names: seq<nat>, b: nat, i: nat, last: nat, matches: nat -> bool)
    requires Linked(chain, names) && Descending(chain) && i <= |names| && IsLast(names, b, i, last)
    ensures LastMatch(names, b, i, matches, Search(chain, last, matches))
    decreases last
  {
    if last != 0 && !matches(last) {
      SearchFrom(chain, names, b, last, chain[last], matches);
      MatchBelow(names, b, i, last, matches, Search(chain, chain[last], matches));
    }
  }

  lemma MatchBelow(names: seq<nat>, b: nat, i: nat, last: nat, matches: nat -> bool, r: Option<nat>)
    requires i <= |names| && 0 < last && IsLast(names, b, i, last) && !matches(last)
             && LastMatch(names, b, last, matches, r)
    ensures LastMatch(names, b, i, matches, r)
  {
    var lo := if r.Some? then r.value else 0;
    forall s | lo < s < i && names[s] == b ensures !matches(s) {
      assert s <= last;
    }
  }

  /** `names` are the buckets of the symbols' names. */
  ghost predicate Hashes(names: seq<nat>, symbols: seq<seq<byte>>, nbuckets: nat)
    requires nbuckets > 0
  {
    |symbols| == |names| && forall i :: 0 <= i < |names| ==> names[i] == Hash(symbols[i]) % nbuckets
  }

  function IsNamed(symbols: seq<seq<byte>>, name: seq<byte>): nat -> bool
  {
    i => 0 <= i < |symbols| && symbols[i] == name
  }

  /** The right answer to a search: the last symbol of that name other than symbol 0. */
  ghost predicate LastNamed(symbols: seq<seq<byte>>, name: seq<byte>, r: Option<nat>)
  {
    match r
    case None => forall s :: 0 < s < |symbols| ==> symbols[s] != name
    case Some(k) => 0 < k < |symbols| && symbols[k] == name && forall s :: k < s < |symbols| ==> symbols[s] != name
  }

  /** The search for a name finds a symbol other than symbol 0 exactly when there is one. */
  lemma SearchExact(names: seq<nat>, symbols: seq<seq<byte>>, nbuckets: nat, name: seq<byte>)
    requires nbuckets > 0 && Hashes(names, symbols, nbuckets) && InBuckets(names, nbuckets)
    ensures var t := Filled(names, nbuckets);
            && Descending(t.chain) && t.buckets[Hash(name) % nbuckets] <= |t.chain|
            && LastNamed(symbols, name, Search(t.chain, t.buckets[Hash(name) % nbuckets], IsNamed(symbols, name)))
  {
    FilledLinked(names, nbuckets);
    var chain, b := Filled(names, nbuckets).chain, Hash(name) % nbuckets;
    LinkedDescends(chain, names);
    BucketMeans(names, nbuckets, |names|, b);
    LastInIsLast(names, b, |names|);
    SearchFrom(chain, names, b, |names|, LastIn(names, b, |names|), IsNamed(symbols, name));
    MatchIsName(names, symbols, nbuckets, name, Search(chain, LastIn(names, b, |names|), IsNamed(symbols, name)));
  }

  lemma MatchIsName(names: seq<nat>, symbols: seq<seq<byte>>, nbuckets: nat, name: seq<byte>, r: Option<nat>)
    requires nbuckets > 0 && Hashes(names, symbols, nbuckets)
    requires LastMatch(names, Hash(name) % nbuckets, |names|, IsNamed(symbols, name), r)
    ensures LastNamed(symbols, name, r)
  {
    var matches := IsNamed(symbols, name);
    assert forall s: nat :: s < |symbols| ==> matches(s) == (symbols[s] == name);
  }

  // ---- The section's bytes ----

  /** The section after the rebuild: header kept, words replaced, rest kept. */
  ghost function Rebuilt(e: Endian, data: seq<byte>, names: seq<nat>, nbuckets: nat): (r: seq<byte>)
    requires InBuckets(names, nbuckets) && 8 + Span(nbuckets + |names|, 4) <= |data|
    ensures |r| == |data|
  {
    var t := Filled(names, nbuckets);
    data[..8] + EncodeWords(e, 4, t.buckets + t.chain) + data[8 + Span(nbuckets + |names|, 4)..]
  }

  lemma {:induction false} FilledFits(names: seq<nat>, nbuckets: nat, i: nat)
    requires i <= |names| <= 0x1_0000_0000 && InBuckets(names, nbuckets)
    ensures var t := FilledTo(names, nbuckets, i);
            GnuTable.AllBelow(t.buckets, 0x1_0000_0000) && GnuTable.AllBelow(t.chain, 0x1_0000_0000)
  {
    var t := FilledTo(names, nbuckets, i);
    if i > 0 {
      FilledFits(names, nbuckets, i - 1);
    }
  }

  /** The loader reads the filled table out of the rebuilt section. */
  lemma ReadRebuilt(e: Endian, data: seq<byte>, names: seq<nat>, nbuckets: nat)
    requires InBuckets(names, nbuckets) && 8 + Span(nbuckets + |names|, 4) <= |data| && |names| <= 0x1_0000_0000
    ensures var t := Filled(names, nbuckets);
            GetWords(e, Rebuilt(e, data, names, nbuckets), 8, 4, nbuckets + |names|) == t.buckets + t.chain
  {
    var t := Filled(names, nbuckets);
    FilledFits(names, nbuckets, |names|);
    Pow256Widths();
    GetWordsBack(e, data[..8], 4, t.buckets + t.chain, data[8 + Span(nbuckets + |names|, 4)..]);
  }

  /** The refill half of `rebuild_sysv_hash`, in place. */
  method Refill(a: array<byte>, e: Endian, names: seq<nat>, nbuckets: nat)
    requires InBuckets(names, nbuckets) && 8 + Span(nbuckets + |names|, 4) <= a.Length && |names| <= 0x1_0000_0000
    modifies a
    ensures a[..] == Rebuilt(e, old(a[..]), names, nbuckets)
  {
    ghost var head, tail := a[..8], a[8 + Span(nbuckets + |names|, 4)..];
    GnuTable.ClearWords(a, e, 8, 4, nbuckets + |names|);
    NoWords(names, nbuckets);
    for i := 0 to |names|
      invariant GnuTable.IsWords(a[..], head, e, 4, TableWords(names, nbuckets, i), tail)
    {
      LinkSymbol(a, e, names, nbuckets, i, head, tail);
    }
  }

  /** Put symbol `i` at the front of its bucket's chain. */
  method LinkSymbol(a: array<byte>, e: Endian, names: seq<nat>, nbuckets: nat, i: nat,
                    ghost head: seq<byte>, ghost tail: seq<byte>)
    requires i < |names| <= 0x1_0000_0000 && InBuckets(names, nbuckets) && |head| == 8
    requires GnuTable.IsWords(a[..], head, e, 4, TableWords(names, nbuckets, i), tail)
    modifies a
    ensures GnuTable.IsWords(a[..], head, e, 4, TableWords(names, nbuckets, i + 1), tail)
  {
    ghost var ws: seq<nat> := TableWords(names, nbuckets, i);
    FilledFits(names, nbuckets, i);
    Pow256Widths();
    var prev := GnuTable.LoadWord(a, e, 8, 4, names[i], head, ws, tail);
    GnuTable.StoreWord(a, e, 8, 4, nbuckets + i, prev, head, ws, tail);
    GnuTable.StoreWord(a, e, 8, 4, names[i], i, head, ws[nbuckets + i := prev], tail);
    WordsStep(names, nbuckets, i);
  }

  lemma NoWords(names: seq<nat>, nbuckets: nat)
    requires InBuckets(names, nbuckets)
    ensures TableWords(names, nbuckets, 0) == Zeros(nbuckets + |names|)
  {
  }

  ghost function TableWords(names: seq<nat>, nbuckets: nat, i: nat): (ws: seq<nat>)
    requires i <= |names| && InBuckets(names, nbuckets)
    ensures |ws| == nbuckets + |names|
  {
    FilledTo(names, nbuckets, i).buckets + FilledTo(names, nbuckets, i).chain
  }

  /** One symbol's two stores. */
  lemma WordsStep(names: seq<nat>, nbuckets: nat, i: nat)
    requires i < |names| && InBuckets(names, nbuckets)
    ensures var ws := TableWords(names, nbuckets, i);
            TableWords(names, nbuckets, i + 1) == ws[nbuckets + i := ws[names[i]]][names[i] := i]
  {
    var t, t' := FilledTo(names, nbuckets, i), FilledTo(names, nbuckets, i + 1);
    assert t' == Table(t.buckets[names[i] := i], t.chain[i := t.buckets[names[i]]]);
  }
}
