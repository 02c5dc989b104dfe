/** Rounding to alignments, and the powers of two alignments are. */
module Align {

  predicate PowerOfTwo(n: nat)
  {
    n == 1 || (n > 1 && n % 2 == 0 && PowerOfTwo(n / 2))
  }

  /** 0 and 1 ask for no alignment; everything else is a power of two. */
  predicate ValidAlign(n: nat)
  {
    n <= 1 || PowerOfTwo(n)
  }

  function RoundUp(v: nat, align: nat): (r: nat)
  {
    if align <= 1 then v else (v + align - 1) / align * align
  }

  function Max(a: nat, b: nat): (r: nat)
    ensures r >= a && r >= b && (r == a || r == b)
  {
    if a < b then b else a
  }

  /** `RoundUp` is the least multiple of `align` that is not below `v`. */
  lemma RoundUpFacts(v: nat, align: nat)
    ensures v <= RoundUp(v, align)
    ensures RoundUp(v, align) < v + Max(align, 1)
    ensures align > 0 ==> RoundUp(v, align) % align == 0
  {
    if align > 1 {
      var q := (v + align - 1) / align;
      assert q * align <= v + align - 1 < q * align + align by {
        DivModFacts(v + align - 1, align);
      }
      ModOfMultiple(q, align);
    }
  }

  lemma DivModFacts(v: nat, d: nat)
    requires d > 0
    ensures v == v / d * d + v % d && v % d < d
  {
  }

  lemma {:induction false} MulMono(a: nat, b: nat, d: nat)
    requires a <= b
    ensures 0 <= a * d <= b * d
  {
    if a < b {
      MulMono(a, b - 1, d);
      assert b * d == (b - 1) * d + d;
    }
  }

  /** Slot `k` of `n` slots of `d` bytes lies inside them. */
  lemma SlotInside(k: nat, n: nat, d: nat)
    requires k < n
    ensures 0 <= k * d && k * d + d <= n * d
  {
    MulMono(k + 1, n, d);
    assert (k + 1) * d == k * d + d;
  }

  lemma {:induction false} ModOfMultiple(q: nat, d: nat)
    requires d > 0
    ensures q * d % d == 0
  {
    if q > 0 {
      ModOfMultiple(q - 1, d);
      AddMultiple((q - 1) * d, d);
      assert q * d == (q - 1) * d + d;
    }
  }

  lemma AddMultiple(v: nat, d: nat)
    requires d > 0
    ensures (v + d) % d == v % d
  {
    DivModFacts(v, d);
    DivModFacts(v + d, d);
    var a, b := v / d, (v + d) / d;
    assert (b - a - 1) * d == v % d - (v + d) % d;
    BetweenMultiples(b - a - 1, d, v % d - (v + d) % d);
  }

  lemma BetweenMultiples(k: int, d: int, r: int)
    requires d > 0 && k * d == r && -d < r < d
    ensures k == 0
  {
    assert k >= 1 ==> (k - 1) * d >= 0 && k * d == (k - 1) * d + d;
    assert k <= -1 ==> (-k - 1) * d >= 0 && k * d == -((-k - 1) * d) - d;
  }

  /** Adding a multiple of the modulus changes no remainder. */
  lemma {:induction false} AddMultiples(v: nat, m: nat, d: nat)
    requires d > 0 && m % d == 0
    ensures (v + m) % d == v % d
    decreases m
  {
    if m > 0 {
      DivModFacts(m, d);
      assert m >= d;
      SubMultiple(m, d);
      AddMultiples(v, m - d, d);
      AddMultiple(v + (m - d), d);
    }
  }

  lemma SubMultiple(m: nat, d: nat)
    requires d > 0 && m >= d
    ensures (m - d) % d == m % d
  {
    AddMultiple(m - d, d);
  }

  lemma DividesTrans(a: nat, b: nat, n: nat)
    requires a > 0 && b > 0 && b % a == 0 && n % b == 0
    ensures n % a == 0
    decreases n
  {
    if n > 0 {
      DivModFacts(n, b);
      assert n >= b;
      SubMultiple(n, b);
      DividesTrans(a, b, n - b);
      AddMultiples(n - b, b, a);
    }
  }

  /** Powers of two are totally ordered by divisibility. */
  lemma {:induction false} PowersDivide(a: nat, b: nat)
    requires PowerOfTwo(a) && PowerOfTwo(b) && a <= b
    ensures b % a == 0
  {
    if a > 1 {
      PowersDivide(a / 2, b / 2);
      DivModFacts(b / 2, a / 2);
      var q := b / 2 / (a / 2);
      assert b == q * a by {
        assert b / 2 == q * (a / 2);
        assert b == 2 * (q * (a / 2)) == q * (2 * (a / 2));
      }
      ModOfMultiple(q, a);
    }
  }

  lemma MaxPower(a: nat, b: nat)
    requires PowerOfTwo(a) && ValidAlign(b)
    ensures PowerOfTwo(Max(a, b)) && Max(a, b) % a == 0 && (b > 0 ==> Max(a, b) % b == 0)
  {
    if b > 1 {
      if a <= b {
        PowersDivide(a, b);
      } else {
        PowersDivide(b, a);
      }
    }
  }
}
