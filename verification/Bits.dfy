/** Bitwise operations on naturals, one hexadecimal digit at a time. */
module Bits {

  type hex = x: int | 0 <= x < 16

  /** A number without its bit of weight `p`, the highest it can have. */
  function Rest(x: nat, p: nat): nat
  {
    if x >= p then x - p else x
  }

  /** The bit of weight `p`, the highest either can have, of both and of one alone. */
  function Both(x: nat, y: nat, p: nat): nat
  {
    if x >= p && y >= p then p else 0
  }

  function Either(x: nat, y: nat, p: nat): nat
  {
    if (x >= p) != (y >= p) then p else 0
  }

  /** The bits of weight `p` and less of both. */
  function AndFrom(x: nat, y: nat, p: nat): (r: nat)
    ensures r == 0 || r < 2 * p
  {
    if p == 0 then 0 else Both(x, y, p) + AndFrom(Rest(x, p), Rest(y, p), p / 2)
  }

  /** The bits of weight `p` and less of one alone. */
  function XorFrom(x: nat, y: nat, p: nat): (r: nat)
    ensures r == 0 || r < 2 * p
  {
    if p == 0 then 0 else Either(x, y, p) + XorFrom(Rest(x, p), Rest(y, p), p / 2)
  }

  function AndDigit(x: hex, y: hex): (r: hex)
  {
    AndFrom(x, y, 8)
  }

  function XorDigit(x: hex, y: hex): (r: hex)
  {
    XorFrom(x, y, 8)
  }

  lemma Digits(a: nat, x: hex)
    ensures (16 * a + x) / 16 == a && (16 * a + x) % 16 == x
  {
  }

  lemma {:induction false} ZeroFrom(x: nat, p: nat)
    requires p in {0, 1, 2, 4, 8} && (x == 0 || x < 2 * p)
    ensures AndFrom(0, x, p) == AndFrom(x, 0, p) == 0 && XorFrom(0, x, p) == XorFrom(x, 0, p) == x
  {
    if p > 0 {
      ZeroFrom(Rest(x, p), p / 2);
    }
  }

  lemma ZeroDigit(x: hex)
    ensures AndDigit(0, x) == AndDigit(x, 0) == 0 && XorDigit(0, x) == XorDigit(x, 0) == x
  {
    ZeroFrom(x, 8);
  }

  function And(a: nat, b: nat): nat
    decreases a
  {
    if a == 0 then 0 else AndDigit(a % 16, b % 16) + 16 * And(a / 16, b / 16)
  }

  function Xor(a: nat, b: nat): nat
    decreases a + b
  {
    if a == 0 then b else XorDigit(a % 16, b % 16) + 16 * Xor(a / 16, b / 16)
  }

  lemma AndHex(a: nat, x: hex, b: nat, y: hex)
    ensures And(16 * a + x, 16 * b + y) == 16 * And(a, b) + AndDigit(x, y)
  {
    Digits(a, x);
    Digits(b, y);
    ZeroDigit(y);
  }

  lemma XorHex(a: nat, x: hex, b: nat, y: hex)
    ensures Xor(16 * a + x, 16 * b + y) == 16 * Xor(a, b) + XorDigit(x, y)
  {
    Digits(a, x);
    Digits(b, y);
    ZeroDigit(y);
  }

  lemma {:induction false} XorZero(a: nat)
    ensures Xor(a, 0) == a && Xor(0, a) == a
  {
    if a > 0 {
      XorZero(a / 16);
      ZeroDigit(a % 16);
    }
  }

  lemma {:induction false} AndZero(a: nat)
    ensures And(a, 0) == 0
  {
    if a > 0 {
      AndZero(a / 16);
      ZeroDigit(a % 16);
    }
  }

  lemma {:induction false} MasksFrom(x: nat, p: nat)
    requires p in {0, 1, 2, 4, 8} && (x == 0 || x < 2 * p)
    ensures p > 0 ==> AndFrom(x, 2 * p - 1, p) == x && AndFrom(x, 2 * p - 1 - x, p) == 0
  {
    if p > 1 {
      MasksFrom(Rest(x, p), p / 2);
    }
  }

  lemma Masks(x: hex)
    ensures AndDigit(x, 15) == x && AndDigit(x, 15 - x) == 0
  {
    MasksFrom(x, 8);
  }

  lemma FromLast(x: nat, y: nat)
    ensures AndFrom(x, y, 2) == Both(x, y, 2) + Both(Rest(x, 2), Rest(y, 2), 1)
    ensures XorFrom(x, y, 2) == Either(x, y, 2) + Either(Rest(x, 2), Rest(y, 2), 1)
  {
    assert AndFrom(Rest(x, 2), Rest(y, 2), 1) == Both(Rest(x, 2), Rest(y, 2), 1);
    assert XorFrom(Rest(x, 2), Rest(y, 2), 1) == Either(Rest(x, 2), Rest(y, 2), 1);
  }

  lemma FromFour(x: nat, y: nat)
    ensures AndFrom(x, y, 4) == Both(x, y, 4) + AndFrom(Rest(x, 4), Rest(y, 4), 2)
    ensures XorFrom(x, y, 4) == Either(x, y, 4) + XorFrom(Rest(x, 4), Rest(y, 4), 2)
  {
  }

  /** It is the machine's operation on four bits. */
  lemma XorOp(x: hex, y: hex)
    ensures XorDigit(x, y) == (x as bv4 ^ y as bv4) as int
  {
    var x3, y3 := Rest(x, 8), Rest(y, 8);
    FromFour(x3, y3);
    FromLast(Rest(x3, 4), Rest(y3, 4));
    XorBits(x, y);
  }

  lemma XorBits(x: hex, y: hex)
    ensures var x3, y3 := Rest(x, 8), Rest(y, 8);
            var x2, y2 := Rest(x3, 4), Rest(y3, 4);
            Either(x, y, 8) + Either(x3, y3, 4) + Either(x2, y2, 2) + Either(Rest(x2, 2), Rest(y2, 2), 1)
            == (x as bv4 ^ y as bv4) as int
  {
  }

  // ---- Digits of a word ----

  /** Masking with a last digit of zeros drops the last digit, of ones keeps it. */
  lemma MaskDigit(a: nat, d: hex, m: nat)
    ensures And(16 * a + d, 16 * m) == 16 * And(a, m)
    ensures And(16 * a + d, 16 * m + 15) == 16 * And(a, m) + d
  {
    AndHex(a, d, m, 0);
    AndHex(a, d, m, 15);
    ZeroDigit(d);
    Masks(d);
  }

  /** `top`, then the digits `d`. */
  function Word(top: nat, d: seq<hex>): nat
  {
    if d == [] then top else 16 * Word(top, d[..|d| - 1]) + d[|d| - 1]
  }

  /** `m`, then `n` digits of zeros or of ones. */
  function ZerosBehind(m: nat, n: nat): nat
  {
    if n == 0 then m else 16 * ZerosBehind(m, n - 1)
  }

  function OnesBehind(m: nat, n: nat): nat
  {
    if n == 0 then m else 16 * OnesBehind(m, n - 1) + 15
  }

  lemma {:induction false} MaskZeros(top: nat, d: seq<hex>, m: nat)
    ensures And(Word(top, d), ZerosBehind(m, |d|)) == ZerosBehind(And(top, m), |d|)
  {
    if d != [] {
      var n := |d| - 1;
      MaskZeros(top, d[..n], m);
      MaskDigit(Word(top, d[..n]), d[n], ZerosBehind(m, n));
    }
  }

  lemma {:induction false} MaskOnes(top: nat, d: seq<hex>, m: nat)
    ensures And(Word(top, d), OnesBehind(m, |d|)) == Word(And(top, m), d)
  {
    if d != [] {
      var n := |d| - 1;
      MaskOnes(top, d[..n], m);
      MaskDigit(Word(top, d[..n]), d[n], OnesBehind(m, n));
    }
  }

  function LastDigits(v: nat, n: nat): (d: seq<hex>)
    ensures |d| == n
  {
    if n == 0 then [] else LastDigits(v / 16, n - 1) + [v % 16]
  }

  function Leading(v: nat, n: nat): nat
  {
    if n == 0 then v else Leading(v / 16, n - 1)
  }

  lemma {:induction false} AsWord(v: nat, n: nat)
    ensures v == Word(Leading(v, n), LastDigits(v, n))
  {
    if n > 0 {
      AsWord(v / 16, n - 1);
      var d := LastDigits(v, n);
      assert d[..n - 1] == LastDigits(v / 16, n - 1);
    }
  }

  lemma {:induction false} WordSplits(top: nat, d: seq<hex>)
    ensures Word(top, d) == ZerosBehind(top, |d|) + Word(0, d)
  {
    if d != [] {
      WordSplits(top, d[..|d| - 1]);
    }
  }

  lemma {:induction false} WordBound(d: seq<hex>)
    ensures Word(0, d) < ZerosBehind(1, |d|)
  {
    if d != [] {
      WordBound(d[..|d| - 1]);
    }
  }

  lemma Seven(m: nat)
    ensures ZerosBehind(m, 7) == 0x1000_0000 * m && OnesBehind(m, 7) == 0x1000_0000 * m + 0xfff_ffff
  {
    assert ZerosBehind(m, 1) == 0x10 * m && OnesBehind(m, 1) == 0x10 * m + 0xf;
    assert ZerosBehind(m, 2) == 0x100 * m && OnesBehind(m, 2) == 0x100 * m + 0xff;
    assert ZerosBehind(m, 3) == 0x1000 * m && OnesBehind(m, 3) == 0x1000 * m + 0xfff;
    assert ZerosBehind(m, 4) == 0x1_0000 * m && OnesBehind(m, 4) == 0x1_0000 * m + 0xffff;
    assert ZerosBehind(m, 5) == 0x10_0000 * m && OnesBehind(m, 5) == 0x10_0000 * m + 0xf_ffff;
    assert ZerosBehind(m, 6) == 0x100_0000 * m && OnesBehind(m, 6) == 0x100_0000 * m + 0xff_ffff;
  }

  lemma SplitTop(v: nat) returns (top: nat, d: seq<hex>)
    ensures |d| == 7 && v == Word(top, d) == 0x1000_0000 * top + Word(0, d) && Word(0, d) < 0x1000_0000
  {
    top, d := Leading(v, 7), LastDigits(v, 7);
    AsWord(v, 7);
    WordSplits(top, d);
    WordBound(d);
    Seven(top);
    Seven(1);
  }

  lemma MaskTop(top: hex, d: seq<hex>)
    requires |d| == 7
    ensures And(Word(top, d), 0xf000_0000) == 0x1000_0000 * top
  {
    MaskZeros(top, d, 15);
    AndDigitOf(top, 15);
    Masks(top);
    Seven(15);
    Seven(top);
  }

  lemma MaskRest(top: hex, d: seq<hex>)
    requires |d| == 7
    ensures And(Word(top, d), 0xffff_ffff - 0x1000_0000 * top) == Word(0, d)
  {
    MaskOnes(top, d, 15 - top);
    AndDigitOf(top, 15 - top);
    Masks(top);
    Seven(15 - top);
  }

  /** The top four bits of a word, and the word without them. */
  lemma TopMask(top: hex, low: nat)
    requires low < 0x1000_0000
    ensures And(0x1000_0000 * top + low, 0xf000_0000) == 0x1000_0000 * top
    ensures And(0x1000_0000 * top + low, 0xffff_ffff - 0x1000_0000 * top) == low
  {
    var t, d := SplitTop(0x1000_0000 * top + low);
    assert t == top;
    MaskTop(top, d);
    MaskRest(top, d);
  }

  lemma AndDigitOf(x: hex, y: hex)
    ensures And(x, y) == AndDigit(x, y)
  {
    AndZero(0);
    AndHex(0, x, 0, y);
  }

  /** A word with its top digit, its second digit `n` and its last one `x` set apart. */
  function Parts(top: nat, a: nat, n: hex, x: hex): nat
  {
    16 * (16 * (0x10_0000 * top + a) + n) + x
  }

  /** Folding a digit in changes the second digit alone. */
  lemma FoldedDigit(top: nat, a: nat, n: hex, x: hex, g: hex)
    ensures Xor(Parts(top, a, n, x), 16 * g) == Parts(top, a, XorDigit(n, g), x)
  {
    SecondDigit(0x10_0000 * top + a, n, x, g);
  }

  lemma SecondDigit(b: nat, n: hex, x: hex, g: hex)
    ensures Xor(16 * (16 * b + n) + x, 16 * g) == 16 * (16 * b + XorDigit(n, g)) + x
  {
    LastKept(16 * b + n, x, g);
    LastFolded(b, n, g);
  }

  lemma LastKept(c: nat, x: hex, g: nat)
    ensures Xor(16 * c + x, 16 * g) == 16 * Xor(c, g) + x
  {
    XorHex(c, x, g, 0);
    ZeroDigit(x);
  }

  lemma LastFolded(b: nat, n: hex, g: hex)
    ensures Xor(16 * b + n, g) == 16 * b + XorDigit(n, g)
  {
    XorHex(b, n, 0, g);
    XorZero(b);
  }

  lemma TopOf(top: hex, a: nat, n: hex, x: hex)
    requires a < 0x10_0000
    ensures var v, low := Parts(top, a, n, x), Parts(0, a, n, x);
            && v == 0x1000_0000 * top + low && low < 0x1000_0000
            && v / 0x1000_0000 == top && v % 0x1000_0000 == low && low / 16 % 16 == n
  {
  }

  lemma DivMod16(v: nat)
    ensures v == 16 * (v / 16) + v % 16
  {
  }

  lemma DivModA(v: nat)
    requires v < 0x100_0000
    ensures v == 0x10_0000 * (v / 0x10_0000) + v % 0x10_0000 && v / 0x10_0000 < 16
  {
  }

  lemma AsParts(v: nat) returns (top: hex, a: nat, n: hex, x: hex)
    requires v < 0x1_0000_0000
    ensures a < 0x10_0000 && v == Parts(top, a, n, x)
  {
    DivMod16(v);
    DivMod16(v / 16);
    var b := v / 16 / 16;
    DivModA(b);
    top, a, n, x := b / 0x10_0000, b % 0x10_0000, v / 16 % 16, v % 16;
  }
}
