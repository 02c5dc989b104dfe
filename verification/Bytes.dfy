/** Fixed-width integers inside byte strings, in either byte order. */
module Bytes {

  type byte = x: int | 0 <= x < 0x100
  type u16 = x: int | 0 <= x < 0x1_0000
  type u32 = x: int | 0 <= x < 0x1_0000_0000
  type i64 = x: int | -0x8000_0000_0000_0000 <= x < 0x8000_0000_0000_0000

  datatype Endian = Little | Big

  /** The number of values an `n`-byte integer can hold. */
  function Pow256(n: nat): (r: nat)
    ensures r >= 1
  {
    if n == 0 then 1 else 256 * Pow256(n - 1)
  }

  lemma Pow256Widths()
    ensures Pow256(1) == 0x100
    ensures Pow256(2) == 0x1_0000
    ensures Pow256(4) == 0x1_0000_0000
    ensures Pow256(8) == 0x1_0000_0000_0000_0000
  {
    assert Pow256(3) == 0x100_0000;
    assert Pow256(5) == 0x100_0000_0000;
    assert Pow256(6) == 0x1_0000_0000_0000;
    assert Pow256(7) == 0x100_0000_0000_0000;
  }

  /** The low `n` bytes of `v`, least significant first. */
  function LeBytes(v: nat, n: nat): (b: seq<byte>)
    ensures |b| == n
  {
    if n == 0 then [] else [v % 256] + LeBytes(v / 256, n - 1)
  }

  function LeNat(b: seq<byte>): nat
  {
    if b == [] then 0 else b[0] + 256 * LeNat(b[1..])
  }

  function Reverse(b: seq<byte>): (r: seq<byte>)
    ensures |r| == |b|
    ensures forall i :: 0 <= i < |b| ==> r[i] == b[|b| - 1 - i]
  {
    seq(|b|, i requires 0 <= i < |b| => b[|b| - 1 - i])
  }

  function Encode(e: Endian, v: nat, n: nat): (b: seq<byte>)
    ensures |b| == n
  {
    if e.Little? then LeBytes(v, n) else Reverse(LeBytes(v, n))
  }

  function Decode(e: Endian, b: seq<byte>): nat
  {
    if e.Little? then LeNat(b) else LeNat(Reverse(b))
  }

  lemma {:induction false} LeNatBound(b: seq<byte>)
    ensures LeNat(b) < Pow256(|b|)
  {
    if b != [] {
      LeNatBound(b[1..]);
    }
  }

  lemma {:induction false} LeNatOfBytes(v: nat, n: nat)
    requires v < Pow256(n)
    ensures LeNat(LeBytes(v, n)) == v
  {
    if n > 0 {
      assert v / 256 < Pow256(n - 1);
      LeNatOfBytes(v / 256, n - 1);
      assert LeBytes(v, n)[1..] == LeBytes(v / 256, n - 1);
    }
  }

  lemma {:induction false} LeBytesOfNat(b: seq<byte>)
    ensures LeBytes(LeNat(b), |b|) == b
  {
    if b != [] {
      LeBytesOfNat(b[1..]);
      assert LeNat(b) % 256 == b[0] && LeNat(b) / 256 == LeNat(b[1..]);
      assert b == [b[0]] + b[1..];
    }
  }

  lemma DecodeBound(e: Endian, b: seq<byte>)
    ensures Decode(e, b) < Pow256(|b|)
  {
    LeNatBound(b);
    LeNatBound(Reverse(b));
  }

  /** Decoding inverts encoding on every value the width can hold. */
  lemma DecodeEncode(e: Endian, v: nat, n: nat)
    requires v < Pow256(n)
    ensures Decode(e, Encode(e, v, n)) == v
  {
    LeNatOfBytes(v, n);
    assert Reverse(Reverse(LeBytes(v, n))) == LeBytes(v, n);
  }

  /** Encoding inverts decoding on every byte string. */
  lemma EncodeDecode(e: Endian, b: seq<byte>)
    ensures Encode(e, Decode(e, b), |b|) == b
  {
    LeBytesOfNat(b);
    LeBytesOfNat(Reverse(b));
    assert Reverse(Reverse(b)) == b;
  }

  /** Read the `n`-byte integer at offset `o`. */
  function Get(e: Endian, s: seq<byte>, o: nat, n: nat): (v: nat)
    requires o + n <= |s|
    ensures v < Pow256(n)
  {
    DecodeBound(e, s[o..o + n]);
    Decode(e, s[o..o + n])
  }

  /** In little-endian order the first byte is the least significant one. */
  lemma GetLittle(s: seq<byte>, o: nat, n: nat)
    requires o + n <= |s|
    ensures Get(Little, s, o, n) == if n == 0 then 0 else s[o] + 256 * Get(Little, s, o + 1, n - 1)
  {
    if n > 0 {
      assert s[o..o + n][1..] == s[o + 1..o + n];
    }
  }

  /** In big-endian order the last byte is the least significant one. */
  lemma GetBig(s: seq<byte>, o: nat, n: nat)
    requires o + n <= |s|
    ensures Get(Big, s, o, n) == if n == 0 then 0 else 256 * Get(Big, s, o, n - 1) + s[o + n - 1]
  {
    if n > 0 {
      assert Reverse(s[o..o + n])[1..] == Reverse(s[o..o + n - 1]);
    }
  }

  /** Overwrite the `n` bytes at offset `o`. */
  function Put(e: Endian, s: seq<byte>, o: nat, n: nat, v: nat): (r: seq<byte>)
    requires o + n <= |s|
    ensures |r| == |s|
    ensures forall i :: 0 <= i < |s| && !(o <= i < o + n) ==> r[i] == s[i]
    ensures r[o..o + n] == Encode(e, v, n)
  {
    s[..o] + Encode(e, v, n) + s[o + n..]
  }

  /** A write is read back. */
  lemma GetPut(e: Endian, s: seq<byte>, o: nat, n: nat, v: nat)
    requires o + n <= |s| && v < Pow256(n)
    ensures Get(e, Put(e, s, o, n, v), o, n) == v
  {
    DecodeEncode(e, v, n);
  }

  /** A write leaves every disjoint field alone. */
  lemma GetPutOther(e: Endian, s: seq<byte>, o: nat, n: nat, v: nat, o': nat, n': nat)
    requires o + n <= |s| && o' + n' <= |s|
    requires o' + n' <= o || o + n <= o'
    ensures Get(e, Put(e, s, o, n, v), o', n') == Get(e, s, o', n')
  {
    assert Put(e, s, o, n, v)[o'..o' + n'] == s[o'..o' + n'];
  }
}
