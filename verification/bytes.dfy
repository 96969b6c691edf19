/** Bytes and little-endian machine words. */
module Bytes {

  type Byte = x: int | 0 <= x < 256

  const TWO_8 := 0x100
  const TWO_32 := 0x1_0000_0000
  const TWO_64 := 0x1_0000_0000_0000_0000
  const INT32_MAX := 0x7fff_ffff
  const INT32_MIN := -0x8000_0000

  function Pow256(n: nat): nat {
    if n == 0 then 1 else 256 * Pow256(n - 1)
  }

  /** The n low bytes of v, least significant first. */
  function ToBytes(v: nat, n: nat): (s: seq<Byte>)
    ensures |s| == n
  {
    if n == 0 then [] else [v % 256] + ToBytes(v / 256, n - 1)
  }

  /** The number whose little-endian bytes are s. */
  function FromBytes(s: seq<Byte>): nat {
    if |s| == 0 then 0 else s[0] + 256 * FromBytes(s[1..])
  }

  lemma {:induction false} FromBytesBound(s: seq<Byte>)
    ensures FromBytes(s) < Pow256(|s|)
  {
    if |s| > 0 {
      FromBytesBound(s[1..]);
    }
  }

  lemma {:induction false} BytesRoundTrip(v: nat, n: nat)
    requires v < Pow256(n)
    ensures FromBytes(ToBytes(v, n)) == v
  {
    if n > 0 {
      var s := ToBytes(v, n);
      assert s[1..] == ToBytes(v / 256, n - 1);
      BytesRoundTrip(v / 256, n - 1);
    }
  }

  lemma Pow256Values()
    ensures Pow256(1) == TWO_8 && Pow256(4) == TWO_32 && Pow256(8) == TWO_64
  {
    assert Pow256(2) == 0x1_0000;
    assert Pow256(4) == 256 * (256 * Pow256(2));
    assert Pow256(6) == 256 * (256 * Pow256(4));
    assert Pow256(8) == 256 * (256 * Pow256(6));
  }

  /** Two's complement reading of an unsigned value below `modulus`. */
  function Signed(v: nat, modulus: nat): int {
    if 2 * v < modulus then v else v - modulus
  }

  /** b overwrites what s holds from index i on; nothing else changes. */
  ghost predicate Overwrites(before: seq<Byte>, after: seq<Byte>, i: int, b: seq<Byte>)
  {
    && 0 <= i <= i + |b| <= |before| == |after|
    && (forall j :: 0 <= j < |b| ==> after[i + j] == b[j])
    && (forall x :: 0 <= x < |after| && !(i <= x < i + |b|) ==> after[x] == before[x])
  }

  /** The n bytes of the code image `code` from address a on. */
  function Read(code: int -> Byte, a: int, n: nat): (b: seq<Byte>)
    ensures |b| == n
  {
    seq(n, i requires 0 <= i < n => code(a + i))
  }

  /** The bytes b stand in the code image from address a on. */
  ghost predicate BytesAt(code: int -> Byte, a: int, b: seq<Byte>) {
    Read(code, a, |b|) == b
  }

  lemma ReadSlice(code: int -> Byte, a: int, n: nat, i: nat, j: nat)
    requires i <= j <= n
    ensures Read(code, a, n)[i..j] == Read(code, a + i, j - i)
  {
  }

  /** Bytes that stand one after the other. */
  lemma BytesAtSplit(code: int -> Byte, a: int, b: seq<Byte>, c: seq<Byte>)
    requires BytesAt(code, a, b + c)
    ensures BytesAt(code, a, b) && BytesAt(code, a + |b|, c)
  {
    ReadSlice(code, a, |b + c|, 0, |b|);
    ReadSlice(code, a, |b + c|, |b|, |b + c|);
    assert (b + c)[..|b|] == b && (b + c)[|b|..] == c;
  }
}
