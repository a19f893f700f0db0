/** HMAC-SHA256 as RFC 2104 section 2 defines it, with B = 64. */
module Rfc2104 {
  import opened Word
  import opened Fips180

  const B := 64

  /** The key brought to B bytes: hashed first when longer, then zero-filled. */
  function BlockKey(key: seq<byte>): (k: seq<byte>)
    ensures |k| == B
  {
    var k := if |key| > B then Sha256(key) else key;
    k + Zeros(B - |k|)
  }

  function XorPad(key: seq<byte>, pad: byte): (r: seq<byte>)
    ensures |r| == |key|
  {
    seq(|key|, i requires 0 <= i < |key| => XorByte(key[i], pad))
  }

  function Hmac(key: seq<byte>, text: seq<byte>): (d: seq<byte>)
    ensures |d| == 32
  {
    var k := BlockKey(key);
    Sha256(XorPad(k, 0x5c) + Sha256(XorPad(k, 0x36) + text))
  }

  // ---- What it means ----

  /** Byte `i` of the key as HMAC sees it. */
  function KeyByte(key: seq<byte>, i: nat): byte {
    var k := if |key| > 64 then Sha256(key) else key;
    if i < |k| then k[i] else 0
  }

  /** `block` is the 64 bytes of the key with the bits in `flips` flipped in each. */
  ghost predicate IsKeyed(key: seq<byte>, block: seq<byte>, flips: set<nat>) {
    |block| == 64 && forall i, j :: 0 <= i < 64 && 0 <= j < 8 ==> FlippedAt(key, block, flips, i, j)
  }

  predicate FlippedAt(key: seq<byte>, block: seq<byte>, flips: set<nat>, i: nat, j: nat)
    requires i < |block|
  {
    Bit(block[i], j) == (Bit(KeyByte(key, i), j) != (j in flips))
  }

  /** The hash of the outer block and of the hash of the inner block and the text; the two blocks are the key with
      the bits of 0x5c and of 0x36 flipped in every byte. */
  lemma HmacMeans(key: seq<byte>, text: seq<byte>, inner: seq<byte>, outer: seq<byte>)
    requires IsKeyed(key, inner, {1, 2, 4, 5}) && IsKeyed(key, outer, {2, 3, 4, 6})
    ensures Hmac(key, text) == Sha256(outer + Sha256(inner + text))
  {
    hide Sha256, XorPad, FlippedAt, Bit;
    PadBits();
    KeyedUnique(key, inner, {1, 2, 4, 5}, 0x36);
    KeyedUnique(key, outer, {2, 3, 4, 6}, 0x5c);
  }

  lemma PadBits()
    ensures forall j: nat :: j < 8 ==> (Bit(0x36, j) <==> j in {1, 2, 4, 5})
    ensures forall j: nat :: j < 8 ==> (Bit(0x5c, j) <==> j in {2, 3, 4, 6})
  {
    LowBits(0x36);
    LowBits(0x5c);
  }

  lemma LowBits(x: byte)
    ensures Bit(x, 0) <==> x % 2 == 1
    ensures Bit(x, 1) <==> x / 2 % 2 == 1
    ensures Bit(x, 2) <==> x / 2 / 2 % 2 == 1
    ensures Bit(x, 3) <==> x / 2 / 2 / 2 % 2 == 1
    ensures Bit(x, 4) <==> x / 2 / 2 / 2 / 2 % 2 == 1
    ensures Bit(x, 5) <==> x / 2 / 2 / 2 / 2 / 2 % 2 == 1
    ensures Bit(x, 6) <==> x / 2 / 2 / 2 / 2 / 2 / 2 % 2 == 1
    ensures Bit(x, 7) <==> x / 2 / 2 / 2 / 2 / 2 / 2 / 2 % 2 == 1
  {
    assert forall y: nat :: Bit(y, 1) <==> Bit(y / 2, 0);
    assert Bit(x, 4) <==> Bit(x / 2 / 2, 2);
    assert Bit(x, 6) <==> Bit(x / 2 / 2, 4);
  }

  lemma KeyedUnique(key: seq<byte>, block: seq<byte>, flips: set<nat>, pad: byte)
    requires IsKeyed(key, block, flips) && forall j: nat :: j < 8 ==> (Bit(pad, j) <==> j in flips)
    ensures block == XorPad(BlockKey(key), pad)
  {
    hide Sha256, XorByte, Bit;
    forall i | 0 <= i < 64
      ensures block[i] == XorByte(BlockKey(key)[i], pad)
    {
      assert BlockKey(key)[i] == KeyByte(key, i);
      forall j: nat | j < 8
        ensures Bit(block[i], j) == Bit(XorByte(KeyByte(key, i), pad), j)
      {
        assert FlippedAt(key, block, flips, i, j);
        XorByteBit(KeyByte(key, i), pad, j);
      }
      SameBits(block[i], XorByte(KeyByte(key, i), pad), 8);
    }
  }

  lemma XorByteBit(x: byte, y: byte, j: nat)
    requires j < 8
    ensures Bit(XorByte(x, y), j) == (Bit(x, j) != Bit(y, j))
  {
    BitwiseBit(XOR_OP, x, y, 8, j);
  }

  lemma {:induction false} SameBits(x: nat, y: nat, n: nat)
    requires x < Pow2(n) && y < Pow2(n) && forall j: nat :: j < n ==> Bit(x, j) == Bit(y, j)
    ensures x == y
  {
    if n > 0 {
      assert Bit(x, 0) == Bit(y, 0);
      forall j: nat | j < n - 1
        ensures Bit(x / 2, j) == Bit(y / 2, j)
      {
        assert Bit(x, j + 1) == Bit(y, j + 1);
      }
      SameBits(x / 2, y / 2, n - 1);
    }
  }
}
