/** 32-bit words and bytes as bounded integers, with the bitwise operations of
    FIPS 180-4 section 3.2. Working over integers keeps `+` (mod 2^32) and the
    bit operations in one number system. */
module Word {
  const TWO32: int := 0x1_0000_0000

  type word = x: int | 0 <= x < 0x1_0000_0000
  type byte = x: int | 0 <= x < 0x100

  function Pow2(n: nat): (p: nat)
    ensures p > 0
  {
    if n == 0 then 1 else 2 * Pow2(n - 1)
  }

  lemma WordSize()
    ensures Pow2(8) == 0x100 && Pow2(32) == TWO32
  {
    assert Pow2(8) == 0x100;
    assert Pow2(16) == 0x1_0000;
    assert Pow2(24) == 0x100_0000;
  }

  /** Bit `i` of `x`, bit 0 being the least significant. */
  predicate Bit(x: nat, i: nat) {
    if i == 0 then x % 2 == 1 else Bit(x / 2, i - 1)
  }

  /** The number whose low `n` bits are `op` of the bits of `x` and `y`. */
  function Bitwise(op: (bool, bool) -> bool, x: nat, y: nat, n: nat): (r: nat)
    ensures r < Pow2(n)
  {
    if n == 0 then 0
    else 2 * Bitwise(op, x / 2, y / 2, n - 1) + (if op(x % 2 == 1, y % 2 == 1) then 1 else 0)
  }

  lemma {:induction false} BitwiseBit(op: (bool, bool) -> bool, x: nat, y: nat, n: nat, i: nat)
    requires i < n
    ensures Bit(Bitwise(op, x, y, n), i) == op(Bit(x, i), Bit(y, i))
  {
    var rest := Bitwise(op, x / 2, y / 2, n - 1);
    assert Bitwise(op, x, y, n) / 2 == rest;
    if i > 0 {
      BitwiseBit(op, x / 2, y / 2, n - 1, i - 1);
    }
  }

  const AND_OP: (bool, bool) -> bool := (p, q) => p && q
  const OR_OP: (bool, bool) -> bool := (p, q) => p || q
  const XOR_OP: (bool, bool) -> bool := (p, q) => p != q

  function And(x: word, y: word): word {
    WordSize();
    Bitwise(AND_OP, x, y, 32)
  }

  function Or(x: word, y: word): word {
    WordSize();
    Bitwise(OR_OP, x, y, 32)
  }

  function Xor(x: word, y: word): word {
    WordSize();
    Bitwise(XOR_OP, x, y, 32)
  }

  function XorByte(x: byte, y: byte): byte {
    WordSize();
    Bitwise(XOR_OP, x, y, 8)
  }

  function Not(x: word): word { TWO32 - 1 - x }

  /** `n` steps to the right, a zero entering at the top each time. */
  function Shr(x: word, n: nat): word
    decreases n
  {
    if n == 0 then x else Shr(x / 2, n - 1)
  }

  /** `n` steps to the left, the top bit lost each time. */
  function Shl(x: word, n: nat): word
    decreases n
  {
    if n == 0 then x else Shl(2 * x % TWO32, n - 1)
  }

  /** Rotate right: (x >> n) or (x << 32 - n). */
  function Rotr(x: word, n: nat): word
    requires n <= 32
  {
    Or(Shr(x, n), Shl(x, 32 - n))
  }

  /** Addition modulo 2^32 (section 3.2, item 1). */
  function Add(x: word, y: word): word { (x + y) % TWO32 }

  // What the shift and rotate formulas mean, bit by bit.

  lemma {:induction false} ShrBit(x: word, n: nat, i: nat)
    ensures Bit(Shr(x, n), i) == Bit(x, i + n)
    decreases n
  {
    if n > 0 {
      ShrBit(x / 2, n - 1, i);
    }
  }

  lemma MulBound(k: int, d: int)
    requires d > 0
    ensures k >= 1 ==> k * d >= d
    ensures k <= -1 ==> k * d <= -d
  {
    if k >= 1 {
      assert (k - 1) * d >= 0;
    } else if k <= -1 {
      assert (-1 - k) * d >= 0;
    }
  }

  /** Quotient and remainder are unique. */
  lemma QuotientIs(x: int, d: int, q: int, r: int)
    requires d > 0 && x == q * d + r && 0 <= r < d
    ensures x / d == q && x % d == r
  {
    assert x == x / d * d + x % d && 0 <= x % d < d;
    assert (x / d - q) * d == r - x % d;
    MulBound(x / d - q, d);
  }

  lemma {:induction false} LowBit(x: nat, k: nat, i: nat)
    requires i < k
    ensures Bit(x % Pow2(k), i) == Bit(x, i)
  {
    var y := x % Pow2(k);
    HalfMod(x, Pow2(k - 1));
    assert y / 2 == x / 2 % Pow2(k - 1) && y % 2 == x % 2;
    if i > 0 {
      LowBit(x / 2, k - 1, i - 1);
    }
  }

  /** The low bit aside, a remainder by 2p is the remainder by p of the half. */
  lemma HalfMod(x: nat, p: nat)
    requires p > 0
    ensures x % (2 * p) == 2 * (x / 2 % p) + x % 2
  {
    var h := x / 2;
    var q, r := h / p, h % p;
    assert h == q * p + r;
    assert q * (2 * p) == 2 * (q * p);
    QuotientIs(x, 2 * p, q, 2 * r + x % 2);
  }

  lemma {:induction false} HighBit(x: nat, k: nat, i: nat)
    requires x < Pow2(k) && i >= k
    ensures !Bit(x, i)
  {
    if i > 0 {
      HighBit(x / 2, if k == 0 then 0 else k - 1, i - 1);
    }
  }

  lemma {:induction false} ShlBit(x: word, m: nat, i: nat)
    requires i < 32
    ensures Bit(Shl(x, m), i) == (i >= m && Bit(x, i - m))
    decreases m
  {
    if m > 0 {
      var y := 2 * x;
      ShlBit(y % TWO32, m - 1, i);
      if i >= m - 1 {
        WordSize();
        LowBit(y, 32, i - (m - 1));
      }
    }
  }

  lemma OrBit(x: word, y: word, i: nat)
    requires i < 32
    ensures Bit(Or(x, y), i) == (Bit(x, i) || Bit(y, i))
  {
    BitwiseBit(OR_OP, x, y, 32, i);
  }

  /** Rotr really rotates: bit `i` of the result is bit `i + n` (mod 32) of the argument. */
  lemma RotrBit(x: word, n: nat, i: nat)
    requires n <= 32 && i < 32
    ensures Bit(Rotr(x, n), i) == Bit(x, if i + n < 32 then i + n else i + n - 32)
  {
    OrBit(Shr(x, n), Shl(x, 32 - n), i);
    ShrBit(x, n, i);
    ShlBit(x, 32 - n, i);
    if i + n >= 32 {
      HighWordBit(x, i + n);
    }
  }

  lemma HighWordBit(x: word, i: nat)
    requires i >= 32
    ensures !Bit(x, i)
  {
    WordSize();
    HighBit(x, 32, i);
  }

  lemma {:induction false} ComplementBit(x: nat, k: nat, i: nat)
    requires x < Pow2(k) && i < k
    ensures Bit(Pow2(k) - 1 - x, i) == !Bit(x, i)
  {
    var y := Pow2(k) - 1 - x;
    assert y / 2 == Pow2(k - 1) - 1 - x / 2;
    if i > 0 {
      ComplementBit(x / 2, k - 1, i - 1);
    }
  }

  /** `~x` flips every bit. */
  lemma NotBit(x: word, i: nat)
    requires i < 32
    ensures Bit(Not(x), i) == !Bit(x, i)
  {
    WordSize();
    ComplementBit(x, 32, i);
  }

  // ---- Big-endian bytes of a word (section 3.1, item 2) ----

  function WordBytes(w: word): (r: seq<byte>)
    ensures |r| == 4
  {
    [w / 0x100_0000, w / 0x1_0000 % 0x100, w / 0x100 % 0x100, w % 0x100]
  }

  function BytesWord(b0: byte, b1: byte, b2: byte, b3: byte): word {
    ((b0 * 0x100 + b1) * 0x100 + b2) * 0x100 + b3
  }

  /** Splitting and joining undo each other, and the first byte is the most significant. */
  lemma WordBytesRoundTrip(w: word)
    ensures var b := WordBytes(w); BytesWord(b[0], b[1], b[2], b[3]) == w
    ensures var b := WordBytes(w); w == b[0] as int * 0x100_0000 + b[1] as int * 0x1_0000 + b[2] as int * 0x100 + b[3]
  {
    var high := w / 0x1_0000;
    assert w / 0x100 == high * 0x100 + w / 0x100 % 0x100;
    assert high == w / 0x100_0000 * 0x100 + high % 0x100;
  }

  function Zeros(n: nat): (r: seq<byte>)
    ensures |r| == n
  {
    seq(n, _ => 0)
  }
}
