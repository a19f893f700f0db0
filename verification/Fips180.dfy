/** SHA-256 as FIPS 180-4 defines it, on messages of whole bytes. */
module Fips180 {
  import opened Word

  // ---- Section 4.1.2: the functions ----

  function Ch(x: word, y: word, z: word): word { Xor(And(x, y), And(Not(x), z)) }

  function Maj(x: word, y: word, z: word): word { Xor(Xor(And(x, y), And(x, z)), And(y, z)) }

  /** Each bit of `x` chooses between the bits of `y` and `z`. */
  lemma ChBit(x: word, y: word, z: word, i: nat)
    requires i < 32
    ensures Bit(Ch(x, y, z), i) == if Bit(x, i) then Bit(y, i) else Bit(z, i)
  {
    BitwiseBit(XOR_OP, And(x, y), And(Not(x), z), 32, i);
    BitwiseBit(AND_OP, x, y, 32, i);
    BitwiseBit(AND_OP, Not(x), z, 32, i);
    NotBit(x, i);
  }

  /** Each bit is the one that at least two of the three agree on. */
  lemma MajBit(x: word, y: word, z: word, i: nat)
    requires i < 32
    ensures Bit(Maj(x, y, z), i) == if Bit(x, i) == Bit(y, i) then Bit(x, i) else Bit(z, i)
  {
    BitwiseBit(XOR_OP, Xor(And(x, y), And(x, z)), And(y, z), 32, i);
    BitwiseBit(XOR_OP, And(x, y), And(x, z), 32, i);
    BitwiseBit(AND_OP, x, y, 32, i);
    BitwiseBit(AND_OP, x, z, 32, i);
    BitwiseBit(AND_OP, y, z, 32, i);
  }

  function BigSigma0(x: word): word { Xor(Xor(Rotr(x, 2), Rotr(x, 13)), Rotr(x, 22)) }

  function BigSigma1(x: word): word { Xor(Xor(Rotr(x, 6), Rotr(x, 11)), Rotr(x, 25)) }

  function SmallSigma0(x: word): word { Xor(Xor(Rotr(x, 7), Rotr(x, 18)), Shr(x, 3)) }

  function SmallSigma1(x: word): word { Xor(Xor(Rotr(x, 17), Rotr(x, 19)), Shr(x, 10)) }

  lemma XorBit(x: word, y: word, i: nat)
    requires i < 32
    ensures Bit(Xor(x, y), i) == (Bit(x, i) != Bit(y, i))
  {
    BitwiseBit(XOR_OP, x, y, 32, i);
  }

  /** Bit `i` of the word rotated right by `n`. */
  predicate Turned(x: word, n: nat, i: nat) { Bit(x, (i + n) % 32) }

  lemma TurnedBit(x: word, n: nat, i: nat)
    requires n < 32 && i < 32
    ensures Bit(Rotr(x, n), i) == Turned(x, n, i)
  {
    hide Rotr, Bit;
    RotrBit(x, n, i);
  }

  /** The four functions bit by bit: each bit is the parity of three, and past the top of a shift there is none. */
  lemma SigmaBits(x: word, i: nat)
    requires i < 32
    ensures Bit(BigSigma0(x), i) <==> (Turned(x, 2, i) != Turned(x, 13, i)) != Turned(x, 22, i)
    ensures Bit(BigSigma1(x), i) <==> (Turned(x, 6, i) != Turned(x, 11, i)) != Turned(x, 25, i)
    ensures Bit(SmallSigma0(x), i) <==> (Turned(x, 7, i) != Turned(x, 18, i)) != (i + 3 < 32 && Bit(x, i + 3))
    ensures Bit(SmallSigma1(x), i) <==> (Turned(x, 17, i) != Turned(x, 19, i)) != (i + 10 < 32 && Bit(x, i + 10))
  {
    hide Xor, Rotr, Shr, Bit, Turned;
    ParityOfThree(Rotr(x, 2), Rotr(x, 13), Rotr(x, 22), i);
    ParityOfThree(Rotr(x, 6), Rotr(x, 11), Rotr(x, 25), i);
    ParityOfThree(Rotr(x, 7), Rotr(x, 18), Shr(x, 3), i);
    ParityOfThree(Rotr(x, 17), Rotr(x, 19), Shr(x, 10), i);
    TurnedBit(x, 2, i); TurnedBit(x, 13, i); TurnedBit(x, 22, i);
    TurnedBit(x, 6, i); TurnedBit(x, 11, i); TurnedBit(x, 25, i);
    TurnedBit(x, 7, i); TurnedBit(x, 18, i); ShiftedBit(x, 3, i);
    TurnedBit(x, 17, i); TurnedBit(x, 19, i); ShiftedBit(x, 10, i);
  }

  lemma ParityOfThree(x: word, y: word, z: word, i: nat)
    requires i < 32
    ensures Bit(Xor(Xor(x, y), z), i) == ((Bit(x, i) != Bit(y, i)) != Bit(z, i))
  {
    hide Xor, Bit;
    XorBit(Xor(x, y), z, i);
    XorBit(x, y, i);
  }

  lemma ShiftedBit(x: word, n: nat, i: nat)
    requires i < 32
    ensures Bit(Shr(x, n), i) == (i + n < 32 && Bit(x, i + n))
  {
    hide Shr, Bit;
    ShrBit(x, n, i);
    if i + n >= 32 {
      HighWordBit(x, i + n);
    }
  }

  // ---- Sections 4.2.2 and 5.3.3: the constants ----

  const K_ROWS: seq<seq<word>> := [
    [0x428a2f98, 0x71374491, 0xb5c0fbcf, 0xe9b5dba5, 0x3956c25b, 0x59f111f1, 0x923f82a4, 0xab1c5ed5],
    [0xd807aa98, 0x12835b01, 0x243185be, 0x550c7dc3, 0x72be5d74, 0x80deb1fe, 0x9bdc06a7, 0xc19bf174],
    [0xe49b69c1, 0xefbe4786, 0x0fc19dc6, 0x240ca1cc, 0x2de92c6f, 0x4a7484aa, 0x5cb0a9dc, 0x76f988da],
    [0x983e5152, 0xa831c66d, 0xb00327c8, 0xbf597fc7, 0xc6e00bf3, 0xd5a79147, 0x06ca6351, 0x14292967],
    [0x27b70a85, 0x2e1b2138, 0x4d2c6dfc, 0x53380d13, 0x650a7354, 0x766a0abb, 0x81c2c92e, 0x92722c85],
    [0xa2bfe8a1, 0xa81a664b, 0xc24b8b70, 0xc76c51a3, 0xd192e819, 0xd6990624, 0xf40e3585, 0x106aa070],
    [0x19a4c116, 0x1e376c08, 0x2748774c, 0x34b0bcb5, 0x391c0cb3, 0x4ed8aa4a, 0x5b9cca4f, 0x682e6ff3],
    [0x748f82ee, 0x78a5636f, 0x84c87814, 0x8cc70208, 0x90befffa, 0xa4506ceb, 0xbef9a3f7, 0xc67178f2]]

  const PRIME_ROWS: seq<seq<nat>> := [
    [2, 3, 5, 7, 11, 13, 17, 19],
    [23, 29, 31, 37, 41, 43, 47, 53],
    [59, 61, 67, 71, 73, 79, 83, 89],
    [97, 101, 103, 107, 109, 113, 127, 131],
    [137, 139, 149, 151, 157, 163, 167, 173],
    [179, 181, 191, 193, 197, 199, 211, 223],
    [227, 229, 233, 239, 241, 251, 257, 263],
    [269, 271, 277, 281, 283, 293, 307, 311]]

  function K(t: nat): word
    requires t < 64
  {
    K_ROWS[t / 8][t % 8]
  }

  function Prime(t: nat): nat
    requires t < 64
  {
    PRIME_ROWS[t / 8][t % 8]
  }

  /** `c` is the cube root of `p` to 32 fractional bits, rounded down. */
  predicate CubeRoot(p: nat, c: nat) {
    c * c * c <= p * 0x1_0000_0000_0000_0000_0000_0000 < (c + 1) * (c + 1) * (c + 1)
  }

  /** Section 4.2.2: constant `t` is the fraction of the cube root of the `t`-th prime. */
  ghost predicate DerivedFromPrime(t: nat)
    requires t < 64
  {
    exists c: nat :: CubeRoot(Prime(t), c) && K(t) == c % TWO32
  }

  lemma Derived(t: nat, p: nat, c: nat)
    requires t < 64 && Prime(t) == p && CubeRoot(p, c) && K(t) == c % TWO32
    ensures DerivedFromPrime(t)
  {
  }

  lemma ConstantsAreCubeRoots(t: nat)
    requires t < 64
    ensures DerivedFromPrime(t)
  {
    match t / 8 {
      case 0 => Row0(t);
      case 1 => Row1(t);
      case 2 => Row2(t);
      case 3 => Row3(t);
      case 4 => Row4(t);
      case 5 => Row5(t);
      case 6 => Row6(t);
      case _ => Row7(t);
    }
  }

  lemma Row0(t: nat)
    requires t / 8 == 0
    ensures DerivedFromPrime(t)
  {
    Derived(0, 2, 0x1_428a2f98); Derived(1, 3, 0x1_71374491);
    Derived(2, 5, 0x1_b5c0fbcf); Derived(3, 7, 0x1_e9b5dba5);
    Derived(4, 11, 0x2_3956c25b); Derived(5, 13, 0x2_59f111f1);
    Derived(6, 17, 0x2_923f82a4); Derived(7, 19, 0x2_ab1c5ed5);
  }

  lemma Row1(t: nat)
    requires t / 8 == 1
    ensures DerivedFromPrime(t)
  {
    Derived(8, 23, 0x2_d807aa98); Derived(9, 29, 0x3_12835b01);
    Derived(10, 31, 0x3_243185be); Derived(11, 37, 0x3_550c7dc3);
    Derived(12, 41, 0x3_72be5d74); Derived(13, 43, 0x3_80deb1fe);
    Derived(14, 47, 0x3_9bdc06a7); Derived(15, 53, 0x3_c19bf174);
  }

  lemma Row2(t: nat)
    requires t / 8 == 2
    ensures DerivedFromPrime(t)
  {
    Derived(16, 59, 0x3_e49b69c1); Derived(17, 61, 0x3_efbe4786);
    Derived(18, 67, 0x4_0fc19dc6); Derived(19, 71, 0x4_240ca1cc);
    Derived(20, 73, 0x4_2de92c6f); Derived(21, 79, 0x4_4a7484aa);
    Derived(22, 83, 0x4_5cb0a9dc); Derived(23, 89, 0x4_76f988da);
  }

  lemma Row3(t: nat)
    requires t / 8 == 3
    ensures DerivedFromPrime(t)
  {
    Derived(24, 97, 0x4_983e5152); Derived(25, 101, 0x4_a831c66d);
    Derived(26, 103, 0x4_b00327c8); Derived(27, 107, 0x4_bf597fc7);
    Derived(28, 109, 0x4_c6e00bf3); Derived(29, 113, 0x4_d5a79147);
    Derived(30, 127, 0x5_06ca6351); Derived(31, 131, 0x5_14292967);
  }

  lemma Row4(t: nat)
    requires t / 8 == 4
    ensures DerivedFromPrime(t)
  {
    Derived(32, 137, 0x5_27b70a85); Derived(33, 139, 0x5_2e1b2138);
    Derived(34, 149, 0x5_4d2c6dfc); Derived(35, 151, 0x5_53380d13);
    Derived(36, 157, 0x5_650a7354); Derived(37, 163, 0x5_766a0abb);
    Derived(38, 167, 0x5_81c2c92e); Derived(39, 173, 0x5_92722c85);
  }

  lemma Row5(t: nat)
    requires t / 8 == 5
    ensures DerivedFromPrime(t)
  {
    Derived(40, 179, 0x5_a2bfe8a1); Derived(41, 181, 0x5_a81a664b);
    Derived(42, 191, 0x5_c24b8b70); Derived(43, 193, 0x5_c76c51a3);
    Derived(44, 197, 0x5_d192e819); Derived(45, 199, 0x5_d6990624);
    Derived(46, 211, 0x5_f40e3585); Derived(47, 223, 0x6_106aa070);
  }

  lemma Row6(t: nat)
    requires t / 8 == 6
    ensures DerivedFromPrime(t)
  {
    Derived(48, 227, 0x6_19a4c116); Derived(49, 229, 0x6_1e376c08);
    Derived(50, 233, 0x6_2748774c); Derived(51, 239, 0x6_34b0bcb5);
    Derived(52, 241, 0x6_391c0cb3); Derived(53, 251, 0x6_4ed8aa4a);
    Derived(54, 257, 0x6_5b9cca4f); Derived(55, 263, 0x6_682e6ff3);
  }

  lemma Row7(t: nat)
    requires t / 8 == 7
    ensures DerivedFromPrime(t)
  {
    Derived(56, 269, 0x6_748f82ee); Derived(57, 271, 0x6_78a5636f);
    Derived(58, 277, 0x6_84c87814); Derived(59, 281, 0x6_8cc70208);
    Derived(60, 283, 0x6_90befffa); Derived(61, 293, 0x6_a4506ceb);
    Derived(62, 307, 0x6_bef9a3f7); Derived(63, 311, 0x6_c67178f2);
  }

  // ---- Section 6.2: the hash computation ----

  datatype Hash = Hash(a: word, b: word, c: word, d: word, e: word, f: word, g: word, h: word)

  const H0 := Hash(0x6a09e667, 0xbb67ae85, 0x3c6ef372, 0xa54ff53a, 0x510e527f, 0x9b05688c, 0x1f83d9ab, 0x5be0cd19)

  /** `c` is the square root of `p` to 32 fractional bits, rounded down. */
  predicate SquareRoot(p: nat, c: nat) { c * c <= p * 0x1_0000_0000_0000_0000 < (c + 1) * (c + 1) }

  /** The word is the fraction of the square root of the prime. */
  ghost predicate DerivedFromRoot(w: word, p: nat) {
    exists c: nat :: SquareRoot(p, c) && w == c % TWO32
  }

  lemma DerivedRoot(w: word, p: nat, c: nat)
    requires SquareRoot(p, c) && w == c % TWO32
    ensures DerivedFromRoot(w, p)
  {
  }

  /** Section 5.3.3: the initial hash value comes from the square roots of the first eight primes, in order. */
  lemma InitialValueIsSquareRoots()
    ensures DerivedFromRoot(H0.a, 2) && DerivedFromRoot(H0.b, 3)
    ensures DerivedFromRoot(H0.c, 5) && DerivedFromRoot(H0.d, 7)
    ensures DerivedFromRoot(H0.e, 11) && DerivedFromRoot(H0.f, 13)
    ensures DerivedFromRoot(H0.g, 17) && DerivedFromRoot(H0.h, 19)
  {
    DerivedRoot(H0.a, 2, 0x1_6a09e667); DerivedRoot(H0.b, 3, 0x1_bb67ae85);
    DerivedRoot(H0.c, 5, 0x2_3c6ef372); DerivedRoot(H0.d, 7, 0x2_a54ff53a);
    DerivedRoot(H0.e, 11, 0x3_510e527f); DerivedRoot(H0.f, 13, 0x3_9b05688c);
    DerivedRoot(H0.g, 17, 0x4_1f83d9ab); DerivedRoot(H0.h, 19, 0x4_5be0cd19);
  }

  /** Section 6.2.2, step 1: word `t` of the message schedule of block `m`. */
  function Schedule(m: seq<word>, t: nat): word
    requires |m| == 16
  {
    if t < 16 then m[t]
    else Add(Add(Add(SmallSigma1(Schedule(m, t - 2)), Schedule(m, t - 7)), SmallSigma0(Schedule(m, t - 15))),
             Schedule(m, t - 16))
  }

  /** Step 3: one round on the working variables. */
  function Round(s: Hash, k: word, w: word): Hash {
    var t1 := Add(Add(Add(Add(s.h, BigSigma1(s.e)), Ch(s.e, s.f, s.g)), k), w);
    var t2 := Add(BigSigma0(s.a), Maj(s.a, s.b, s.c));
    Hash(Add(t1, t2), s.a, s.b, s.c, Add(s.d, t1), s.e, s.f, s.g)
  }

  /** The working variables after `t` rounds on block `m` from `s`. */
  function Rounds(s: Hash, m: seq<word>, t: nat): Hash
    requires |m| == 16 && t <= 64
  {
    if t == 0 then s else Round(Rounds(s, m, t - 1), K(t - 1), Schedule(m, t - 1))
  }

  /** The working variable `a` after `t` rounds. */
  function A(s: Hash, m: seq<word>, t: nat): word
    requires |m| == 16 && t <= 64
  {
    Rounds(s, m, t).a
  }

  function E(s: Hash, m: seq<word>, t: nat): word
    requires |m| == 16 && t <= 64
  {
    Rounds(s, m, t).e
  }

  /** The other six variables are earlier values of `a` and `e`. */
  lemma EarlierValues(s: Hash, m: seq<word>, t: nat)
    requires |m| == 16 && 3 <= t <= 64
    ensures var r := Rounds(s, m, t);
            r.b == A(s, m, t - 1) && r.c == A(s, m, t - 2) && r.d == A(s, m, t - 3) &&
            r.f == E(s, m, t - 1) && r.g == E(s, m, t - 2) && r.h == E(s, m, t - 3)
  {
    hide Add, BigSigma0, BigSigma1, Ch, Maj, K, Schedule;
    assert Rounds(s, m, t - 1) == Round(Rounds(s, m, t - 2), K(t - 2), Schedule(m, t - 2));
    assert Rounds(s, m, t - 2) == Round(Rounds(s, m, t - 3), K(t - 3), Schedule(m, t - 3));
  }

  function FirstSum(s: Hash, m: seq<word>, t: nat): nat
    requires |m| == 16 && 3 <= t < 64
  {
    E(s, m, t - 3) + BigSigma1(E(s, m, t)) + Ch(E(s, m, t), E(s, m, t - 1), E(s, m, t - 2)) + K(t) + Schedule(m, t)
  }

  /** The rounds as a recurrence in two variables, every sum reduced once: from the fourth round on, the new `e` and
      `a` are determined by the four values of each before them. */
  lemma TwoVariableForm(s: Hash, m: seq<word>, t: nat)
    requires |m| == 16 && 3 <= t < 64
    ensures E(s, m, t + 1) == (A(s, m, t - 3) + FirstSum(s, m, t)) % TWO32
    ensures A(s, m, t + 1) ==
            (FirstSum(s, m, t) + BigSigma0(A(s, m, t)) + Maj(A(s, m, t), A(s, m, t - 1), A(s, m, t - 2))) % TWO32
  {
    hide BigSigma0, BigSigma1, Ch, Maj, K, Schedule;
    EarlierValues(s, m, t);
    var r := Rounds(s, m, t);
    var s1, ch, s0, maj := BigSigma1(r.e), Ch(r.e, r.f, r.g), BigSigma0(r.a), Maj(r.a, r.b, r.c);
    FiveReducedOnce(r.h, s1, ch, K(t), Schedule(m, t));
    SumsReducedOnce(r.h + s1 + ch + K(t) + Schedule(m, t), r.d, s0, maj);
  }

  lemma FiveReducedOnce(h: word, s1: word, ch: word, k: word, w: word)
    ensures Add(Add(Add(Add(h, s1), ch), k), w) == (h + s1 + ch + k + w) % TWO32
  {
    AddTwice(h + s1, ch);
    AddTwice(h + s1 + ch, k);
    AddTwice(h + s1 + ch + k, w);
  }

  lemma SumsReducedOnce(t1: nat, d: word, s0: word, maj: word)
    ensures Add(d, t1 % TWO32) == (d + t1) % TWO32
    ensures Add(t1 % TWO32, Add(s0, maj)) == (t1 + s0 + maj) % TWO32
  {
    AddTwice(t1, d);
    AddTwice(s0 + maj, t1 % TWO32);
    AddTwice(t1, s0 + maj);
  }

  lemma AddTwice(x: int, y: int)
    ensures (x % TWO32 + y) % TWO32 == (x + y) % TWO32
  {
  }

  /** Section 6.2.2, step 1: the schedule, the sum reduced once. */
  lemma ScheduleRecurrence(m: seq<word>, t: nat)
    requires |m| == 16 && t < 64
    ensures t < 16 ==> Schedule(m, t) == m[t]
    ensures t >= 16 ==>
              Schedule(m, t) == (SmallSigma1(Schedule(m, t - 2)) + Schedule(m, t - 7) +
                                 SmallSigma0(Schedule(m, t - 15)) + Schedule(m, t - 16)) % TWO32
  {
    hide SmallSigma0, SmallSigma1;
    if t >= 16 {
      var s1, s0 := SmallSigma1(Schedule(m, t - 2)), SmallSigma0(Schedule(m, t - 15));
      AddTwice(s1 + Schedule(m, t - 7), s0);
      AddTwice(s1 + Schedule(m, t - 7) + s0, Schedule(m, t - 16));
    }
  }

  /** Step 4: fold a block into the intermediate hash value. */
  function Compress(s: Hash, m: seq<word>): Hash
    requires |m| == 16
  {
    var r := Rounds(s, m, 64);
    Hash(Add(r.a, s.a), Add(r.b, s.b), Add(r.c, s.c), Add(r.d, s.d),
         Add(r.e, s.e), Add(r.f, s.f), Add(r.g, s.g), Add(r.h, s.h))
  }

  /** Section 5.1.1: the number of zero bytes between the 0x80 byte and the length. */
  function ZeroCount(len: nat): (k: nat)
    ensures k < 64 && (len + 1 + k) % 64 == 56
  {
    (119 - len % 64) % 64
  }

  /** ZeroCount is the least solution, as section 5.1.1 asks. */
  lemma ZeroCountIsLeast(len: nat, j: nat)
    requires (len + 1 + j) % 64 == 56
    ensures ZeroCount(len) <= j
  {
  }

  /** The 64-bit length block: a pair of words, high first (section 3.1, item 4). */
  function LengthBlock(bits: nat): (r: seq<byte>)
    ensures |r| == 8
  {
    WordBytes(bits / TWO32 % TWO32) + WordBytes(bits % TWO32)
  }

  function PaddedLength(len: nat): (n: nat)
    ensures n == len + 1 + ZeroCount(len) + 8 && n % 64 == 0
  {
    (len + 8) / 64 * 64 + 64
  }

  /** Section 5.1.1 for a message of whole bytes (`bits` < 2^64 is the standard's own range). */
  function Pad(msg: seq<byte>): (p: seq<byte>)
    ensures |p| == PaddedLength(|msg|)
  {
    msg + [0x80] + Zeros(ZeroCount(|msg|)) + LengthBlock(8 * |msg|)
  }

  /** What the padding holds: the message, a one bit and zeros up to the last eight bytes, and in those the length in
      bits, most significant byte first. */
  lemma PadMeans(msg: seq<byte>)
    requires 8 * |msg| < TWO32 * TWO32
    ensures var (p, n) := (Pad(msg), PaddedLength(|msg|));
            |p| == n && n % 64 == 0 && |msg| + 9 <= n < |msg| + 73 &&
            p[..|msg|] == msg && p[|msg|] == 0x80 && (forall i :: |msg| < i < n - 8 ==> p[i] == 0) &&
            8 * |msg| == BytesWord(p[n - 8], p[n - 7], p[n - 6], p[n - 5]) * TWO32 +
                         BytesWord(p[n - 4], p[n - 3], p[n - 2], p[n - 1])
  {
    hide WordBytes, BytesWord, ZeroCount, PaddedLength;
    var bits := 8 * |msg|;
    WordBytesRoundTrip(bits / TWO32 % TWO32);
    WordBytesRoundTrip(bits % TWO32);
    var p, n := Pad(msg), PaddedLength(|msg|);
    assert p[n - 8..] == LengthBlock(bits);
    assert p[n - 8..n - 4] == WordBytes(bits / TWO32 % TWO32) && p[n - 4..n] == WordBytes(bits % TWO32);
  }

  /** Section 5.2.1: block `i` of a padded message as sixteen words. */
  function Block(p: seq<byte>, i: nat): (m: seq<word>)
    requires 64 * i + 64 <= |p|
    ensures |m| == 16
  {
    seq(16, j requires 0 <= j < 16 =>
      BytesWord(p[64 * i + 4 * j], p[64 * i + 4 * j + 1], p[64 * i + 4 * j + 2], p[64 * i + 4 * j + 3]))
  }

  /** The hash value after the first `n` blocks. */
  function Absorb(p: seq<byte>, n: nat): Hash
    requires 64 * n <= |p|
  {
    if n == 0 then H0 else Compress(Absorb(p, n - 1), Block(p, n - 1))
  }

  /** The bytes of words, one after another. */
  function Flatten(ws: seq<word>): (r: seq<byte>)
    ensures |r| == 4 * |ws|
  {
    if ws == [] then [] else Flatten(ws[..|ws| - 1]) + WordBytes(ws[|ws| - 1])
  }

  function Digest(s: Hash): (d: seq<byte>)
    ensures |d| == 32
  {
    Flatten([s.a, s.b, s.c, s.d, s.e, s.f, s.g, s.h])
  }

  function Parts(s: Hash): seq<word> { [s.a, s.b, s.c, s.d, s.e, s.f, s.g, s.h] }

  /** Word by word, the difference modulo 2^32. */
  function Difference(x: Hash, y: Hash): Hash {
    Hash((x.a - y.a) % TWO32, (x.b - y.b) % TWO32, (x.c - y.c) % TWO32, (x.d - y.d) % TWO32,
         (x.e - y.e) % TWO32, (x.f - y.f) % TWO32, (x.g - y.g) % TWO32, (x.h - y.h) % TWO32)
  }

  /** Folding a block adds what the rounds make of the hash value to the value itself. */
  lemma FeedForward(s: Hash, m: seq<word>)
    requires |m| == 16
    ensures Difference(Compress(s, m), s) == Rounds(s, m, 64)
  {
    hide Rounds, Add;
    var r := Rounds(s, m, 64);
    AddThenTake(r.a, s.a); AddThenTake(r.b, s.b); AddThenTake(r.c, s.c); AddThenTake(r.d, s.d);
    AddThenTake(r.e, s.e); AddThenTake(r.f, s.f); AddThenTake(r.g, s.g); AddThenTake(r.h, s.h);
  }

  lemma AddThenTake(x: word, y: word)
    ensures (Add(x, y) - y) % TWO32 == x
  {
  }

  /** The words of the digest, in order, most significant byte first. */
  lemma DigestReadsBack(s: Hash, i: nat)
    requires i < 8
    ensures var d := Digest(s);
            BytesWord(d[4 * i], d[4 * i + 1], d[4 * i + 2], d[4 * i + 3]) == Parts(s)[i]
  {
    hide WordBytes, BytesWord;
    var ws := Parts(s);
    FlattenAt(ws, i);
    WordBytesRoundTrip(ws[i]);
  }

  lemma {:induction false} FlattenAt(ws: seq<word>, i: nat)
    requires i < |ws|
    ensures Flatten(ws)[4 * i..4 * i + 4] == WordBytes(ws[i])
  {
    hide WordBytes;
    var n := |ws| - 1;
    if i < n {
      FlattenAt(ws[..n], i);
      assert Flatten(ws)[4 * i..4 * i + 4] == Flatten(ws[..n])[4 * i..4 * i + 4];
    }
  }

  function Sha256(msg: seq<byte>): (d: seq<byte>)
    ensures |d| == 32
  {
    var p := Pad(msg);
    Digest(Absorb(p, |p| / 64))
  }

  /** `m` is block `i` of the padded message `p`: sixteen words, the most significant byte first. */
  ghost predicate IsBlock(p: seq<byte>, i: nat, m: seq<word>) {
    |m| == 16 && 64 * i + 64 <= |p| &&
    forall j :: 0 <= j < 16 ==>
      m[j] == p[64 * i + 4 * j] as int * 0x100_0000 + p[64 * i + 4 * j + 1] as int * 0x1_0000 +
              p[64 * i + 4 * j + 2] as int * 0x100 + p[64 * i + 4 * j + 3]
  }

  /** `values` runs from the initial hash value, folding in the blocks of the padded message one after another. */
  ghost predicate IsFold(p: seq<byte>, blocks: seq<seq<word>>, values: seq<Hash>) {
    && |blocks| == |p| / 64 && |values| == |blocks| + 1 && values[0] == H0
    && forall i :: 0 <= i < |blocks| ==> IsBlock(p, i, blocks[i]) && values[i + 1] == Compress(values[i], blocks[i])
  }

  /** The hash is the digest of the last of them. */
  lemma Sha256Means(msg: seq<byte>, blocks: seq<seq<word>>, values: seq<Hash>)
    requires IsFold(Pad(msg), blocks, values)
    ensures Sha256(msg) == Digest(values[|values| - 1])
  {
    hide Compress, Digest, Pad;
    FoldIsAbsorb(Pad(msg), blocks, values, |blocks|);
  }

  lemma {:induction false} FoldIsAbsorb(p: seq<byte>, blocks: seq<seq<word>>, values: seq<Hash>, n: nat)
    requires IsFold(p, blocks, values) && n <= |blocks|
    ensures values[n] == Absorb(p, n)
  {
    hide Compress;
    if n > 0 {
      FoldIsAbsorb(p, blocks, values, n - 1);
      assert IsBlock(p, n - 1, blocks[n - 1]);
      BlockIs(p, n - 1, blocks[n - 1]);
    }
  }

  lemma BlockIs(p: seq<byte>, i: nat, m: seq<word>)
    requires IsBlock(p, i, m)
    ensures m == Block(p, i)
  {
    forall j | 0 <= j < 16
      ensures m[j] == Block(p, i)[j]
    {
      var at := 64 * i + 4 * j;
      assert Block(p, i)[j] == BytesWord(p[at], p[at + 1], p[at + 2], p[at + 3]);
    }
  }
}
