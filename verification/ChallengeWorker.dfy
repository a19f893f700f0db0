/** The browser worker's hand-written SHA-256 and HMAC over typed arrays. A thrown
    RangeError (a typed array too small or of negative length) is an outcome, not a precondition. */
module ChallengeWorker {
  import opened Word
  import opened Fips180
  import opened Rfc2104
  import opened JsNumber
  import opened ImageChain

  datatype Outcome<T> = RangeError | Done(value: T)

  /** The longest message the worker can hash: one byte more needs a buffer of 2^31 bytes. */
  const MAX_MESSAGE: int := 0x8000_0000 - 73

  function JsRotr(x: Number, n: nat): (r: Int32)
    requires n <= 32
    ensures ToUint32(r) == Rotr(ToUint32(x), n)
  {
    BitOr(ShiftRightUnsigned(x, n), ShiftLeft(x, 32 - n))
  }

  // ---- The padded size ----

  /** `(((l + 8) >> 6) + 1) << 6` */
  function WithPad(l: nat): Int32
    requires l <= MAX_SAFE - 8
  {
    ShiftLeft(ShiftRight(l + 8, 6) + 1, 6)
  }

  lemma HalveThrice(x: Int32, n: nat)
    ensures Halve(x, n + 3) == Halve(x / 8, n)
  {
    assert Halve(x, n + 3) == Halve(x / 2, n + 2) == Halve(x / 2 / 2, n + 1) == Halve(x / 2 / 2 / 2, n);
  }

  lemma WrapShift(a: int, k: int)
    ensures ToUint32(a + TWO32 * k) == ToUint32(a)
  {
  }

  lemma DoubleThrice(a: int, n: nat)
    ensures Shl(ToUint32(a), n + 3) == Shl(ToUint32(8 * a), n)
  {
    DoubleOnce(a, n + 2);
    DoubleOnce(2 * a, n + 1);
    DoubleOnce(4 * a, n);
  }

  lemma DoubleOnce(a: int, n: nat)
    ensures Shl(ToUint32(a), n + 1) == Shl(ToUint32(2 * a), n)
  {
    WrapShift(2 * ToUint32(a), 2 * (a / TWO32));
    assert 2 * ToUint32(a) + TWO32 * (2 * (a / TWO32)) == 2 * a;
  }

  lemma ShiftRightBy6(x: Number)
    ensures ShiftRight(x, 6) == ToInt32(x) / 64
  {
    HalveThrice(ToInt32(x), 3);
    HalveThrice(ToInt32(x) / 8, 0);
  }

  lemma ShiftLeftBy6(x: Number)
    requires -MAX_SAFE <= 64 * x <= MAX_SAFE
    ensures ShiftLeft(x, 6) == ToInt32(64 * x)
  {
    DoubleThrice(x, 3);
    DoubleThrice(8 * x, 0);
  }

  lemma WithPadValue(l: nat)
    requires l <= MAX_SAFE - 8
    ensures WithPad(l) == ToInt32(64 * (ToInt32(l + 8) / 64 + 1))
  {
    hide ShiftLeft, ShiftRight;
    ShiftRightBy6(l + 8);
    ShiftLeftBy6(ShiftRight(l + 8, 6) + 1);
  }

  lemma WrappedMultiple(k: int)
    ensures ToInt32(64 * k) <= 0x8000_0000 - 64
  {
    var q := 64 * k / TWO32;
    assert ToUint32(64 * k) == 64 * (k - q * 0x400_0000);
  }

  /** Exactly the messages up to MAX_MESSAGE get a buffer; for those it is the padded length. */
  lemma WithPadIsPaddedLength(l: nat)
    requires l <= MAX_SAFE - 8
    ensures l <= MAX_MESSAGE <==> l <= WithPad(l)
    ensures l <= MAX_MESSAGE ==> WithPad(l) == PaddedLength(l)
  {
    hide WithPad, ZeroCount;
    WithPadValue(l);
    if l < 0x8000_0000 - 8 {
      assert ToInt32(l + 8) == l + 8;
    } else {
      hide ToInt32;
      WrappedMultiple(ToInt32(l + 8) / 64 + 1);
    }
  }

  /** The padded size is the least multiple of 64 that leaves room for the nine added bytes. */
  lemma WithPadIsLeast(l: nat, n: nat)
    requires l <= MAX_MESSAGE && n % 64 == 0 && n >= l + 9
    ensures WithPad(l) % 64 == 0 && l + 9 <= WithPad(l) <= n
  {
    hide WithPad;
    WithPadIsPaddedLength(l);
  }

  // ---- DataView accessors ----

  function GetUint32(m: array<byte>, off: nat): word
    requires off + 4 <= m.Length
    reads m
  {
    BytesWord(m[off], m[off + 1], m[off + 2], m[off + 3])
  }

  method SetUint32(m: array<byte>, off: nat, value: Number)
    requires off + 4 <= m.Length
    modifies m
    ensures m[..] == old(m[..off]) + WordBytes(ToUint32(value)) + old(m[off + 4..])
  {
    var b := WordBytes(ToUint32(value));
    m[off], m[off + 1], m[off + 2], m[off + 3] := b[0], b[1], b[2], b[3];
  }

  // ---- The block loop ----

  /** `rotr(x, 7) ^ rotr(x, 18) ^ (x >>> 3)` */
  function S0(x: word): (r: Int32)
    ensures ToUint32(r) == SmallSigma0(x)
  {
    hide Xor, Rotr, Shr, BitXor, JsRotr, ShiftRightUnsigned;
    BitXor(BitXor(JsRotr(x, 7), JsRotr(x, 18)), ShiftRightUnsigned(x, 3))
  }

  /** `rotr(x, 17) ^ rotr(x, 19) ^ (x >>> 10)` */
  function S1(x: word): (r: Int32)
    ensures ToUint32(r) == SmallSigma1(x)
  {
    hide Xor, Rotr, Shr, BitXor, JsRotr, ShiftRightUnsigned;
    BitXor(BitXor(JsRotr(x, 17), JsRotr(x, 19)), ShiftRightUnsigned(x, 10))
  }

  /** The mixed signed and unsigned sum that extends the schedule. */
  function NextWord(w16: word, w15: word, w7: word, w2: word): (r: Int32)
    ensures ToUint32(r) == Add(Add(Add(SmallSigma1(w2), w7), SmallSigma0(w15)), w16)
  {
    hide S0, S1, SmallSigma0, SmallSigma1, Add;
    SumOfFour(w16, S0(w15), w7, S1(w2));
    ToInt32(Plus(Plus(Plus(w16, S0(w15)), w7), S1(w2)))
  }

  lemma SumOfFour(a: int, b: int, c: int, d: int)
    ensures ToUint32(a + b + c + d) ==
            Add(Add(Add(ToUint32(d), ToUint32(c)), ToUint32(b)), ToUint32(a))
  {
    PlusIsAdd(d, c);
    PlusIsAdd(d + c, b);
    PlusIsAdd(d + c + b, a);
  }

  /** The two loops that fill `w` from the block at `off`. */
  method FillSchedule(m: array<byte>, off: nat, w: array<word>)
    requires off % 64 == 0 && off + 64 <= m.Length && w.Length == 64
    modifies w
    ensures forall i :: 0 <= i < 64 ==> w[i] == Schedule(Block(m[..], off / 64), i)
  {
    hide NextWord, SmallSigma0, SmallSigma1, Add, BytesWord;
    ghost var block := Block(m[..], off / 64);
    assert 64 * (off / 64) == off;
    for i := 0 to 16
      invariant forall j :: 0 <= j < i ==> w[j] == block[j]
    {
      w[i] := GetUint32(m, off + i * 4);
    }
    ExtendSchedule(block, w);
  }

  method ExtendSchedule(ghost block: seq<word>, w: array<word>)
    requires |block| == 16 && w.Length == 64 && w[..16] == block
    modifies w
    ensures forall i :: 0 <= i < 64 ==> w[i] == Schedule(block, i)
  {
    hide NextWord, SmallSigma0, SmallSigma1, Add;
    for i := 16 to 64
      invariant forall j :: 0 <= j < i ==> w[j] == Schedule(block, j)
    {
      w[i] := ToUint32(NextWord(w[i - 16], w[i - 15], w[i - 7], w[i - 2]));
    }
  }

  /** `rotr(e, 6) ^ rotr(e, 11) ^ rotr(e, 25)` */
  function BigS1(e: Number): (r: Int32)
    ensures ToUint32(r) == BigSigma1(ToUint32(e))
  {
    hide Xor, Rotr, BitXor, JsRotr;
    BitXor(BitXor(JsRotr(e, 6), JsRotr(e, 11)), JsRotr(e, 25))
  }

  /** `rotr(a, 2) ^ rotr(a, 13) ^ rotr(a, 22)` */
  function BigS0(a: Number): (r: Int32)
    ensures ToUint32(r) == BigSigma0(ToUint32(a))
  {
    hide Xor, Rotr, BitXor, JsRotr;
    BitXor(BitXor(JsRotr(a, 2), JsRotr(a, 13)), JsRotr(a, 22))
  }

  /** `(e & f) ^ (~e & g)` */
  function JsCh(e: Number, f: Number, g: Number): (r: Int32)
    ensures ToUint32(r) == Ch(ToUint32(e), ToUint32(f), ToUint32(g))
  {
    hide Xor, And, Not, BitXor, BitAnd, BitNot;
    BitXor(BitAnd(e, f), BitAnd(BitNot(e), g))
  }

  /** `(a & b) ^ (a & c) ^ (b & c)` */
  function JsMaj(a: Number, b: Number, c: Number): (r: Int32)
    ensures ToUint32(r) == Maj(ToUint32(a), ToUint32(b), ToUint32(c))
  {
    hide Xor, And, BitXor, BitAnd;
    BitXor(BitXor(BitAnd(a, b), BitAnd(a, c)), BitAnd(b, c))
  }

  /** A variable of the hash: an unsigned constant at first, a signed 32-bit value after `| 0`. */
  type Register = x: int | -0x8000_0000 <= x < 0x1_0000_0000

  function T1(e: Register, f: Register, g: Register, h: Register, k: word, w: word): (r: Int32)
    ensures ToUint32(r) ==
            Add(Add(Add(Add(ToUint32(h), BigSigma1(ToUint32(e))), Ch(ToUint32(e), ToUint32(f), ToUint32(g))), k), w)
  {
    hide BigS1, JsCh, BigSigma1, Ch, ToInt32, Add;
    var s1, ch := BigS1(e), JsCh(e, f, g);
    SumOfFive(h, s1, ch, k, w);
    ToInt32(Plus(Plus(Plus(Plus(h, s1), ch), k), w))
  }

  lemma SumOfFive(a: int, b: int, c: int, d: word, e: word)
    ensures ToUint32(a + b + c + d + e) == Add(Add(Add(Add(ToUint32(a), ToUint32(b)), ToUint32(c)), d), e)
  {
    hide Add;
    PlusIsAdd(a, b);
    PlusIsAdd(a + b, c);
    PlusIsAdd(a + b + c, d);
    PlusIsAdd(a + b + c + d, e);
  }

  function T2(a: Register, b: Register, c: Register): (r: Int32)
    ensures ToUint32(r) == Add(BigSigma0(ToUint32(a)), Maj(ToUint32(a), ToUint32(b), ToUint32(c)))
  {
    hide BigS0, JsMaj, BigSigma0, Maj;
    PlusIsAdd(BigS0(a), JsMaj(a, b, c));
    ToInt32(Plus(BigS0(a), JsMaj(a, b, c)))
  }

  /** `(x + y) | 0` */
  function Sum(x: Register, y: Register): (r: Int32)
    ensures ToUint32(r) == Add(ToUint32(x), ToUint32(y))
  {
    PlusIsAdd(x, y);
    ToInt32(Plus(x, y))
  }

  /** The eight registers read as 32-bit words. */
  function Words(a: Register, b: Register, c: Register, d: Register,
                 e: Register, f: Register, g: Register, h: Register): Hash {
    Hash(ToUint32(a), ToUint32(b), ToUint32(c), ToUint32(d), ToUint32(e), ToUint32(f), ToUint32(g), ToUint32(h))
  }

  /** The round loop and the additions after it. */
  method CompressBlock(h0: Register, h1: Register, h2: Register, h3: Register,
                       h4: Register, h5: Register, h6: Register, h7: Register,
                       w: array<word>, ghost block: seq<word>)
    returns (r0: Register, r1: Register, r2: Register, r3: Register,
             r4: Register, r5: Register, r6: Register, r7: Register)
    requires w.Length == 64 && |block| == 16
    requires forall i :: 0 <= i < 64 ==> w[i] == Schedule(block, i)
    ensures Words(r0, r1, r2, r3, r4, r5, r6, r7) == Compress(Words(h0, h1, h2, h3, h4, h5, h6, h7), block)
  {
    hide ToUint32, T1, T2, Sum, BigSigma0, BigSigma1, Ch, Maj, Schedule, K;
    ghost var start := Words(h0, h1, h2, h3, h4, h5, h6, h7);
    var a: Register, b: Register, c: Register, d: Register := h0, h1, h2, h3;
    var e: Register, f: Register, g: Register, h: Register := h4, h5, h6, h7;
    for i := 0 to 64
      invariant Words(a, b, c, d, e, f, g, h) == Rounds(start, block, i)
    {
      var t1 := T1(e, f, g, h, K(i), w[i]);
      var t2 := T2(a, b, c);
      h := g;
      g := f;
      f := e;
      e := Sum(d, t1);
      d := c;
      c := b;
      b := a;
      a := Sum(t1, t2);
    }
    r0, r1, r2, r3 := Sum(h0, a), Sum(h1, b), Sum(h2, c), Sum(h3, d);
    r4, r5, r6, r7 := Sum(h4, e), Sum(h5, f), Sum(h6, g), Sum(h7, h);
  }

  // ---- sha256 ----

  /** Allocate and pad; a buffer of negative length, or one too short to `set` the message, throws. */
  method PaddedBuffer(msg: array<byte>) returns (r: Outcome<array<byte>>)
    requires msg.Length <= MAX_SAFE - 8
    ensures r.Done? <==> msg.Length <= MAX_MESSAGE
    ensures r.Done? ==> fresh(r.value) && r.value[..] == Pad(msg[..])
  {
    hide WithPad, ZeroCount, PaddedLength, ToUint32;
    var l := msg.Length;
    var withPad := WithPad(l);
    WithPadIsPaddedLength(l);
    if withPad < 0 || withPad < l {
      return RangeError;
    }
    var m := new byte[withPad](_ => 0);
    forall i | 0 <= i < l {
      m[i] := msg[i];
    }
    m[l] := 0x80;
    ghost var body := msg[..] + [0x80] + Zeros(ZeroCount(l));
    assert m[..] == body + Zeros(8);
    WriteLength(m, body, l * 8);  // exact at any size: a product by a power of two
    r := Done(m);
  }

  method WriteLength(m: array<byte>, ghost body: seq<byte>, bitLen: nat)
    requires m[..] == body + Zeros(8)
    modifies m
    ensures m[..] == body + LengthBlock(bitLen)
  {
    hide WordBytes;
    var at := m.Length - 8;
    assert m[..at] == body && m[at + 4..] == Zeros(4);
    SetUint32(m, at, ToUint32(bitLen / TWO32));
    ghost var high := body + WordBytes(ToUint32(bitLen / TWO32));
    assert m[..] == high + Zeros(4);
    assert m[..at + 4] == high && m[at + 8..] == [];
    SetUint32(m, at + 4, ToUint32(bitLen));
    assert m[..] == high + WordBytes(ToUint32(bitLen));
  }

  method WriteDigest(h0: Register, h1: Register, h2: Register, h3: Register,
                     h4: Register, h5: Register, h6: Register, h7: Register)
    returns (out: array<byte>)
    ensures fresh(out) && out[..] == Digest(Words(h0, h1, h2, h3, h4, h5, h6, h7))
  {
    hide ToUint32, WordBytes;
    var hs := [h0, h1, h2, h3, h4, h5, h6, h7];
    ghost var ws := [ToUint32(h0), ToUint32(h1), ToUint32(h2), ToUint32(h3),
                     ToUint32(h4), ToUint32(h5), ToUint32(h6), ToUint32(h7)];
    out := new byte[32](_ => 0);
    for i := 0 to 8
      invariant out[..4 * i] == Flatten(ws[..i])
    {
      SetUint32(out, i * 4, hs[i]);
      assert out[..4 * (i + 1)] == Flatten(ws[..i]) + WordBytes(ws[i]);
      assert ws[..i + 1][..i] == ws[..i];
    }
    assert out[..32] == out[..] && ws[..8] == ws;
  }

  method Sha256InPlace(msg: array<byte>) returns (r: Outcome<array<byte>>)
    requires msg.Length <= MAX_SAFE - 8
    ensures r.Done? <==> msg.Length <= MAX_MESSAGE
    ensures r.Done? ==> fresh(r.value) && r.value[..] == Sha256(msg[..])
  {
    var buffer := PaddedBuffer(msg);
    if buffer.RangeError? {
      return RangeError;
    }
    var out := HashBlocks(buffer.value);
    r := Done(out);
  }

  method HashBlocks(m: array<byte>) returns (out: array<byte>)
    requires m.Length % 64 == 0
    ensures fresh(out) && out[..] == Digest(Absorb(m[..], m.Length / 64))
  {
    hide Compress, Block, Schedule;
    ghost var padded := m[..];
    var h0: Register, h1: Register, h2: Register, h3: Register := 0x6a09e667, 0xbb67ae85, 0x3c6ef372, 0xa54ff53a;
    var h4: Register, h5: Register, h6: Register, h7: Register := 0x510e527f, 0x9b05688c, 0x1f83d9ab, 0x5be0cd19;
    var w := new word[64](_ => 0);
    var off := 0;
    while off < m.Length
      invariant off % 64 == 0 && off <= m.Length && m[..] == padded
      invariant Words(h0, h1, h2, h3, h4, h5, h6, h7) == Absorb(padded, off / 64)
    {
      FillSchedule(m, off, w);
      h0, h1, h2, h3, h4, h5, h6, h7 :=
        CompressBlock(h0, h1, h2, h3, h4, h5, h6, h7, w, Block(padded, off / 64));
      off := off + 64;
    }
    out := WriteDigest(h0, h1, h2, h3, h4, h5, h6, h7);
  }

  // ---- hmacSha256 ----

  method Concat(a: array<byte>, b: array<byte>) returns (c: array<byte>)
    ensures fresh(c) && c[..] == a[..] + b[..]
  {
    c := new byte[a.Length + b.Length](_ => 0);
    forall i | 0 <= i < a.Length {
      c[i] := a[i];
    }
    forall i | 0 <= i < b.Length {
      c[a.Length + i] := b[i];
    }
  }

  /** `kp`: the key, hashed first when it is long, at the front of a zeroed block. */
  method KeyBlock(key: array<byte>) returns (r: Outcome<array<byte>>)
    requires key.Length <= MAX_SAFE - 8
    ensures r.Done? <==> key.Length <= MAX_MESSAGE
    ensures r.Done? ==> fresh(r.value) && r.value[..] == BlockKey(key[..])
  {
    hide Sha256;
    ghost var keyBytes := key[..];
    var k := key;
    if k.Length > B {
      var hashed := Sha256InPlace(k);
      if hashed.RangeError? {
        return RangeError;
      }
      k := hashed.value;
    }
    ghost var used := if |keyBytes| > B then Sha256(keyBytes) else keyBytes;
    assert k[..] == used;
    assert |k[..]| == k.Length <= B;
    var kp := new byte[B](_ => 0);
    forall i | 0 <= i < k.Length {
      kp[i] := k[i];
    }
    assert kp[..] == used + Zeros(B - |used|);
    assert key[..] == keyBytes;
    assert BlockKey(keyBytes) == used + Zeros(B - |used|);
    r := Done(kp);
  }

  /** The loop that fills `ipad` and `opad`. */
  method KeyPads(kp: array<byte>) returns (ipad: array<byte>, opad: array<byte>)
    requires kp.Length == B
    ensures fresh(ipad) && ipad[..] == XorPad(kp[..], 0x36)
    ensures fresh(opad) && opad[..] == XorPad(kp[..], 0x5c)
  {
    hide XorByte;
    ipad, opad := new byte[B](_ => 0), new byte[B](_ => 0);
    for i := 0 to B
      invariant forall j :: 0 <= j < i ==> ipad[j] == XorByte(kp[j], 0x36) && opad[j] == XorByte(kp[j], 0x5c)
    {
      ipad[i] := XorByte(kp[i], 0x36);
      opad[i] := XorByte(kp[i], 0x5c);
    }
  }

  /** `hmacSha256` is HMAC for every key and message it does not reject for size. */
  method HmacSha256(key: array<byte>, msg: array<byte>) returns (r: Outcome<array<byte>>)
    requires key.Length <= MAX_SAFE - 8 && msg.Length <= MAX_SAFE - 8 - B
    ensures r.Done? <==> key.Length <= MAX_MESSAGE && B + msg.Length <= MAX_MESSAGE
    ensures r.Done? ==> fresh(r.value) && r.value[..] == Hmac(key[..], msg[..])
  {
    hide XorPad, BlockKey, Sha256;
    var kp := KeyBlock(key);
    if kp.RangeError? {
      return RangeError;
    }
    assert |kp.value[..]| == B;
    var ipad, opad := KeyPads(kp.value);
    assert |ipad[..]| == B && |opad[..]| == B;
    var inner := Concat(ipad, msg);
    assert |inner[..]| == B + msg.Length;
    var innerHash := Sha256InPlace(inner);
    if innerHash.RangeError? {
      return RangeError;
    }
    assert |innerHash.value[..]| == 32;
    var outer := Concat(opad, innerHash.value);
    assert |outer[..]| == B + 32;
    r := Sha256InPlace(outer);
  }

  // ---- imageDigest ----

  /** `rgba.length >> 2`: wraps to a negative or a small count from 2^31 bytes on. */
  function PixelCount(len: nat): (n: Int32)
    requires len <= MAX_SAFE
    ensures 4 * n <= len
    ensures len < 0x8000_0000 ==> n == len / 4
  {
    assert Halve(ToInt32(len), 2) == Halve(ToInt32(len) / 2, 1) == Halve(ToInt32(len) / 2 / 2, 0);
    ShiftRight(len, 2)
  }

  /** The most pixels whose retained hashes still fit one worker hash: 2^26 - 3. */
  const MAX_PIXELS: int := 0x400_0000 - 3

  /** `dst.set(src, at)` */
  method CopyInto(dst: array<byte>, src: array<byte>, at: nat)
    requires dst != src && at + src.Length <= dst.Length
    modifies dst
    ensures dst[..] == old(dst[..at]) + src[..] + old(dst[at + src.Length..])
  {
    forall i | 0 <= i < src.Length {
      dst[at + i] := src[i];
    }
  }

  /** `store.set(h, i * 32)`: slot `i` changes and no other. */
  method StoreAt(store: array<byte>, h: array<byte>, i: nat)
    requires store != h && h.Length == 32 && 32 * i + 32 <= store.Length
    modifies store
    ensures store[32 * i..32 * i + 32] == h[..]
    ensures forall j: nat :: j != i && 32 * j + 32 <= store.Length ==>
                             store[32 * j..32 * j + 32] == old(store[32 * j..32 * j + 32])
  {
    CopyInto(store, h, i * 32);
    forall j: nat | j != i && 32 * j + 32 <= store.Length
      ensures store[32 * j..32 * j + 32] == old(store[32 * j..32 * j + 32])
    {
      assert 32 * j + 32 <= 32 * i || 32 * j >= 32 * i + 32;
    }
  }

  /** The forward pass: all retained hashes side by side. */
  method RetainHashes(rgba: array<byte>, n: nat) returns (store: array<byte>)
    requires 4 * n <= rgba.Length
    ensures fresh(store) && store.Length == 32 * n
    ensures forall j :: 0 <= j < n ==> store[32 * j..32 * j + 32] == ChainHash(rgba[..], j + 1)
  {
    hide Sha256;
    var h := new byte[32](_ => 0);
    assert h[..] == IV;
    store := new byte[n * 32](_ => 0);
    var buf := new byte[36](_ => 0);
    for i := 0 to n
      invariant fresh(h) && h != store && h != buf
      invariant h[..] == ChainHash(rgba[..], i)
      invariant forall j :: 0 <= j < i ==> store[32 * j..32 * j + 32] == ChainHash(rgba[..], j + 1)
    {
      h := NextHash(rgba, i, h, buf);
      StoreAt(store, h, i);
    }
  }

  /** One link: fill `buf` with the pixel and the previous hash, and hash it. */
  method NextHash(rgba: array<byte>, i: nat, h: array<byte>, buf: array<byte>) returns (next: array<byte>)
    requires 4 * i + 4 <= rgba.Length && buf != rgba && buf != h && buf.Length == 36
    requires h[..] == ChainHash(rgba[..], i)
    modifies buf
    ensures fresh(next) && next.Length == 32 && next[..] == ChainHash(rgba[..], i + 1)
  {
    hide Sha256;
    assert h.Length == |h[..]| == 32;
    buf[0] := rgba[i * 4];
    buf[1] := rgba[i * 4 + 1];
    buf[2] := rgba[i * 4 + 2];
    buf[3] := rgba[i * 4 + 3];
    CopyInto(buf, h, 4);
    assert buf[..] == rgba[..][4 * i..4 * (i + 1)] + h[..];
    var hashed := Sha256InPlace(buf);
    next := hashed.value;
    assert next.Length == |next[..]|;
  }

  /** The backward pass: slot `i` receives slot `n - 1 - i`. */
  method ReverseSlots(store: array<byte>, n: nat) returns (rev: array<byte>)
    requires store.Length == 32 * n
    ensures fresh(rev) && rev.Length == 32 * n
    ensures forall j :: 0 <= j < n ==> rev[32 * j..32 * j + 32] == store[32 * (n - 1 - j)..32 * (n - j)]
  {
    rev := new byte[n * 32](_ => 0);
    for i := 0 to n
      invariant forall j :: 0 <= j < i ==> rev[32 * j..32 * j + 32] == store[32 * (n - 1 - j)..32 * (n - j)]
    {
      var slot := Subarray(store, (n - 1 - i) * 32, (n - i) * 32);
      StoreAt(rev, slot, i);
    }
  }

  method Subarray(a: array<byte>, lo: nat, hi: nat) returns (r: array<byte>)
    requires lo <= hi <= a.Length
    ensures fresh(r) && r.Length == hi - lo && r[..] == a[lo..hi]
  {
    r := new byte[hi - lo](i requires lo <= lo + i < a.Length reads a => a[lo + i]);
  }

  lemma PixelCountValue(len: nat)
    requires len <= MAX_SAFE
    ensures len < TWO32 ==> (0 <= PixelCount(len) <= MAX_PIXELS <==> len / 4 <= MAX_PIXELS)
    ensures len < TWO32 && 0 <= PixelCount(len) ==> PixelCount(len) == len / 4
  {
  }

  /** What the worker answers for every buffer: the digest of the pixels it counted, or a RangeError
      exactly when that count is negative or over MAX_PIXELS. Below 2^32 bytes that is the server's
      digest, on every buffer of at most MAX_PIXELS pixels. */
  method WorkerImageDigest(rgba: array<byte>) returns (r: Outcome<array<byte>>)
    requires rgba.Length <= MAX_SAFE
    ensures r.Done? <==> 0 <= PixelCount(rgba.Length) <= MAX_PIXELS
    ensures r.Done? ==> fresh(r.value) && r.value[..] == DigestOf(rgba[..], PixelCount(rgba.Length))
    ensures rgba.Length < TWO32 ==> (r.Done? <==> rgba.Length / 4 <= MAX_PIXELS)
    ensures rgba.Length < TWO32 && r.Done? ==> r.value[..] == DigestOf(rgba[..], rgba.Length / 4)
  {
    hide Sha256, PixelCount, ChainHash, Reversed;
    PixelCountValue(rgba.Length);
    if PixelCount(rgba.Length) < 0 {
      return RangeError;
    }
    var n: nat := PixelCount(rgba.Length);
    var store := RetainHashes(rgba, n);
    var rev := ReverseSlots(store, n);
    forall j | 1 <= j <= n
      ensures rev[..][32 * (n - j)..32 * (n - j) + 32] == ChainHash(rgba[..], j)
    {
      assert rev[32 * (n - j)..32 * (n - j) + 32] == store[32 * (j - 1)..32 * j];
    }
    SlotsAreReversed(rgba[..], rev[..], n);
    r := Sha256InPlace(rev);
  }
}
