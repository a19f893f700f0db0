/** The bearer clearance token: signed decimal expiry, a dot, and the hex MAC of the expiry. */
module Clearance {
  import opened Text
  import opened Word
  import opened Wrappers
  import opened Rfc2104

  const TWO63: int := 0x8000_0000_0000_0000

  type i64 = x: int | -0x8000_0000_0000_0000 <= x < 0x8000_0000_0000_0000

  // ---- to_le_bytes ----

  /** `n` little-endian bytes of `u`. */
  function LowBytes(u: nat, n: nat): (b: seq<byte>)
    ensures |b| == n
  {
    if n == 0 then [] else [u % 0x100] + LowBytes(u / 0x100, n - 1)
  }

  function FromLowBytes(b: seq<byte>): nat {
    if b == [] then 0 else b[0] + 0x100 * FromLowBytes(b[1..])
  }

  /** One more than the largest number `n` bytes hold. */
  function Capacity(n: nat): nat {
    if n == 0 then 1 else 0x100 * Capacity(n - 1)
  }

  lemma {:induction false} LowBytesUndone(u: nat, n: nat)
    requires u < Capacity(n)
    ensures FromLowBytes(LowBytes(u, n)) == u
  {
    if n > 0 {
      LowBytesUndone(u / 0x100, n - 1);
      assert LowBytes(u, n)[1..] == LowBytes(u / 0x100, n - 1);
    }
  }

  /** `i64::to_le_bytes`: two's complement, least significant byte first. */
  function LeBytes(x: i64): (b: seq<byte>)
    ensures |b| == 8
  {
    LowBytes(if x < 0 then x + 2 * TWO63 else x, 8)
  }

  lemma LeBytesInjective(x: i64, y: i64)
    requires LeBytes(x) == LeBytes(y)
    ensures x == y
  {
    assert Capacity(8) == 2 * TWO63 by {
      assert Capacity(4) == 0x1_0000_0000;
    }
    LowBytesUndone(if x < 0 then x + 2 * TWO63 else x, 8);
    LowBytesUndone(if y < 0 then y + 2 * TWO63 else y, 8);
  }

  /** The eight bytes, each worth 256 times the one before it, add up to the time modulo 2^64. */
  lemma LeBytesMeans(x: i64)
    ensures var b := LeBytes(x);
            b[0] as int + b[1] as int * 0x100 + b[2] as int * 0x1_0000 + b[3] as int * 0x100_0000 +
            b[4] as int * 0x1_0000_0000 + b[5] as int * 0x100_0000_0000 + b[6] as int * 0x1_0000_0000_0000 +
            b[7] as int * 0x100_0000_0000_0000 == if x < 0 then x as int + 0x1_0000_0000_0000_0000 else x
  {
    var b := LeBytes(x);
    assert Capacity(8) == 2 * TWO63 by {
      assert Capacity(4) == 0x1_0000_0000;
    }
    LowBytesUndone(if x < 0 then x + 2 * TWO63 else x, 8);
    FourBytes(b);
    FourBytes(b[4..]);
  }

  lemma FourBytes(b: seq<byte>)
    requires |b| >= 4
    ensures FromLowBytes(b) == b[0] as int + b[1] as int * 0x100 + b[2] as int * 0x1_0000 + b[3] as int * 0x100_0000 +
                               FromLowBytes(b[4..]) * 0x1_0000_0000
  {
    assert b[1..][1..] == b[2..] && b[2..][1..] == b[3..] && b[3..][1..] == b[4..];
  }

  // ---- Signed decimal ----

  function Digits(n: nat): (s: string)
    ensures s != [] && forall i :: 0 <= i < |s| ==> IsDigit(s[i])
  {
    if n < 10 then [Digit(n)] else Digits(n / 10) + [Digit(n % 10)]
  }

  function DigitsValue(s: string): Option<nat> {
    if s == [] || !IsDigit(s[|s| - 1]) then None
    else
      var d := s[|s| - 1] as int - '0' as int;
      if |s| == 1 then Some(d)
      else match DigitsValue(s[..|s| - 1])
        case None => None
        case Some(v) => Some(10 * v + d)
  }

  /** `{expiry}` */
  function PrintI64(x: i64): (s: string)
    ensures s != []
  {
    var v: int := x;
    if v < 0 then "-" + Digits(-v) else Digits(v)
  }

  function InRange(v: Option<nat>, negative: bool): Option<i64> {
    match v
    case None => None
    case Some(n) =>
      var x: int := if negative then 0 - n as int else n;
      if -TWO63 <= x < TWO63 then Some(x) else None
  }

  /** `str::parse::<i64>`: one optional sign, then digits, in range. */
  function ParseI64(s: string): Option<i64> {
    if s == [] then None
    else if s[0] == '+' then InRange(DigitsValue(s[1..]), false)
    else if s[0] == '-' then InRange(DigitsValue(s[1..]), true)
    else InRange(DigitsValue(s), false)
  }

  lemma {:induction false} DigitsValueOfDigits(n: nat)
    ensures DigitsValue(Digits(n)) == Some(n)
  {
    if n >= 10 {
      DigitsValueOfDigits(n / 10);
      assert Digits(n)[..|Digits(n)| - 1] == Digits(n / 10);
    }
  }

  lemma {:induction false} FirstDigit(n: nat)
    ensures n > 0 ==> Digits(n)[0] != '0'
    ensures n == 0 ==> Digits(n) == "0"
  {
    if n >= 10 {
      FirstDigit(n / 10);
    }
  }

  /** The number a numeral stands for, each digit weighted by its place. */
  function Numeral(s: string): int {
    if s == [] then 0 else (s[0] as int - '0' as int) * TenTo(|s| - 1) + Numeral(s[1..])
  }

  predicate AllDigits(s: string) { forall i :: 0 <= i < |s| ==> IsDigit(s[i]) }

  /** The text is an optional sign and a numeral for `x`. */
  predicate Spells(s: string, sign: string, digits: string, x: int) {
    s == sign + digits && (sign == "" || sign == "+" || sign == "-") && digits != [] && AllDigits(digits) &&
    x == if sign == "-" then -Numeral(digits) else Numeral(digits)
  }

  lemma {:induction false} NumeralAppend(s: string, c: char)
    ensures Numeral(s + [c]) == 10 * Numeral(s) + (c as int - '0' as int)
  {
    if s == [] {
      assert s + [c] == [c] && [c][1..] == [];
    } else {
      NumeralAppend(s[1..], c);
      assert (s + [c])[1..] == s[1..] + [c];
      var d := s[0] as int - '0' as int;
      assert d * TenTo(|s|) == 10 * (d * TenTo(|s| - 1));
    }
  }

  lemma {:induction false} DigitsValueIsNumeral(s: string)
    ensures DigitsValue(s) == if s != [] && AllDigits(s) then Some(Numeral(s)) else None
  {
    if s != [] {
      var n := |s| - 1;
      DigitsValueIsNumeral(s[..n]);
      NumeralAppend(s[..n], s[n]);
      assert s == s[..n] + [s[n]];
      assert AllDigits(s) <==> AllDigits(s[..n]) && IsDigit(s[n]);
    }
  }

  /** A text parses as a time exactly when it spells it: an optional sign, then decimal digits, leading zeros
      allowed, in the range of the type. */
  lemma ParseI64Iff(s: string, x: i64)
    ensures ParseI64(s) == Some(x) <==> exists sign, digits :: Spells(s, sign, digits, x)
  {
    hide DigitsValue, Numeral;
    forall sign, digits | Spells(s, sign, digits, x)
      ensures ParseI64(s) == Some(x)
    {
      DigitsValueIsNumeral(digits);
      assert sign == "" ==> s == digits;
      assert sign != "" ==> s[1..] == digits;
      assert IsDigit(digits[0]);
    }
    if s != [] {
      DigitsValueIsNumeral(s);
      DigitsValueIsNumeral(s[1..]);
      assert s == [s[0]] + s[1..] && s == "" + s;
      if ParseI64(s) == Some(x) {
        if s[0] == '+' {
          assert Spells(s, "+", s[1..], x);
        } else if s[0] == '-' {
          assert Spells(s, "-", s[1..], x);
        } else {
          assert Spells(s, "", s, x);
        }
      }
    }
  }

  lemma ParsePrint(x: i64)
    ensures ParseI64(PrintI64(x)) == Some(x)
    ensures '.' !in PrintI64(x)
  {
    var v: int := x;
    var m := if v < 0 then -v else v;
    DigitsValueOfDigits(m);
    if v < 0 {
      assert PrintI64(x)[1..] == Digits(m);
    }
  }

  /** The printed text has no plus sign and no leading zero, so it is the shortest that parses to its time. */
  lemma PrintShape(x: i64)
    ensures var s := PrintI64(x);
            if x == 0 then s == "0" else if x > 0 then '1' <= s[0] <= '9'
            else |s| > 1 && s[0] == '-' && '1' <= s[1] <= '9'
  {
    hide Digits;
    var v: int := x;
    FirstDigit(if v < 0 then -v else v);
  }

  // ---- Hex ----

  function HexChar(v: nat): char
    requires v < 16
  {
    if v < 10 then '0' + v as char else 'a' + (v - 10) as char
  }

  function ToHex(b: seq<byte>): (s: string)
    ensures |s| == 2 * |b|
  {
    if b == [] then [] else [HexChar(b[0] / 16), HexChar(b[0] % 16)] + ToHex(b[1..])
  }

  const HEX_TABLE: string := "0123456789abcdef"

  /** Byte `i` is spelled by its high and then its low half. */
  lemma {:induction false} ToHexAt(b: seq<byte>, i: nat)
    requires i < |b|
    ensures ToHex(b)[2 * i] == HEX_TABLE[b[i] / 16] && ToHex(b)[2 * i + 1] == HEX_TABLE[b[i] % 16]
  {
    if i > 0 {
      ToHexAt(b[1..], i - 1);
    }
  }

  lemma {:induction false} ToHexInjective(a: seq<byte>, b: seq<byte>)
    requires ToHex(a) == ToHex(b)
    ensures a == b
  {
    if a != [] {
      var s, t := ToHex(a), ToHex(b);
      assert s[0] == t[0] && s[1] == t[1] && s[2..] == t[2..];
      assert s[2..] == ToHex(a[1..]) && t[2..] == ToHex(b[1..]);
      ToHexInjective(a[1..], b[1..]);
      assert a[0] / 16 == b[0] / 16 && a[0] % 16 == b[0] % 16;
      assert a == [a[0]] + a[1..] && b == [b[0]] + b[1..];
    }
  }

  // ---- The token ----

  /** `split_once`: at the first occurrence. */
  function SplitOnce(s: string, c: char): (r: Option<(string, string)>)
    ensures r.None? <==> c !in s
    ensures r.Some? ==> s == r.value.0 + [c] + r.value.1 && c !in r.value.0
  {
    if s == [] then None
    else if s[0] == c then Some(("", s[1..]))
    else match SplitOnce(s[1..], c)
      case None => None
      case Some((a, b)) => Some(([s[0]] + a, b))
  }

  function MintClearance(key: seq<byte>, expiry: i64): string {
    PrintI64(expiry) + "." + ToHex(Hmac(key, LeBytes(expiry)))
  }

  function VerifyClearance(key: seq<byte>, token: string, now: i64): bool {
    match SplitOnce(token, '.')
    case None => false
    case Some((expText, macHex)) =>
      match ParseI64(expText)
      case None => false
      case Some(expiry) => expiry > now && macHex == ToHex(Hmac(key, LeBytes(expiry)))
  }

  lemma {:induction false} SplitOnceAt(a: string, c: char, b: string)
    requires c !in a
    ensures SplitOnce(a + [c] + b, c) == Some((a, b))
  {
    var s := a + [c] + b;
    if a == [] {
      assert s[1..] == b;
    } else {
      assert s[1..] == a[1..] + [c] + b;
      SplitOnceAt(a[1..], c, b);
      assert a == [a[0]] + a[1..];
    }
  }

  /** Exactly the unexpired tokens whose MAC is that of the expiry they spell are accepted. */
  lemma AcceptedIff(key: seq<byte>, token: string, now: i64)
    ensures VerifyClearance(key, token, now) <==>
            exists text: string :: '.' !in text && ParseI64(text).Some? && ParseI64(text).value > now &&
                                   token == text + "." + ToHex(Hmac(key, LeBytes(ParseI64(text).value)))
  {
    hide Hmac, ToHex, ParseI64, LeBytes;
    forall text: string | '.' !in text && ParseI64(text).Some? && ParseI64(text).value > now &&
                          token == text + "." + ToHex(Hmac(key, LeBytes(ParseI64(text).value)))
      ensures VerifyClearance(key, token, now)
    {
      SplitOnceAt(text, '.', ToHex(Hmac(key, LeBytes(ParseI64(text).value))));
    }
  }

  /** A minted token is accepted until it expires, for every expiry and every time. */
  lemma MintedVerifies(key: seq<byte>, expiry: i64, now: i64)
    ensures VerifyClearance(key, MintClearance(key, expiry), now) <==> expiry > now
  {
    hide Hmac, ToHex, PrintI64, LeBytes, ParseI64;
    ParsePrint(expiry);
    SplitOnceAt(PrintI64(expiry), '.', ToHex(Hmac(key, LeBytes(expiry))));
  }
}
