/** Base64 as RFC 4648 sections 4 and 5 define it: the worker's `btoa` with its three
    replacements, the interstitial's `atob`, and the server's strict unpadded engine. */
module Base64 {
  import opened Text
  import opened Word
  import opened Wrappers

  type sextet = x: int | 0 <= x < 64

  // ---- Bytes to 6-bit groups and back ----

  function Six1(a: byte): sextet { a / 4 }

  function Six2(a: byte, b: byte): sextet { a % 4 * 16 + b / 16 }

  function Six3(b: byte, c: byte): sextet { b % 16 * 4 + c / 64 }

  function Six4(c: byte): sextet { c % 64 }

  function Sextets(b: seq<byte>): (s: seq<sextet>)
    ensures |s| % 4 != 1
  {
    if |b| == 0 then []
    else if |b| == 1 then [Six1(b[0]), Six2(b[0], 0)]
    else if |b| == 2 then [Six1(b[0]), Six2(b[0], b[1]), Six3(b[1], 0)]
    else [Six1(b[0]), Six2(b[0], b[1]), Six3(b[1], b[2]), Six4(b[2])] + Sextets(b[3..])
  }

  function First(a: sextet, b: sextet): byte { a * 4 + b / 16 }

  function Second(b: sextet, c: sextet): byte { b % 16 * 16 + c / 4 }

  function Third(c: sextet, d: sextet): byte { c % 4 * 64 + d }

  /** A strict decoder also rejects non-zero bits after the last whole byte. */
  function Octets(s: seq<sextet>, strict: bool): Option<seq<byte>> {
    if |s| == 0 then Some([])
    else if |s| == 1 then None
    else if |s| == 2 then
      if strict && s[1] % 16 != 0 then None else Some([First(s[0], s[1])])
    else if |s| == 3 then
      if strict && s[2] % 4 != 0 then None else Some([First(s[0], s[1]), Second(s[1], s[2])])
    else match Octets(s[4..], strict)
      case None => None
      case Some(rest) => Some([First(s[0], s[1]), Second(s[1], s[2]), Third(s[2], s[3])] + rest)
  }

  lemma Parts(x: nat, y: nat)
    ensures y < 4 ==> (x * 4 + y) / 4 == x && (x * 4 + y) % 4 == y
    ensures y < 16 ==> (x * 16 + y) / 16 == x && (x * 16 + y) % 16 == y
    ensures y < 64 ==> (x * 64 + y) / 64 == x && (x * 64 + y) % 64 == y
  {
  }

  lemma Ungroup(a: byte, b: byte, c: byte)
    ensures First(Six1(a), Six2(a, b)) == a
    ensures Second(Six2(a, b), Six3(b, c)) == b
    ensures Third(Six3(b, c), Six4(c)) == c
    ensures Six2(a, 0) % 16 == 0 && Six3(b, 0) % 4 == 0
  {
    Parts(a % 4, b / 16);
    Parts(b % 16, c / 64);
    Parts(a % 4, 0);
    Parts(b % 16, 0);
    assert a == a / 4 * 4 + a % 4 && b == b / 16 * 16 + b % 16 && c == c / 64 * 64 + c % 64;
  }

  lemma Regroup(a: sextet, b: sextet, c: sextet, d: sextet)
    ensures Six1(First(a, b)) == a
    ensures Six2(First(a, b), Second(b, c)) == b
    ensures Six3(Second(b, c), Third(c, d)) == c
    ensures Six4(Third(c, d)) == d
    ensures b % 16 == 0 ==> Six2(First(a, b), 0) == b
    ensures c % 4 == 0 ==> Six3(Second(b, c), 0) == c
  {
    Parts(a, b / 16);
    Parts(b % 16, c / 4);
    Parts(c % 4, d);
    assert b == b / 16 * 16 + b % 16 && c == c / 4 * 4 + c % 4;
  }

  lemma {:induction false} OctetsOfSextets(b: seq<byte>, strict: bool)
    ensures Octets(Sextets(b), strict) == Some(b)
  {
    hide First, Second, Third, Six1, Six2, Six3, Six4;
    if |b| >= 3 {
      Ungroup(b[0], b[1], b[2]);
      assert Sextets(b)[4..] == Sextets(b[3..]);
      OctetsOfSextets(b[3..], strict);
      assert b == [b[0], b[1], b[2]] + b[3..];
    } else if |b| >= 1 {
      Ungroup(b[0], if |b| == 2 then b[1] else 0, 0);
      assert b == if |b| == 1 then [b[0]] else [b[0], b[1]];
    }
  }

  lemma {:induction false} SextetsOfOctets(s: seq<sextet>)
    requires Octets(s, true).Some?
    ensures Sextets(Octets(s, true).value) == s
  {
    hide First, Second, Third, Six1, Six2, Six3, Six4;
    if |s| >= 4 {
      Regroup(s[0], s[1], s[2], s[3]);
      SextetsOfOctets(s[4..]);
      var b := Octets(s, true).value;
      assert b[3..] == Octets(s[4..], true).value;
      assert s == [s[0], s[1], s[2], s[3]] + s[4..];
    } else if |s| >= 2 {
      Regroup(s[0], s[1], if |s| == 3 then s[2] else 0, 0);
      assert s == if |s| == 2 then [s[0], s[1]] else [s[0], s[1], s[2]];
    }
  }

  // ---- Alphabets ----

  function StdChar(v: sextet): char {
    if v < 26 then 'A' + v as char
    else if v < 52 then 'a' + (v - 26) as char
    else if v < 62 then '0' + (v - 52) as char
    else if v == 62 then '+' else '/'
  }

  function StdValue(c: char): Option<sextet> {
    if 'A' <= c <= 'Z' then Some(c as int - 'A' as int)
    else if 'a' <= c <= 'z' then Some(c as int - 'a' as int + 26)
    else if '0' <= c <= '9' then Some(c as int - '0' as int + 52)
    else if c == '+' then Some(62) else if c == '/' then Some(63) else None
  }

  function ToUrl(c: char): char {
    if c == '+' then '-' else if c == '/' then '_' else c
  }

  function FromUrl(c: char): char {
    if c == '-' then '+' else if c == '_' then '/' else c
  }

  function UrlChar(v: sextet): char { ToUrl(StdChar(v)) }

  /** The URL-safe alphabet has no '+' and no '/'. */
  function UrlValue(c: char): Option<sextet> {
    if c == '+' || c == '/' then None else StdValue(FromUrl(c))
  }

  lemma AlphabetRoundTrip(v: sextet)
    ensures UrlValue(UrlChar(v)) == Some(v)
    ensures StdValue(FromUrl(UrlChar(v))) == Some(v)
    ensures StdChar(v) != '='
  {
  }

  lemma UrlCharOfValue(c: char)
    requires UrlValue(c).Some?
    ensures UrlChar(UrlValue(c).value) == c
  {
  }

  const STD_TABLE: string := UPPER + LOWER + "0123456789+/"
  const URL_TABLE: string := UPPER + LOWER + "0123456789-_"

  /** The two alphabets of RFC 4648 (tables 1 and 2). */
  lemma AlphabetsAreTables(v: sextet)
    ensures |STD_TABLE| == |URL_TABLE| == 64
    ensures StdChar(v) == STD_TABLE[v] && UrlChar(v) == URL_TABLE[v]
  {
    assert STD_TABLE == UPPER + (LOWER + "0123456789+/") && URL_TABLE == UPPER + (LOWER + "0123456789-_");
    if v < 26 {
      assert UPPER[v] == 'A' + v as char;
    } else if v < 52 {
      assert LOWER[v - 26] == 'a' + (v - 26) as char;
    } else {
      assert "0123456789+/"[v - 52] == StdChar(v);
    }
  }

  // ---- The worker's encoder ----

  function MapChars(f: char -> char, s: string): (r: string)
    ensures |r| == |s|
  {
    seq(|s|, i requires 0 <= i < |s| => f(s[i]))
  }

  lemma MapCharsAt(f: char -> char, s: string, i: nat)
    requires i < |s|
    ensures MapChars(f, s)[i] == f(s[i])
  {
  }

  /** Standard base64 with its padding. */
  function Btoa(b: seq<byte>): string {
    var s := Sextets(b);
    seq(|s|, i requires 0 <= i < |s| => StdChar(s[i])) +
    seq(if |b| % 3 == 0 then 0 else 3 - |b| % 3, _ => '=')
  }

  /** `.replace(/=+$/, "")` */
  function StripPadding(s: string): string {
    if s != [] && s[|s| - 1] == '=' then StripPadding(s[..|s| - 1]) else s
  }

  /** `btoa` over the bytes, then the three replacements. */
  function WorkerEncode(b: seq<byte>): string {
    StripPadding(MapChars(ToUrl, Btoa(b)))
  }

  // ---- The server's engine and the interstitial's decoder ----

  function Encode(b: seq<byte>): string {
    var s := Sextets(b);
    seq(|s|, i requires 0 <= i < |s| => UrlChar(s[i]))
  }

  /** Byte `i`, or zero past the end. */
  function ByteAt(b: seq<byte>, i: nat): byte { if i < |b| then b[i] else 0 }

  /** Group `i` of three bytes as one 24-bit number, most significant byte first. */
  function Group(b: seq<byte>, i: nat): nat {
    ByteAt(b, 3 * i) * 0x1_0000 + ByteAt(b, 3 * i + 1) * 0x100 + ByteAt(b, 3 * i + 2)
  }

  /** The `k`-th six bits of a group from the top. */
  function SixBits(g: nat, k: nat): sextet {
    if k == 0 then g / 0x4_0000 % 64 else if k == 1 then g / 0x1000 % 64 else if k == 2 then g / 64 % 64 else g % 64
  }

  lemma SixesOfGroup(a: byte, b: byte, c: byte)
    ensures var g := a as int * 0x1_0000 + b as int * 0x100 + c;
            Six1(a) == SixBits(g, 0) && Six2(a, b) == SixBits(g, 1) &&
            Six3(b, c) == SixBits(g, 2) && Six4(c) == SixBits(g, 3)
  {
    var g := a as int * 0x1_0000 + b as int * 0x100 + c;
    var g1, g2 := a as int * 0x400 + b as int * 4 + c as int / 64, a as int * 16 + b as int / 16;
    QuotientIs(g, 64, g1, c % 64);
    QuotientIs(g, 0x1000, g2, b as int % 16 * 0x100 + c);
    QuotientIs(g, 0x4_0000, a / 4, a as int % 4 * 0x1_0000 + b as int * 0x100 + c);
    QuotientIs(g1, 64, g2, b % 16 * 4 + c / 64);
    QuotientIs(g2, 64, a / 4, a % 4 * 16 + b / 16);
  }

  lemma {:induction false} SextetAt(b: seq<byte>, i: nat, k: nat)
    requires k < 4 && 4 * i + k < |Sextets(b)|
    ensures Sextets(b)[4 * i + k] == SixBits(Group(b, i), k)
  {
    hide Six1, Six2, Six3, Six4, SixBits;
    if i == 0 {
      SixesOfGroup(ByteAt(b, 0), ByteAt(b, 1), ByteAt(b, 2));
    } else {
      assert |b| >= 3;
      SextetAt(b[3..], i - 1, k);
    }
  }

  lemma {:induction false} SextetCount(b: seq<byte>)
    ensures |Sextets(b)| == (4 * |b| + 2) / 3
  {
    if |b| >= 3 {
      SextetCount(b[3..]);
    }
  }

  /** The encoding: for each six bits of the bytes, read in order from the top and zero past the end, the character
      the URL-safe table has for them. */
  lemma EncodeMeans(b: seq<byte>)
    ensures |Encode(b)| == (4 * |b| + 2) / 3
    ensures forall i, k :: 0 <= i && 0 <= k < 4 && 4 * i + k < |Encode(b)| ==>
              Encode(b)[4 * i + k] == URL_TABLE[SixBits(Group(b, i), k)]
  {
    hide Sextets, SixBits, Group, UrlChar, StdChar;
    SextetCount(b);
    forall i, k | 0 <= i && 0 <= k < 4 && 4 * i + k < |Encode(b)|
      ensures Encode(b)[4 * i + k] == URL_TABLE[SixBits(Group(b, i), k)]
    {
      SextetAt(b, i, k);
      AlphabetsAreTables(Sextets(b)[4 * i + k]);
    }
  }

  /** The values of all characters, if every one is in the alphabet. */
  function Values(value: char -> Option<sextet>, s: string): (r: Option<seq<sextet>>)
    ensures r.Some? ==> |r.value| == |s|
    ensures r.Some? ==> forall i :: 0 <= i < |s| ==> value(s[i]) == Some(r.value[i])
  {
    if s == [] then Some([])
    else match value(s[|s| - 1])
      case None => None
      case Some(v) =>
        match Values(value, s[..|s| - 1])
        case None => None
        case Some(vs) => Some(vs + [v])
  }

  lemma {:induction false} ValuesAre(value: char -> Option<sextet>, s: string, vs: seq<sextet>)
    requires |vs| == |s| && forall i :: 0 <= i < |s| ==> value(s[i]) == Some(vs[i])
    ensures Values(value, s) == Some(vs)
  {
    if s == [] {
      assert vs == [];
    } else {
      ValuesAre(value, s[..|s| - 1], vs[..|s| - 1]);
      assert vs == vs[..|s| - 1] + [vs[|s| - 1]];
    }
  }

  function DecodeWith(value: char -> Option<sextet>, s: string, strict: bool): Option<seq<byte>> {
    match Values(value, s)
    case None => None
    case Some(vs) => Octets(vs, strict)
  }

  /** URL_SAFE_NO_PAD: strict, and no padding accepted. */
  function Decode(s: string): Option<seq<byte>> { DecodeWith(UrlValue, s, true) }

  /** `b64urlDecode`: undo two of the replacements, then a lenient `atob`. */
  function ClientDecode(s: string): Option<seq<byte>> { DecodeWith(StdValue, MapChars(FromUrl, s), false) }

  lemma DecodeEncode(b: seq<byte>)
    ensures Decode(Encode(b)) == Some(b)
    ensures ClientDecode(Encode(b)) == Some(b)
  {
    var s, e := Sextets(b), Encode(b);
    forall i | 0 <= i < |s|
      ensures UrlValue(e[i]) == Some(s[i]) && StdValue(MapChars(FromUrl, e)[i]) == Some(s[i])
    {
      AlphabetRoundTrip(s[i]);
    }
    ValuesAre(UrlValue, e, s);
    ValuesAre(StdValue, MapChars(FromUrl, e), s);
    OctetsOfSextets(b, true);
    OctetsOfSextets(b, false);
  }

  /** The server accepts one spelling of each byte string. */
  lemma EncodeDecode(s: string)
    requires Decode(s).Some?
    ensures Encode(Decode(s).value) == s
  {
    var v := Values(UrlValue, s).value;
    SextetsOfOctets(v);
    forall i | 0 <= i < |s|
      ensures UrlChar(v[i]) == s[i]
    {
      UrlCharOfValue(s[i]);
    }
  }

  lemma {:induction false} StripsOnlyPadding(s: string, k: nat)
    requires s == [] || s[|s| - 1] != '='
    ensures StripPadding(s + seq(k, _ => '=')) == s
  {
    var t := s + seq(k, _ => '=');
    if k == 0 {
      assert t == s;
    } else {
      assert t[..|t| - 1] == s + seq(k - 1, _ => '=');
      StripsOnlyPadding(s, k - 1);
    }
  }

  /** The worker's replacements give exactly the engine's unpadded URL-safe spelling. */
  lemma WorkerEncodes(b: seq<byte>)
    ensures WorkerEncode(b) == Encode(b)
  {
    hide StripPadding, Sextets, StdChar;
    var s, e := Sextets(b), Encode(b);
    var k := if |b| % 3 == 0 then 0 else 3 - |b| % 3;
    forall i | 0 <= i < |s|
      ensures e[i] != '='
    {
      AlphabetRoundTrip(s[i]);
    }
    var m, padded := MapChars(ToUrl, Btoa(b)), e + seq(k, _ => '=');
    forall i | 0 <= i < |m|
      ensures m[i] == padded[i]
    {
      MapCharsAt(ToUrl, Btoa(b), i);
      if i < |s| {
        assert Btoa(b)[i] == StdChar(s[i]) && e[i] == UrlChar(s[i]) && padded[i] == e[i];
      } else {
        assert Btoa(b)[i] == '=' && padded[i] == '=';
      }
    }
    assert m == padded;
    StripsOnlyPadding(e, k);
  }
}
