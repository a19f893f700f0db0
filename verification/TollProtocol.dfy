/** Issue, solve and verify: the stateless signed challenge and the clearance it buys. */
module TollProtocol {
  import opened Word
  import opened Wrappers
  import opened Fips180
  import opened Rfc2104
  import opened ImageChain
  import opened Clearance
  import Base64
  import opened JsNumber
  import Worker = ChallengeWorker

  const FRESHNESS_WINDOW: int := 120
  const CLEARANCE_TTL: int := 7 * 86_400

  /** A clock reading in seconds; chrono's own range is inside this one. */
  type Clock = x: int | -0x1000_0000_0000 <= x <= 0x1000_0000_0000

  /** The toll image with what the server computes from it once. */
  datatype Toll = Toll(rgba: seq<byte>, digest: seq<byte>, version: seq<byte>)

  function LoadToll(rgba: seq<byte>): Toll {
    Toll(rgba, DigestOf(rgba, |rgba| / 4), VersionTag(rgba))
  }

  /** The first six bytes of the hash of the buffer, in hex (as the bytes of the text). */
  function VersionTag(rgba: seq<byte>): (tag: seq<byte>)
    ensures |tag| == 12
  {
    hide Sha256;
    var hex := ToHex(Sha256(rgba)[..6]);
    seq(|hex|, i requires 0 <= i < |hex| => hex[i] as int % 0x100)
  }

  /** The first six bytes of the image's hash, each as its two hex digits. */
  lemma VersionTagMeans(rgba: seq<byte>, i: nat)
    requires i < 6
    ensures var (tag, hash) := (VersionTag(rgba), Sha256(rgba));
            tag[2 * i] == HEX_TABLE[hash[i] / 16] as int && tag[2 * i + 1] == HEX_TABLE[hash[i] % 16] as int
  {
    hide Sha256, ToHex;
    ToHexAt(Sha256(rgba)[..6], i);
    HexCodes(Sha256(rgba)[i] / 16);
    HexCodes(Sha256(rgba)[i] % 16);
  }

  lemma HexCodes(v: nat)
    requires v < 16
    ensures HEX_TABLE[v] as int < 0x100
  {
  }

  // ---- The seed ----

  function SeedMessage(inner: seq<byte>, ts: i64, version: seq<byte>): seq<byte> {
    inner + LeBytes(ts) + version
  }

  function DeriveSeed(key: seq<byte>, inner: seq<byte>, ts: i64, version: seq<byte>): (seed: seq<byte>)
    ensures |seed| == 32
  {
    Hmac(key, SeedMessage(inner, ts, version))
  }

  /** Two equal messages have equal fields exactly when their versions are equally long. */
  lemma SeedMessageIff(inner: seq<byte>, ts: i64, version: seq<byte>, inner': seq<byte>, ts': i64, version': seq<byte>)
    requires SeedMessage(inner, ts, version) == SeedMessage(inner', ts', version')
    ensures inner == inner' && ts == ts' && version == version' <==> |version| == |version'|
  {
    if |version| == |version'| {
      var m, m' := SeedMessage(inner, ts, version), SeedMessage(inner', ts', version');
      assert |inner| == |inner'|;
      assert m[..|inner|] == inner && m'[..|inner|] == inner';
      assert m[|inner|..|inner| + 8] == LeBytes(ts) && m'[|inner|..|inner| + 8] == LeBytes(ts');
      assert m[|inner| + 8..] == version && m'[|inner| + 8..] == version';
      LeBytesInjective(ts, ts');
    }
  }

  /** The server only ever signs version tags of a toll image, and those are twelve bytes long: over all images
      it may ever serve, the message determines the inner seed, the issue time and the tag. */
  lemma ServedMessageInjective(rgba: seq<byte>, inner: seq<byte>, ts: i64, rgba': seq<byte>, inner': seq<byte>,
      ts': i64)
    requires SeedMessage(inner, ts, LoadToll(rgba).version) == SeedMessage(inner', ts', LoadToll(rgba').version)
    ensures inner == inner' && ts == ts' && LoadToll(rgba).version == LoadToll(rgba').version
  {
    hide VersionTag, DigestOf, SeedMessage;
    SeedMessageIff(inner, ts, VersionTag(rgba), inner', ts', VersionTag(rgba'));
  }

  // ---- Issue ----

  datatype Token = Token(innerSeed: string, ts: i64, version: seq<byte>, seed: string)

  function NewChallenge(key: seq<byte>, toll: Toll, inner: seq<byte>, ts: i64): Token {
    Token(Base64.Encode(inner), ts, toll.version, Base64.Encode(DeriveSeed(key, inner, ts, toll.version)))
  }

  // ---- Solve ----

  datatype Query = Query(innerSeed: string, ts: i64, version: seq<byte>, answer: string)

  /** The worker's message handler: digest the image, key the HMAC with the seed, spell it in base64. */
  method SolveInWorker(rgba: array<byte>, seed: array<byte>) returns (r: Worker.Outcome<string>)
    requires rgba.Length <= MAX_SAFE && seed.Length <= MAX_SAFE - 8
    ensures r.Done? <==> 0 <= Worker.PixelCount(rgba.Length) <= Worker.MAX_PIXELS && seed.Length <= Worker.MAX_MESSAGE
    ensures rgba.Length < TWO32 ==>
              (0 <= Worker.PixelCount(rgba.Length) <= Worker.MAX_PIXELS <==> rgba.Length / 4 <= Worker.MAX_PIXELS)
    ensures r.Done? ==>
              r.value == Base64.WorkerEncode(Hmac(seed[..], DigestOf(rgba[..], Worker.PixelCount(rgba.Length))))
    ensures r.Done? && rgba.Length < TWO32 ==> Worker.PixelCount(rgba.Length) == rgba.Length / 4
  {
    hide Worker.PixelCount, Hmac, DigestOf;
    Worker.PixelCountValue(rgba.Length);
    var digest := Worker.WorkerImageDigest(rgba);
    if digest.RangeError? {
      return Worker.RangeError;
    }
    assert |digest.value[..]| == 32;
    var answer := Worker.HmacSha256(seed, digest.value);
    if answer.RangeError? {
      return Worker.RangeError;
    }
    r := Worker.Done(Base64.WorkerEncode(answer.value[..]));
  }

  // ---- Verify ----

  /** i64 subtraction as a release build computes it. */
  function WrappingSub(x: int, y: int): i64 { (x - y + TWO63) % (2 * TWO63) - TWO63 }

  predicate Fresh(ts: i64, now: Clock) {
    !(ts > now || WrappingSub(now, ts) > FRESHNESS_WINDOW)
  }

  /** The freshness test is the documented window except where the subtraction wraps. */
  lemma FreshIff(ts: i64, now: Clock)
    ensures Fresh(ts, now) <==> 0 <= now - ts <= 120 || now - ts >= 0x8000_0000_0000_0000
  {
    var d := now - ts;
    if 0 <= d < TWO63 {
      assert (d + TWO63) % (2 * TWO63) == d + TWO63;
    } else if d >= TWO63 {
      assert (d + TWO63) % (2 * TWO63) == d - TWO63;
    }
  }

  /** The wrapped case exists: the earliest representable time counts as fresh at the epoch. */
  lemma EarliestTimeCountsAsFresh()
    ensures Fresh(-TWO63, 0)
  {
    FreshIff(-TWO63, 0);
  }

  function ExpectedAnswer(key: seq<byte>, toll: Toll, inner: seq<byte>, ts: i64): seq<byte> {
    Hmac(DeriveSeed(key, inner, ts, toll.version), toll.digest)
  }

  function VerifyAnswer(key: seq<byte>, toll: Toll, inner: seq<byte>, ts: i64,
                        submitted: seq<byte>, now: Clock): bool {
    Fresh(ts, now) && ExpectedAnswer(key, toll, inner, ts) == submitted
  }

  datatype Response = Retry | Cleared(clearance: string)

  function VerifyChallenge(key: seq<byte>, toll: Toll, q: Query, now: Clock): Response {
    if q.version != toll.version then Retry
    else match (Base64.Decode(q.innerSeed), Base64.Decode(q.answer))
      case (Some(inner), Some(answer)) =>
        if VerifyAnswer(key, toll, inner, q.ts, answer, now) then Cleared(MintClearance(key, now + CLEARANCE_TTL))
        else Retry
      case _ => Retry
  }

  /** What a browser ends up with: no answer to submit, or the server's response to the one it submits. */
  datatype Visit = Stopped | Answered(response: Response)

  predicate Passed(v: Visit) { v.Answered? && v.response.Cleared? }

  /** The query a token's holder submits for the digest `d`. */
  function QueryFor(key: seq<byte>, issued: Toll, inner: seq<byte>, ts: Clock, d: seq<byte>): Query {
    hide Hmac;
    var token := NewChallenge(key, issued, inner, ts);
    Query(token.innerSeed, token.ts, token.version,
          Base64.WorkerEncode(Hmac(DeriveSeed(key, inner, ts, token.version), d)))
  }

  /** The digest gives the answer the image's own digest gives. */
  predicate SameAnswer(key: seq<byte>, issued: Toll, inner: seq<byte>, ts: Clock, d: seq<byte>) {
    hide Hmac;
    var seed := DeriveSeed(key, inner, ts, issued.version);
    Hmac(seed, d) == Hmac(seed, issued.digest)
  }

  /** It is accepted exactly when the image is still the one it was issued for, the time since issue is in the
      window, and the digest gives the answer the image's own digest gives. */
  lemma AnswerAcceptedIff(key: seq<byte>, issued: Toll, inner: seq<byte>, ts: Clock, d: seq<byte>, current: Toll,
      now: Clock)
    requires current.version == issued.version ==> current.digest == issued.digest
    ensures VerifyChallenge(key, current, QueryFor(key, issued, inner, ts, d), now).Cleared? <==>
            current.version == issued.version && 0 <= now - ts <= FRESHNESS_WINDOW &&
            SameAnswer(key, issued, inner, ts, d)
  {
    hide Hmac, LeBytes, SeedMessage;
    Base64.DecodeEncode(inner);
    var answer := Hmac(DeriveSeed(key, inner, ts, issued.version), d);
    Base64.WorkerEncodes(answer);
    Base64.DecodeEncode(answer);
    FreshIff(ts, now);
  }

  /** A whole visit: the served token's seed is decoded, the worker solves the served image, the answer and the
      token's fields are submitted, and the server, whose image may have changed, verifies them. Below 2^32
      bytes it passes exactly when the worker can hold the pixels' hashes, the image is still the one the token
      was issued for, and the time since issue is in the window; above, only by a collision could it. */
  method VisitToll(key: seq<byte>, rgba: array<byte>, inner: seq<byte>, ts: Clock, current: Toll, now: Clock)
    returns (v: Visit)
    requires rgba.Length <= MAX_SAFE
    requires current.version == LoadToll(rgba[..]).version ==> current.digest == LoadToll(rgba[..]).digest
    ensures v.Stopped? <==> !(0 <= Worker.PixelCount(rgba.Length) <= Worker.MAX_PIXELS)
    ensures rgba.Length < TWO32 ==>
              (Passed(v) <==> rgba.Length / 4 <= Worker.MAX_PIXELS && current.version == LoadToll(rgba[..]).version &&
                              0 <= now - ts <= FRESHNESS_WINDOW)
    ensures Passed(v) ==>
              SameAnswer(key, LoadToll(rgba[..]), inner, ts, DigestOf(rgba[..], Worker.PixelCount(rgba.Length)))
  {
    hide Hmac, DigestOf, VersionTag, VerifyChallenge, Worker.PixelCount, SeedMessage;
    var issued := LoadToll(rgba[..]);
    var token := NewChallenge(key, issued, inner, ts);
    var seedBytes := DeriveSeed(key, inner, ts, token.version);
    Base64.DecodeEncode(seedBytes);
    var decoded := Base64.ClientDecode(token.seed);
    assert decoded == Some(seedBytes);
    var seed := new byte[32](i requires 0 <= i < 32 => seedBytes[i]);
    assert seed[..] == seedBytes;
    var answer := SolveInWorker(rgba, seed);
    if answer.RangeError? {
      return Stopped;
    }
    v := Answered(VerifyChallenge(key, current, Query(token.innerSeed, token.ts, token.version, answer.value), now));
    AnswerAcceptedIff(key, issued, inner, ts, DigestOf(rgba[..], Worker.PixelCount(rgba.Length)), current, now);
  }

  /** Exactly these queries are cleared: of the served version, issued within the last 120 seconds (or at a time for
      which the subtraction wraps), and answered with the MAC of the image's digest under the seed, itself the MAC
      of inner seed, issue time and version under the server's key. */
  lemma ClearedIff(key: seq<byte>, toll: Toll, q: Query, now: Clock)
    ensures VerifyChallenge(key, toll, q, now).Cleared? <==>
            q.version == toll.version &&
            (0 <= now - q.ts <= 120 || now - q.ts >= 0x8000_0000_0000_0000) &&
            Base64.Decode(q.innerSeed).Some? && Base64.Decode(q.answer).Some? &&
            Base64.Decode(q.answer).value ==
              Hmac(Hmac(key, Base64.Decode(q.innerSeed).value + LeBytes(q.ts) + toll.version), toll.digest)
  {
    hide Hmac, LeBytes, Base64.Decode;
    FreshIff(q.ts, now);
  }

  /** What a visitor is served: the inner seed and its MAC with the issue time and the version, both in base64. */
  lemma ServedTokenMeans(key: seq<byte>, rgba: seq<byte>, inner: seq<byte>, ts: i64)
    ensures var token := NewChallenge(key, LoadToll(rgba), inner, ts);
            Base64.Decode(token.innerSeed) == Some(inner) && token.ts == ts && token.version == VersionTag(rgba) &&
            Base64.Decode(token.seed) == Some(Hmac(key, inner + LeBytes(ts) + token.version))
  {
    hide Hmac, LeBytes, Base64.Decode, Base64.Encode, VersionTag, DigestOf;
    Base64.DecodeEncode(inner);
    Base64.DecodeEncode(DeriveSeed(key, inner, ts, VersionTag(rgba)));
  }

  /** Every accepted query carries the one spelling of the recomputed answer for its own fields. */
  lemma AcceptedIsRecomputed(key: seq<byte>, toll: Toll, q: Query, now: Clock)
    requires VerifyChallenge(key, toll, q, now).Cleared?
    ensures Base64.Decode(q.innerSeed).Some?
    ensures q.answer == Base64.Encode(ExpectedAnswer(key, toll, Base64.Decode(q.innerSeed).value, q.ts))
    ensures q.innerSeed == Base64.Encode(Base64.Decode(q.innerSeed).value)
    ensures 0 <= now - q.ts <= FRESHNESS_WINDOW || now - q.ts >= TWO63
  {
    hide ExpectedAnswer;
    Base64.EncodeDecode(q.innerSeed);
    Base64.EncodeDecode(q.answer);
    FreshIff(q.ts, now);
  }

  /** An accepted solve buys passage for exactly seven days from the time it was verified. */
  lemma ClearanceLastsSevenDays(key: seq<byte>, toll: Toll, q: Query, now: Clock, later: i64)
    requires VerifyChallenge(key, toll, q, now).Cleared?
    ensures VerifyClearance(key, VerifyChallenge(key, toll, q, now).clearance, later) <==>
            later < now + 604_800
  {
    hide VerifyAnswer;
    MintedVerifies(key, now + CLEARANCE_TTL, later);
  }
}
