/** Forward-confirmed reverse DNS and the memo over it. Lookups are arbitrary inputs;
    `Failed` stands for an error or a timeout. */
module Crawler {
  import opened Text

  datatype Verdict = Verified | NotCrawler | Unknown

  datatype Lookup<+T> = Answer(value: T) | Failed

  datatype Dns = Dns(ptr: string -> Lookup<seq<string>>, forward: string -> Lookup<set<string>>)

  const CRAWLER_SUFFIXES: seq<string> := [
    ".googlebot.com", ".google.com", ".search.msn.com", ".crawl.yahoo.net", ".yandex.com",
    ".yandex.net", ".yandex.ru", ".crawl.baidu.com", ".baidu.com", ".applebot.apple.com"]

  function TrimEndDots(s: string): string {
    if s != [] && s[|s| - 1] == '.' then TrimEndDots(s[..|s| - 1]) else s
  }

  predicate EndsWith(s: string, suffix: string) {
    |suffix| <= |s| && s[|s| - |suffix|..] == suffix
  }

  predicate MatchesCrawlerSuffix(name: string) {
    exists k :: 0 <= k < |CRAWLER_SUFFIXES| && EndsWith(AsciiLower(TrimEndDots(name)), CRAWLER_SUFFIXES[k])
  }

  function Matched(names: seq<string>): seq<string> {
    if names == [] then []
    else if MatchesCrawlerSuffix(names[0]) then [names[0]] + Matched(names[1..])
    else Matched(names[1..])
  }

  /** The search over the matched names, leaving at the first confirmation or failure. */
  function Confirm(dns: Dns, names: seq<string>, ip: string): Verdict {
    if names == [] then NotCrawler
    else match dns.forward(names[0])
      case Failed => Unknown
      case Answer(ips) => if ip in ips then Verified else Confirm(dns, names[1..], ip)
  }

  function VerifyCrawler(dns: Dns, ip: string): Verdict {
    match dns.ptr(ip)
    case Failed => Unknown
    case Answer(names) =>
      var matched := Matched(names);
      if matched == [] then NotCrawler else Confirm(dns, matched, ip)
  }

  predicate Denies(l: Lookup<set<string>>, ip: string) { l.Answer? && ip !in l.value }

  predicate Confirms(l: Lookup<set<string>>, ip: string) { l.Answer? && ip in l.value }

  /** The first name that does not deny the address decides, and no verdict rests on a failed lookup. */
  lemma {:induction false} ConfirmMeaning(dns: Dns, names: seq<string>, ip: string)
    ensures Confirm(dns, names, ip) == Verified <==>
            exists k :: 0 <= k < |names| && Confirms(dns.forward(names[k]), ip) &&
                        forall j :: 0 <= j < k ==> Denies(dns.forward(names[j]), ip)
    ensures Confirm(dns, names, ip) == NotCrawler <==>
            forall k :: 0 <= k < |names| ==> Denies(dns.forward(names[k]), ip)
  {
    if names != [] && Denies(dns.forward(names[0]), ip) {
      var rest := names[1..];
      ConfirmMeaning(dns, rest, ip);
      assert forall k :: 0 < k < |names| ==> names[k] == rest[k - 1];
      if Confirm(dns, names, ip) == Verified {
        var k :| 0 <= k < |rest| && Confirms(dns.forward(rest[k]), ip) &&
                 forall j :: 0 <= j < k ==> Denies(dns.forward(rest[j]), ip);
        assert Confirms(dns.forward(names[k + 1]), ip);
      }
      if k :| 0 <= k < |names| && Confirms(dns.forward(names[k]), ip) &&
              forall j :: 0 <= j < k ==> Denies(dns.forward(names[j]), ip) {
        assert rest[k - 1] == names[k];
        assert forall j :: 0 <= j < k - 1 ==> rest[j] == names[j + 1];
      }
    }
  }

  predicate AllDots(s: string) { forall i :: 0 <= i < |s| ==> s[i] == '.' }

  /** The name is some stem, a crawler's domain in any letter case, and any number of closing dots. */
  predicate IsUnder(name: string, stem: string, domain: string, dots: string) {
    name == stem + domain + dots && AllDots(dots) && AsciiLower(domain) in CRAWLER_SUFFIXES
  }

  lemma {:induction false} TrimEndDotsMeans(s: string)
    ensures exists dots :: s == TrimEndDots(s) + dots && AllDots(dots)
    ensures TrimEndDots(s) == [] || TrimEndDots(s)[|TrimEndDots(s)| - 1] != '.'
  {
    if s != [] && s[|s| - 1] == '.' {
      var t := s[..|s| - 1];
      TrimEndDotsMeans(t);
      var dots :| t == TrimEndDots(t) + dots && AllDots(dots);
      assert s == TrimEndDots(s) + (dots + ['.']) && AllDots(dots + ['.']);
    } else {
      assert s == TrimEndDots(s) + [] && AllDots([]);
    }
  }

  lemma {:induction false} TrimEndDotsOf(s: string, dots: string)
    requires AllDots(dots) && (s == [] || s[|s| - 1] != '.')
    ensures TrimEndDots(s + dots) == s
  {
    if dots == [] {
      assert s + dots == s;
    } else {
      assert (s + dots)[..|s + dots| - 1] == s + dots[..|dots| - 1];
      TrimEndDotsOf(s, dots[..|dots| - 1]);
    }
  }

  predicate NoClosingDot(s: string) { s != [] && s[|s| - 1] != '.' }

  lemma SuffixEnds(domain: string)
    requires AsciiLower(domain) in CRAWLER_SUFFIXES
    ensures domain != [] && domain[|domain| - 1] != '.'
  {
    assert forall k :: 0 <= k < |CRAWLER_SUFFIXES| ==> NoClosingDot(CRAWLER_SUFFIXES[k]);
    assert NoClosingDot(AsciiLower(domain)) && |AsciiLower(domain)| == |domain|;
    var last := AsciiLower(domain)[|domain| - 1];
    assert last == '.' || domain[|domain| - 1] != '.';
  }

  lemma MatchesSuffixIff(name: string)
    ensures MatchesCrawlerSuffix(name) <==> exists stem, domain, dots :: IsUnder(name, stem, domain, dots)
  {
    hide AsciiLower, CRAWLER_SUFFIXES, TrimEndDots;
    var s := TrimEndDots(name);
    TrimEndDotsMeans(name);
    var rest :| name == s + rest && AllDots(rest);
    if MatchesCrawlerSuffix(name) {
      var k :| 0 <= k < |CRAWLER_SUFFIXES| && EndsWith(AsciiLower(s), CRAWLER_SUFFIXES[k]);
      var at := |s| - |CRAWLER_SUFFIXES[k]|;
      LowerSuffix(s, at);
      assert IsUnder(name, s[..at], s[at..], rest);
    }
    if stem, domain, dots :| IsUnder(name, stem, domain, dots) {
      SuffixEnds(domain);
      TrimEndDotsOf(stem + domain, dots);
      assert s == stem + domain && s[|stem|..] == domain;
      LowerSuffix(s, |stem|);
      var k :| 0 <= k < |CRAWLER_SUFFIXES| && CRAWLER_SUFFIXES[k] == AsciiLower(domain);
      assert EndsWith(AsciiLower(s), CRAWLER_SUFFIXES[k]);
    }
  }

  lemma LowerSuffix(s: string, at: nat)
    requires at <= |s|
    ensures AsciiLower(s)[at..] == AsciiLower(s[at..])
  {
  }

  /** Only the names under a crawler's domain are looked up; of these the first that does not deny decides. An
      address is verified exactly when that one confirms it, and no crawler exactly when all of them deny it. */
  lemma VerifyCrawlerIff(dns: Dns, ip: string)
    ensures VerifyCrawler(dns, ip) == Verified <==>
            dns.ptr(ip).Answer? && VerifiedBy(dns, dns.ptr(ip).value, ip)
    ensures VerifyCrawler(dns, ip) == NotCrawler <==>
            dns.ptr(ip).Answer? && forall k :: 0 <= k < |dns.ptr(ip).value| ==> Dismissed(dns, dns.ptr(ip).value[k], ip)
  {
    hide MatchesCrawlerSuffix;
    if dns.ptr(ip).Answer? {
      ConfirmMatched(dns, dns.ptr(ip).value, ip);
    }
  }

  /** The name belongs to no crawler, or its forward lookup denies the address. */
  predicate Dismissed(dns: Dns, name: string, ip: string) {
    MatchesCrawlerSuffix(name) ==> Denies(dns.forward(name), ip)
  }

  ghost predicate VerifiedBy(dns: Dns, names: seq<string>, ip: string) {
    exists k :: 0 <= k < |names| && MatchesCrawlerSuffix(names[k]) && Confirms(dns.forward(names[k]), ip) &&
                forall j :: 0 <= j < k ==> Dismissed(dns, names[j], ip)
  }

  lemma {:induction false} ConfirmMatched(dns: Dns, names: seq<string>, ip: string)
    ensures Confirm(dns, Matched(names), ip) == Verified <==> VerifiedBy(dns, names, ip)
    ensures Confirm(dns, Matched(names), ip) == NotCrawler <==>
            forall k :: 0 <= k < |names| ==> Dismissed(dns, names[k], ip)
  {
    hide MatchesCrawlerSuffix;
    if names != [] {
      var rest := names[1..];
      ConfirmMatched(dns, rest, ip);
      assert forall k :: 0 < k < |names| ==> names[k] == rest[k - 1];
      assert forall k :: 0 <= k < |rest| ==> rest[k] == names[k + 1];
      if VerifiedBy(dns, rest, ip) && Dismissed(dns, names[0], ip) {
        var k :| 0 <= k < |rest| && MatchesCrawlerSuffix(rest[k]) && Confirms(dns.forward(rest[k]), ip) &&
                 forall j :: 0 <= j < k ==> Dismissed(dns, rest[j], ip);
        assert MatchesCrawlerSuffix(names[k + 1]) && Confirms(dns.forward(names[k + 1]), ip);
        assert VerifiedBy(dns, names, ip);
      }
      if VerifiedBy(dns, names, ip) {
        var k :| 0 <= k < |names| && MatchesCrawlerSuffix(names[k]) && Confirms(dns.forward(names[k]), ip) &&
                 forall j :: 0 <= j < k ==> Dismissed(dns, names[j], ip);
        if k > 0 {
          assert MatchesCrawlerSuffix(rest[k - 1]) && Confirms(dns.forward(rest[k - 1]), ip);
          assert VerifiedBy(dns, rest, ip);
        }
      }
    }
  }

  // ---- The memo ----

  type Memo = map<string, (bool, int)>

  /** `duration_since` saturates at zero. */
  function Age(now: int, at: int): nat { if now < at then 0 else now - at }

  function Cached(memo: Memo, ttl: nat, ip: string, now: int): Verdict {
    if ip in memo && Age(now, memo[ip].1) < ttl then (if memo[ip].0 then Verified else NotCrawler) else Unknown
  }

  function MemoVerdict(memo: Memo, ttl: nat, dns: Dns, ip: string, now: int): Verdict {
    if Cached(memo, ttl, ip, now) != Unknown then Cached(memo, ttl, ip, now) else VerifyCrawler(dns, ip)
  }

  function MemoAfter(memo: Memo, ttl: nat, dns: Dns, ip: string, now: int): Memo {
    if Cached(memo, ttl, ip, now) != Unknown then memo
    else match VerifyCrawler(dns, ip)
      case Verified => memo[ip := (true, now)]
      case NotCrawler => memo[ip := (false, now)]
      case Unknown => memo
  }

  class CrawlerCache {
    const ttl: nat
    var inner: Memo

    constructor (ttl: nat)
      ensures this.ttl == ttl && inner == map[]
    {
      this.ttl := ttl;
      inner := map[];
    }

    method Verify(dns: Dns, ip: string, now: int) returns (verdict: Verdict)
      modifies this
      ensures verdict == MemoVerdict(old(inner), ttl, dns, ip, now)
      ensures inner == MemoAfter(old(inner), ttl, dns, ip, now)
    {
      hide VerifyCrawler;
      if ip in inner && Age(now, inner[ip].1) < ttl {
        return if inner[ip].0 then Verified else NotCrawler;
      }
      verdict := VerifyCrawler(dns, ip);
      match verdict {
        case Verified => inner := inner[ip := (true, now)];
        case NotCrawler => inner := inner[ip := (false, now)];
        case Unknown =>
      }
    }
  }

  // ---- Over whole runs ----

  /** One call of the cache: the resolver's answers at that moment, the address, the instant. */
  datatype Call = Call(dns: Dns, ip: string, now: int)

  function MemoRun(calls: seq<Call>, ttl: nat): Memo {
    if calls == [] then map[]
    else
      var c := calls[|calls| - 1];
      MemoAfter(MemoRun(calls[..|calls| - 1], ttl), ttl, c.dns, c.ip, c.now)
  }

  /** The answer the cache gives to the last of the calls. */
  function LastAnswer(calls: seq<Call>, ttl: nat): Verdict
    requires calls != []
  {
    var c := calls[|calls| - 1];
    MemoVerdict(MemoRun(calls[..|calls| - 1], ttl), ttl, c.dns, c.ip, c.now)
  }

  predicate ResolvedAs(c: Call, ip: string, verdict: Verdict) {
    c.ip == ip && VerifyCrawler(c.dns, ip) == verdict
  }

  /** Everything memoized was resolved, definitively, at the recorded instant. */
  lemma {:induction false} MemoIsResolved(calls: seq<Call>, ttl: nat, ip: string)
    requires ip in MemoRun(calls, ttl)
    ensures exists k :: 0 <= k < |calls| && calls[k].now == MemoRun(calls, ttl)[ip].1 &&
                        ResolvedAs(calls[k], ip, if MemoRun(calls, ttl)[ip].0 then Verified else NotCrawler)
  {
    var n := |calls| - 1;
    var before, c := MemoRun(calls[..n], ttl), calls[n];
    if ip in before && MemoRun(calls, ttl)[ip] == before[ip] {
      MemoIsResolved(calls[..n], ttl, ip);
      var k :| 0 <= k < n && calls[..n][k].now == before[ip].1 &&
               ResolvedAs(calls[..n][k], ip, if before[ip].0 then Verified else NotCrawler);
      assert calls[k] == calls[..n][k];
    } else {
      assert c.ip == ip && ResolvedAs(calls[n], ip, if MemoRun(calls, ttl)[ip].0 then Verified else NotCrawler);
    }
  }

  /** Every answer was resolved for that address either by this call or by an earlier one less than
      one lifetime ago, and an answer taken from the cache is never Unknown. */
  lemma AnswersAreFresh(calls: seq<Call>, ttl: nat)
    requires calls != []
    ensures var n := |calls| - 1;
            ResolvedAs(calls[n], calls[n].ip, LastAnswer(calls, ttl)) ||
            (LastAnswer(calls, ttl) != Unknown &&
             exists k :: 0 <= k < n && ttl > 0 && calls[n].now - calls[k].now < ttl &&
                         ResolvedAs(calls[k], calls[n].ip, LastAnswer(calls, ttl)))
  {
    hide VerifyCrawler;
    var n := |calls| - 1;
    var before, c := MemoRun(calls[..n], ttl), calls[n];
    if Cached(before, ttl, c.ip, c.now) != Unknown {
      MemoIsResolved(calls[..n], ttl, c.ip);
      var k :| 0 <= k < n && calls[..n][k].now == before[c.ip].1 &&
               ResolvedAs(calls[..n][k], c.ip, if before[c.ip].0 then Verified else NotCrawler);
      assert calls[k] == calls[..n][k];
    }
  }

  /** A definite answer is given again, whatever the resolver says by then, to a call for the same address less than
      one lifetime after the answer was resolved. */
  lemma DefiniteAnswerIsReused(calls: seq<Call>, ttl: nat, next: Call)
    requires calls != [] && calls[|calls| - 1].ip == next.ip && LastAnswer(calls, ttl) != Unknown
    ensures next.ip in MemoRun(calls, ttl)
    ensures ttl > 0 && next.now - MemoRun(calls, ttl)[next.ip].1 < ttl ==>
              LastAnswer(calls + [next], ttl) == LastAnswer(calls, ttl)
  {
    hide VerifyCrawler;
    assert (calls + [next])[..|calls|] == calls;
  }
}
