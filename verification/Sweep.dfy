/** One detection pass over the log, and what holds over whole runs of the greylist. */
module Sweep {
  import opened Wrappers
  import opened Detection
  import opened Crawler
  import opened Greylist

  const DAY: int := 86_400
  const SWEEP_WINDOW: int := 1 * DAY
  const GREYLIST_TTL: int := 7 * DAY
  const CRAWLER_CACHE_TTL: nat := 6 * 3600

  // ---- The decision about one IP ----

  datatype Decision = Skip | Exempt | Inconclusive | List(rule: Rule)

  /** A pass's view of the world: the operator addresses, the resolver, and the instant at which
      the look-up of each address begins. */
  datatype Pass = Pass(allow: set<string>, dns: Dns, instant: string -> int)

  /** R1 never asks; the blunt rules ask, and only a definite NotCrawler lists the address. */
  function Decide(p: Pass, memo: Memo, ttl: nat, f: IpFeatures): Decision {
    if f.ip in p.allow then Skip
    else match Score(f)
      case None => Skip
      case Some(rule) =>
        if !rule.ExemptsVerifiedCrawlers() then List(rule)
        else match MemoVerdict(memo, ttl, p.dns, f.ip, p.instant(f.ip))
          case Verified => Exempt
          case Unknown => Inconclusive
          case NotCrawler => List(rule)
  }

  predicate Consults(p: Pass, f: IpFeatures) {
    f.ip !in p.allow && Score(f).Some? && Score(f).value.ExemptsVerifiedCrawlers()
  }

  /** The cache calls of a pass, in the order of its features. */
  function Calls(p: Pass, fs: seq<IpFeatures>): seq<Call> {
    if fs == [] then []
    else
      var f := fs[|fs| - 1];
      Calls(p, fs[..|fs| - 1]) + if Consults(p, f) then [Call(p.dns, f.ip, p.instant(f.ip))] else []
  }

  function MemoFold(p: Pass, memo: Memo, ttl: nat, fs: seq<IpFeatures>): Memo {
    if fs == [] then memo
    else
      var f := fs[|fs| - 1];
      var m := MemoFold(p, memo, ttl, fs[..|fs| - 1]);
      if Consults(p, f) then MemoAfter(m, ttl, p.dns, f.ip, p.instant(f.ip)) else m
  }

  /** The upserts of a pass. */
  function Listed(p: Pass, memo: Memo, ttl: nat, t: Table, fs: seq<IpFeatures>, expires: int): Table {
    if fs == [] then t
    else
      var f := fs[|fs| - 1];
      var t' := Listed(p, memo, ttl, t, fs[..|fs| - 1], expires);
      match Decide(p, memo, ttl, f)
      case List(rule) => UpsertAuto(t', f.ip, rule.Label(), Some(f), expires)
      case _ => t'
  }

  predicate Distinct(fs: seq<IpFeatures>) {
    forall i, j :: 0 <= i < j < |fs| ==> fs[i].ip != fs[j].ip
  }

  /** Each address is looked up once a pass, so earlier look-ups cannot change its answer. */
  lemma {:induction false} MemoFoldOthers(p: Pass, memo: Memo, ttl: nat, fs: seq<IpFeatures>, ip: string, now: int)
    requires !Lists(fs, ip)
    ensures Cached(MemoFold(p, memo, ttl, fs), ttl, ip, now) == Cached(memo, ttl, ip, now)
  {
    hide VerifyCrawler;
    if fs != [] {
      var n := |fs| - 1;
      assert fs[n].ip != ip;
      forall i | 0 <= i < n
        ensures fs[..n][i].ip != ip
      {
        assert fs[i].ip != ip;
      }
      MemoFoldOthers(p, memo, ttl, fs[..n], ip, now);
    }
  }

  /** What the upserts leave under a listed address, whatever order the features came in. */
  lemma {:induction false} ListedEntry(p: Pass, memo: Memo, ttl: nat, t: Table, fs: seq<IpFeatures>, expires: int,
      i: nat)
    requires Distinct(fs) && i < |fs| && Decide(p, memo, ttl, fs[i]).List?
    ensures var t' := Listed(p, memo, ttl, t, fs, expires);
            fs[i].ip in t' &&
            t'[fs[i].ip] == Entry(Decide(p, memo, ttl, fs[i]).rule.Label(), Some(fs[i]),
                                  fs[i].ip in t && t[fs[i].ip].manual, Some(expires))
  {
    hide Decide;
    var n := |fs| - 1;
    if i == n {
      UnlistedEntry(p, memo, ttl, t, fs[..n], expires, fs[n].ip);
    } else {
      ListedEntry(p, memo, ttl, t, fs[..n], expires, i);
      assert fs[..n][i] == fs[i];
    }
  }

  /** Every other address keeps its row. */
  lemma {:induction false} UnlistedEntry(p: Pass, memo: Memo, ttl: nat, t: Table, fs: seq<IpFeatures>, expires: int,
      ip: string)
    requires forall i :: 0 <= i < |fs| && fs[i].ip == ip ==> !Decide(p, memo, ttl, fs[i]).List?
    ensures var t' := Listed(p, memo, ttl, t, fs, expires);
            (ip in t' <==> ip in t) && (ip in t ==> t'[ip] == t[ip])
  {
    hide Decide;
    if fs != [] {
      UnlistedEntry(p, memo, ttl, t, fs[..|fs| - 1], expires, ip);
    }
  }

  // ---- Who is listed, by the counts themselves ----

  /** What the resolver, or a memo of it that has not lapsed, says of a feature's address. */
  function VerdictOn(p: Pass, memo: Memo, ttl: nat, f: IpFeatures): Verdict {
    MemoVerdict(memo, ttl, p.dns, f.ip, p.instant(f.ip))
  }

  /** Two signature hits list an address outright; forty paths not found or a thousand requests list it only if it
      is resolved to be no crawler. The operator's own addresses are never listed. */
  predicate Condemned(p: Pass, memo: Memo, ttl: nat, f: IpFeatures) {
    f.ip !in p.allow &&
    (f.signatureHits >= 2 ||
     ((f.distinct404 >= 40 || f.total >= 1000) && VerdictOn(p, memo, ttl, f) == NotCrawler))
  }

  /** The rule named is the first that fits. */
  function Reason(f: IpFeatures): string {
    if f.signatureHits >= 2 then "R1: signature probe"
    else if f.distinct404 >= 40 then "R2: 404 burst"
    else "R3: flood"
  }

  /** Only the resolver can spare it. */
  predicate Spared(p: Pass, memo: Memo, ttl: nat, f: IpFeatures, verdict: Verdict) {
    f.ip !in p.allow && f.signatureHits < 2 && (f.distinct404 >= 40 || f.total >= 1000) &&
    VerdictOn(p, memo, ttl, f) == verdict
  }

  lemma DecideIff(p: Pass, memo: Memo, ttl: nat, f: IpFeatures)
    ensures Decide(p, memo, ttl, f).List? <==> Condemned(p, memo, ttl, f)
    ensures Decide(p, memo, ttl, f).List? ==> Decide(p, memo, ttl, f).rule.Label() == Reason(f)
    ensures Decide(p, memo, ttl, f).Exempt? <==> Spared(p, memo, ttl, f, Verified)
    ensures Decide(p, memo, ttl, f).Inconclusive? <==> Spared(p, memo, ttl, f, Unknown)
  {
    hide MemoVerdict;
  }

  /** What a pass that completes leaves under an address it looked at. */
  lemma SweptEntry(p: Pass, memo: Memo, ttl: nat, t: Table, fs: seq<IpFeatures>, faults: Faults, expires: int,
      pruneAt: int, i: nat)
    requires Distinct(fs) && i < |fs| && Completes(p, memo, ttl, fs, faults)
    ensures var (f, t') := (fs[i], SweptTable(p, memo, ttl, t, fs, faults, expires, pruneAt));
            if f.ip in p.allow then
              f.ip in t' ==> f.ip in faults.release && f.ip in t && t'[f.ip] == t[f.ip]
            else if Condemned(p, memo, ttl, f) then
              var manual := f.ip in t && t[f.ip].manual;
              (f.ip in t' <==> manual || pruneAt < expires) &&
              (f.ip in t' ==> t'[f.ip] == Entry(Reason(f), Some(f), manual, Some(expires)))
            else
              (f.ip in t' <==> f.ip in t && (t[f.ip].manual || t[f.ip].expiresAt.None? ||
                                             pruneAt < t[f.ip].expiresAt.value)) &&
              (f.ip in t' ==> t'[f.ip] == t[f.ip])
  {
    hide Decide, Condemned, Reached;
    assert fs[..|fs|] == fs;
    DecideIff(p, memo, ttl, fs[i]);
    if Condemned(p, memo, ttl, fs[i]) {
      ListedEntry(p, memo, ttl, t, fs, expires, i);
      assert fs[i].ip !in p.allow by {
        OperatorSpared(p, memo, ttl, fs[i]);
      }
    } else {
      UnlistedEntry(p, memo, ttl, t, fs, expires, fs[i].ip);
    }
  }

  lemma OperatorSpared(p: Pass, memo: Memo, ttl: nat, f: IpFeatures)
    requires Condemned(p, memo, ttl, f)
    ensures f.ip !in p.allow
  {
  }

  // ---- The pass as the code runs it ----

  datatype SweepReport = SweepReport(evaluated: nat, greylisted: nat, exemptedCrawlers: nat, skippedUnknownDns: nat)

  function Tally(r: SweepReport, d: Decision): SweepReport {
    var r' := r.(evaluated := r.evaluated + 1);
    match d
    case Skip => r'
    case Exempt => r'.(exemptedCrawlers := r.exemptedCrawlers + 1)
    case Inconclusive => r'.(skippedUnknownDns := r.skippedUnknownDns + 1)
    case List(_) => r'.(greylisted := r.greylisted + 1)
  }

  /** The outcomes counted. */
  function Report(p: Pass, memo: Memo, ttl: nat, fs: seq<IpFeatures>): (r: SweepReport)
    ensures r.evaluated == |fs| && r.greylisted + r.exemptedCrawlers + r.skippedUnknownDns <= |fs|
  {
    if fs == [] then SweepReport(0, 0, 0, 0)
    else Tally(Report(p, memo, ttl, fs[..|fs| - 1]), Decide(p, memo, ttl, fs[|fs| - 1]))
  }

  /** The places in the list whose outcome is `like`, the rule aside. */
  function Places(p: Pass, memo: Memo, ttl: nat, fs: seq<IpFeatures>, like: Decision): set<nat> {
    set i: nat | i < |fs| && SameKind(Decide(p, memo, ttl, fs[i]), like)
  }

  predicate SameKind(a: Decision, b: Decision) { a == b || (a.List? && b.List?) }

  /** Each counter of the report is the number of features with that outcome. */
  lemma {:induction false} ReportCounts(p: Pass, memo: Memo, ttl: nat, fs: seq<IpFeatures>, rule: Rule)
    ensures var r := Report(p, memo, ttl, fs);
            r.greylisted == |Places(p, memo, ttl, fs, List(rule))| &&
            r.exemptedCrawlers == |Places(p, memo, ttl, fs, Exempt)| &&
            r.skippedUnknownDns == |Places(p, memo, ttl, fs, Inconclusive)|
  {
    hide Decide, Places;
    if fs == [] {
      PlacesEmpty(p, memo, ttl);
    } else {
      ReportCounts(p, memo, ttl, fs[..|fs| - 1], rule);
      PlacesGrow(p, memo, ttl, fs, List(rule));
      PlacesGrow(p, memo, ttl, fs, Exempt);
      PlacesGrow(p, memo, ttl, fs, Inconclusive);
    }
  }

  lemma PlacesEmpty(p: Pass, memo: Memo, ttl: nat)
    ensures forall like :: Places(p, memo, ttl, [], like) == {}
  {
  }

  lemma PlacesGrow(p: Pass, memo: Memo, ttl: nat, fs: seq<IpFeatures>, like: Decision)
    requires fs != []
    ensures |Places(p, memo, ttl, fs, like)| ==
            |Places(p, memo, ttl, fs[..|fs| - 1], like)| +
            if SameKind(Decide(p, memo, ttl, fs[|fs| - 1]), like) then 1 else 0
  {
    hide Decide, SameKind;
    var n: nat := |fs| - 1;
    var before, after := Places(p, memo, ttl, fs[..n], like), Places(p, memo, ttl, fs, like);
    if SameKind(Decide(p, memo, ttl, fs[n]), like) {
      assert n !in before;
      assert after == before + {n};
      assert |before + {n}| == |before| + 1;
    } else {
      assert after == before;
    }
  }

  /** The statements that fail in a pass: the upsert of some addresses, the release of some, the prune, and the
      query for the active rows. A failed release is logged and passed over; the others end the pass. */
  datatype Faults = Faults(upsert: set<string>, release: set<string>, prune: bool, active: bool)

  const NO_FAULTS: Faults := Faults({}, {}, false, false)

  predicate Fails(p: Pass, memo: Memo, ttl: nat, f: IpFeatures, faults: Faults) {
    Decide(p, memo, ttl, f).List? && f.ip in faults.upsert
  }

  /** How many features the loop gets through: up to the first failed upsert, or all. */
  function Reached(p: Pass, memo: Memo, ttl: nat, fs: seq<IpFeatures>, faults: Faults): (k: nat)
    ensures k <= |fs|
    ensures forall i :: 0 <= i < k ==> !Fails(p, memo, ttl, fs[i], faults)
    ensures k < |fs| ==> Fails(p, memo, ttl, fs[k], faults)
  {
    if fs == [] then 0
    else
      var n := |fs| - 1;
      var k := Reached(p, memo, ttl, fs[..n], faults);
      if k < n || Fails(p, memo, ttl, fs[n], faults) then k else n + 1
  }

  /** The features whose addresses may have been looked up: with the one whose upsert failed. */
  function Seen(p: Pass, memo: Memo, ttl: nat, fs: seq<IpFeatures>, faults: Faults): seq<IpFeatures> {
    var k := Reached(p, memo, ttl, fs, faults);
    if k < |fs| then fs[..k + 1] else fs
  }

  /** The pass gets as far as the new snapshot. */
  predicate Completes(p: Pass, memo: Memo, ttl: nat, fs: seq<IpFeatures>, faults: Faults) {
    Reached(p, memo, ttl, fs, faults) == |fs| && !faults.prune && !faults.active
  }

  /** The table a pass leaves: upserts, then the operator's addresses out, then lapsed rows out. */
  function SweptTable(p: Pass, memo: Memo, ttl: nat, t: Table, fs: seq<IpFeatures>, faults: Faults,
                      expires: int, pruneAt: int): Table {
    var k := Reached(p, memo, ttl, fs, faults);
    var listed := Listed(p, memo, ttl, t, fs[..k], expires);
    if k < |fs| then listed
    else
      var released := listed - (p.allow - faults.release);
      if faults.prune then released else PruneExpired(released, pruneAt)
  }

  /** `expiryNow`, `pruneNow` and `activeNow` are the later clock readings of the same pass. A pass that ends early
      reports nothing and leaves the snapshot alone. */
  method RunOnce(table: GreylistTable, cache: CrawlerCache, greys: GreylistSet, parse: Parser, rows: seq<AggRow>,
                 p: Pass, faults: Faults, expiryNow: int, pruneNow: int, activeNow: int)
    returns (report: Option<SweepReport>, ghost fs: seq<IpFeatures>)
    requires p.allow == greys.allow
    modifies table, cache, greys
    ensures AreFeaturesOf(parse, rows, fs) && greys.allow == old(greys.allow)
    ensures table.rows == SweptTable(p, old(cache.inner), cache.ttl, old(table.rows), fs, faults,
                                     expiryNow + 604_800, pruneNow)
    ensures cache.inner == MemoFold(p, old(cache.inner), cache.ttl, Seen(p, old(cache.inner), cache.ttl, fs, faults))
    ensures greys.inner == if Completes(p, old(cache.inner), cache.ttl, fs, faults) then Active(table.rows, activeNow)
                           else old(greys.inner)
    ensures report == if Completes(p, old(cache.inner), cache.ttl, fs, faults)
                      then Some(Report(p, old(cache.inner), cache.ttl, fs)) else None
  {
    hide AreFeaturesOf, PruneExpired, Listed, MemoFold, Report, Reached, Decide;
    var features := BuildFeatures(parse, rows);
    fs := features;
    FeaturesAreDistinct(parse, rows, fs);
    report := ScoreAll(table, cache, greys, p, features, faults, expiryNow + GREYLIST_TTL);
    assert fs[..|fs|] == fs;
    if report.Some? {
      var ok := CleanUp(table, greys, faults, pruneNow, activeNow);
      if !ok {
        report := None;
      }
    }
  }

  /** What follows the loop: release, prune, refresh. */
  method CleanUp(table: GreylistTable, greys: GreylistSet, faults: Faults, pruneNow: int, activeNow: int)
    returns (ok: bool)
    modifies table, greys
    ensures ok <==> !faults.prune && !faults.active
    ensures greys.allow == old(greys.allow)
    ensures var released := old(table.rows) - (greys.allow - faults.release);
            table.rows == if faults.prune then released else PruneExpired(released, pruneNow)
    ensures greys.inner == if ok then Active(table.rows, activeNow) else old(greys.inner)
  {
    hide PruneExpired;
    ReleaseOperator(table, greys, faults.release);
    if faults.prune {
      return false;
    }
    var _ := table.Prune(pruneNow);
    if faults.active {
      return false;
    }
    greys.Refresh(Active(table.rows, activeNow));
    ok := true;
  }

  /** The loop over the features, up to the first failed upsert. */
  method ScoreAll(table: GreylistTable, cache: CrawlerCache, greys: GreylistSet, p: Pass, fs: seq<IpFeatures>,
                  faults: Faults, expires: int)
    returns (report: Option<SweepReport>)
    requires p.allow == greys.allow && Distinct(fs)
    modifies table, cache
    ensures var k := Reached(p, old(cache.inner), cache.ttl, fs, faults);
            table.rows == Listed(p, old(cache.inner), cache.ttl, old(table.rows), fs[..k], expires) &&
            report == if k == |fs| then Some(Report(p, old(cache.inner), cache.ttl, fs)) else None
    ensures cache.inner == MemoFold(p, old(cache.inner), cache.ttl, Seen(p, old(cache.inner), cache.ttl, fs, faults))
  {
    hide Decide, MemoAfter, UpsertAuto, Consults, Reached, Tally;
    ghost var memo, t := cache.inner, table.rows;
    var counts := SweepReport(0, 0, 0, 0);
    for i := 0 to |fs|
      invariant table.rows == Listed(p, memo, cache.ttl, t, fs[..i], expires)
      invariant cache.inner == MemoFold(p, memo, cache.ttl, fs[..i])
      invariant counts == Report(p, memo, cache.ttl, fs[..i])
      invariant forall j :: 0 <= j < i ==> !Fails(p, memo, cache.ttl, fs[j], faults)
    {
      var f := fs[i];
      assert fs[..i + 1][..i] == fs[..i];
      DecisionUnchanged(p, memo, cache.ttl, fs, i);
      var decision, ok := ScoreOne(table, cache, greys, p, f, faults, expires);
      if !ok {
        assert Reached(p, memo, cache.ttl, fs, faults) == i;
        return None;
      }
      counts := Tally(counts, decision);
    }
    assert fs[..|fs|] == fs;
    assert Reached(p, memo, cache.ttl, fs, faults) == |fs|;
    report := Some(counts);
  }

  /** The body of the loop. */
  method ScoreOne(table: GreylistTable, cache: CrawlerCache, greys: GreylistSet, p: Pass, f: IpFeatures,
                  faults: Faults, expires: int)
    returns (d: Decision, ok: bool)
    requires p.allow == greys.allow
    modifies table, cache
    ensures d == Decide(p, old(cache.inner), cache.ttl, f)
    ensures cache.inner == if Consults(p, f) then MemoAfter(old(cache.inner), cache.ttl, p.dns, f.ip, p.instant(f.ip))
                           else old(cache.inner)
    ensures ok <==> !(d.List? && f.ip in faults.upsert)
    ensures table.rows == if d.List? && ok then UpsertAuto(old(table.rows), f.ip, d.rule.Label(), Some(f), expires)
                          else old(table.rows)
  {
    hide Decide, MemoAfter, UpsertAuto, Consults;
    d := DecideOne(cache, greys, p, f);
    ok := true;
    if d.List? {
      if f.ip in faults.upsert {
        return d, false;
      }
      table.Upsert(f.ip, d.rule.Label(), Some(f), expires);
    }
  }

  /** The decision about the next feature is the one the memo at the start of the pass gives. */
  lemma DecisionUnchanged(p: Pass, memo: Memo, ttl: nat, fs: seq<IpFeatures>, i: nat)
    requires Distinct(fs) && i < |fs|
    ensures Decide(p, MemoFold(p, memo, ttl, fs[..i]), ttl, fs[i]) == Decide(p, memo, ttl, fs[i])
  {
    hide VerifyCrawler, MemoFold;
    var ip := fs[i].ip;
    assert !Lists(fs[..i], ip);
    MemoFoldOthers(p, memo, ttl, fs[..i], ip, p.instant(ip));
  }

  method ReleaseOperator(table: GreylistTable, greys: GreylistSet, fails: set<string>)
    modifies table
    ensures table.rows == old(table.rows) - (greys.allow - fails)
  {
    var operator := greys.allow;
    while operator != {}
      invariant operator <= greys.allow
      invariant table.rows == old(table.rows) - (greys.allow - operator - fails)
      decreases |operator|
    {
      var ip :| ip in operator;
      if ip !in fails {
        var _ := table.Release(ip);
      }
      operator := operator - {ip};
    }
    assert greys.allow - operator == greys.allow;
  }

  lemma FeaturesAreDistinct(parse: Parser, rows: seq<AggRow>, fs: seq<IpFeatures>)
    requires AreFeaturesOf(parse, rows, fs)
    ensures Distinct(fs)
  {
  }

  /** The body of the loop up to the upsert. */
  method DecideOne(cache: CrawlerCache, greys: GreylistSet, p: Pass, f: IpFeatures) returns (d: Decision)
    requires p.allow == greys.allow
    modifies cache
    ensures d == Decide(p, old(cache.inner), cache.ttl, f)
    ensures cache.inner == if Consults(p, f) then MemoAfter(old(cache.inner), cache.ttl, p.dns, f.ip, p.instant(f.ip))
                           else old(cache.inner)
  {
    hide VerifyCrawler;
    if f.ip in greys.allow {
      return Skip;
    }
    var scored := Score(f);
    if scored.None? {
      return Skip;
    }
    var rule := scored.value;
    if rule.ExemptsVerifiedCrawlers() {
      var verdict := cache.Verify(p.dns, f.ip, p.instant(f.ip));
      match verdict {
        case Verified => return Exempt;
        case Unknown => return Inconclusive;
        case NotCrawler =>
      }
    }
    d := List(rule);
  }
}
