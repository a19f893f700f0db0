/** The greylist as a state machine: requests, passes, pins, releases and address changes in any
    order. A pass is atomic except for its own clock readings. */
module GreylistRuns {
  import opened Wrappers
  import opened Text
  import opened Detection
  import opened Crawler
  import opened Greylist
  import opened Sweep

  /** `calls` are the calls of the shared cache since the process started, so that its contents are MemoRun(calls);
      `refreshed` is when the snapshot was last read from the table by this process, if it was, and `read` is the
      table as read then, with the pins and releases since. */
  datatype State = State(log: seq<Request>, table: Table, snapshot: set<string>, allow: set<string>,
                         calls: seq<Call>, refreshed: Option<int>, read: Table, now: int)

  /** The lifetime of the cache a pass makes for itself when an operator asks for one. */
  const MANUAL_CACHE_TTL: nat := 60

  datatype Step =
    | Log(ip: Option<string>, path: string, status: int)
    | Wait(seconds: nat)
    | Pin(pinned: string)
    | Release(released: string)
    | SetPublicIps(ips: set<string>)
    | Boot(loaded: bool)
    | RunPass(manual: bool, parse: Parser, rows: seq<AggRow>, fs: seq<IpFeatures>, dns: Dns, instant: string -> int,
              faults: Faults, readLag: nat, pruneLag: nat, activeLag: nat)

  /** A timed pass shares one cache, a manual one makes its own; a restart empties the cache and the operator
      addresses, and reads the snapshot from the table unless that fails. A pass sees the grouped window of the
      log and some list of its features. */
  ghost predicate Enabled(s: State, step: Step) {
    step.RunPass? ==>
      IsAggregate(step.rows, s.log, s.now - SWEEP_WINDOW) && AreFeaturesOf(step.parse, step.rows, step.fs)
  }

  function View(s: State, step: Step): Pass
    requires step.RunPass?
  {
    Pass(s.allow, step.dns, step.instant)
  }

  /** The expiry a pass writes: from its second clock reading, `readLag` after the window's. */
  function Expiry(s: State, step: Step): int
    requires step.RunPass?
  {
    s.now + step.readLag + GREYLIST_TTL
  }

  function PassTtl(step: Step): nat
    requires step.RunPass?
  {
    if step.manual then MANUAL_CACHE_TTL else CRAWLER_CACHE_TTL
  }

  /** The calls made so far on the cache a pass uses. */
  function CallsBefore(s: State, step: Step): seq<Call>
    requires step.RunPass?
  {
    if step.manual then [] else s.calls
  }

  function PassMemo(s: State, step: Step): Memo
    requires step.RunPass?
  {
    MemoRun(CallsBefore(s, step), PassTtl(step))
  }

  function TableAfterPass(s: State, step: Step): Table
    requires step.RunPass?
  {
    SweptTable(View(s, step), PassMemo(s, step), PassTtl(step), s.table, step.fs, step.faults,
               Expiry(s, step), s.now + step.readLag + step.pruneLag)
  }

  /** The features whose upserts the pass gets through. */
  function Handled(s: State, step: Step): (fs: seq<IpFeatures>)
    requires step.RunPass?
    ensures |fs| <= |step.fs| && forall i :: 0 <= i < |fs| ==> fs[i] == step.fs[i]
  {
    step.fs[..Reached(View(s, step), PassMemo(s, step), PassTtl(step), step.fs, step.faults)]
  }

  /** The cache calls a pass makes. */
  function CallsIn(s: State, step: Step): seq<Call>
    requires step.RunPass?
  {
    Calls(View(s, step), Sweep.Seen(View(s, step), PassMemo(s, step), PassTtl(step), step.fs, step.faults))
  }

  predicate Completed(s: State, step: Step)
    requires step.RunPass?
  {
    Completes(View(s, step), PassMemo(s, step), PassTtl(step), step.fs, step.faults)
  }

  /** The pass's decision about one of its features. */
  function DecisionOn(s: State, step: Step, i: nat): Decision
    requires step.RunPass? && i < |step.fs|
  {
    Decide(View(s, step), PassMemo(s, step), PassTtl(step), step.fs[i])
  }

  function Apply(s: State, step: Step): State {
    match step
    case Log(ip, path, status) => s.(log := s.log + [Request(ip, path, status, s.now)])
    case Wait(seconds) => s.(now := s.now + seconds)
    case Pin(ip) =>
      s.(table := PinManual(s.table, ip, "manual"), read := PinManual(s.read, ip, "manual"),
         snapshot := s.snapshot + {ip})
    case Release(ip) => s.(table := s.table - {ip}, read := s.read - {ip}, snapshot := s.snapshot - {ip})
    case SetPublicIps(ips) => s.(allow := ips)
    case Boot(loaded) =>
      s.(snapshot := if loaded then Active(s.table, s.now) else {}, allow := {}, calls := [],
         refreshed := if loaded then Some(s.now) else None, read := if loaded then s.table else map[])
    case RunPass(manual, _, _, _, _, _, _, _, _, _) =>
      var after := s.(table := TableAfterPass(s, step), now := PassEnd(s, step),
                      calls := if manual then s.calls else s.calls + CallsIn(s, step));
      if Completed(s, step)
      then after.(snapshot := Active(after.table, after.now), refreshed := Some(after.now), read := after.table)
      else after
  }

  function PassEnd(s: State, step: Step): int
    requires step.RunPass?
  {
    s.now + step.readLag + step.pruneLag + step.activeLag
  }

  predicate IsInitial(s: State) {
    s.log == [] && s.table == map[] && s.snapshot == {} && s.calls == [] && s.refreshed == None && s.read == map[]
  }

  function Run(s: State, steps: seq<Step>): State {
    if steps == [] then s else Apply(Run(s, steps[..|steps| - 1]), steps[|steps| - 1])
  }

  ghost predicate AllEnabled(s: State, steps: seq<Step>) {
    forall i :: 0 <= i < |steps| ==> Enabled(Run(s, steps[..i]), steps[i])
  }

  // ---- Every automatic entry is backed by a logged request ----

  predicate Backs(r: Request, ip: string, e: Entry, lag: nat) {
    r.ip == Some(ip) && e.expiresAt.Some? && e.expiresAt.value <= r.ts + 8 * 86_400 + lag
  }

  ghost predicate Justified(s: State, lag: nat) {
    forall ip :: ip in s.table && !s.table[ip].manual ==> exists r :: r in s.log && Backs(r, ip, s.table[ip], lag)
  }

  predicate LagAtMost(step: Step, lag: nat) { step.RunPass? ==> step.readLag <= lag }

  lemma PassJustified(s: State, step: Step, lag: nat)
    requires Justified(s, lag) && step.RunPass? && Enabled(s, step) && step.readLag <= lag
    ensures Justified(Apply(s, step), lag)
  {
    hide Decide, VerifyCrawler, DirectFeatures, ShouldEvaluate, PassMemo, Reached, AreFeaturesOf, IsAggregate;
    var t' := TableAfterPass(s, step);
    FeaturesOfLog(step.parse, step.rows, step.fs, s.log, s.now - SWEEP_WINDOW);
    forall ip | ip in t' && !t'[ip].manual
      ensures exists r :: r in s.log && Backs(r, ip, t'[ip], lag)
    {
      EntryAfterPass(s, step, ip);
      if i: nat :| IsListed(s, step, i, ip) {
        assert Lists(step.fs, ip);
        var r :| r in s.log && r.ip == Some(ip) && r.ts >= s.now - SWEEP_WINDOW;
        assert Backs(r, ip, t'[ip], lag);
      }
    }
  }

  /** The pass writes an entry for the address, as its `i`-th feature. */
  ghost predicate IsListed(s: State, step: Step, i: nat, ip: string)
    requires step.RunPass?
  {
    i < |Handled(s, step)| && step.fs[i].ip == ip && DecisionOn(s, step, i).List?
  }

  /** An entry after a pass is the one the pass wrote for its address, or the one that was there before. */
  lemma EntryAfterPass(s: State, step: Step, ip: string)
    requires step.RunPass? && Enabled(s, step) && ip in TableAfterPass(s, step)
    ensures forall i: nat :: IsListed(s, step, i, ip) ==>
              TableAfterPass(s, step)[ip] == Entry(DecisionOn(s, step, i).rule.Label(), Some(step.fs[i]),
                                                   ip in s.table && s.table[ip].manual, Some(Expiry(s, step)))
    ensures (forall i: nat :: !IsListed(s, step, i, ip)) ==> ip in s.table && TableAfterPass(s, step)[ip] == s.table[ip]
  {
    hide Decide, PassMemo, Reached, AreFeaturesOf, IsAggregate;
    var p, memo, ttl, fs := View(s, step), PassMemo(s, step), PassTtl(step), Handled(s, step);
    HandledAreDistinct(s, step);
    forall i: nat | IsListed(s, step, i, ip)
      ensures TableAfterPass(s, step)[ip] == Entry(DecisionOn(s, step, i).rule.Label(), Some(step.fs[i]),
                                                   ip in s.table && s.table[ip].manual, Some(Expiry(s, step)))
    {
      ListedEntry(p, memo, ttl, s.table, fs, Expiry(s, step), i);
    }
    if forall i: nat :: !IsListed(s, step, i, ip) {
      forall i | 0 <= i < |fs| && fs[i].ip == ip
        ensures !Decide(p, memo, ttl, fs[i]).List?
      {
        assert !IsListed(s, step, i, ip);
      }
      UnlistedEntry(p, memo, ttl, s.table, fs, Expiry(s, step), ip);
    }
  }

  lemma HandledAreDistinct(s: State, step: Step)
    requires step.RunPass? && Enabled(s, step)
    ensures Distinct(Handled(s, step))
  {
    hide IsAggregate, Reached;
    FeaturesAreDistinct(step.parse, step.rows, step.fs);
  }

  /** The log alone condemns the address: within the last day it got two errors on signature paths; or forty paths
      were not found, or it made a thousand requests, and the pass resolves it to be no crawler. */
  predicate LogCondemns(s: State, step: Step, ip: string)
    requires step.RunPass?
  {
    var from := s.now - 86_400;
    |Detection.Probes(s.log, from, ip)| >= 2 ||
    ((|PathsMissing(s.log, from, ip)| >= 40 || |Requests(s.log, from, ip)| >= 1000) &&
     MemoVerdict(PassMemo(s, step), PassTtl(step), step.dns, ip, step.instant(ip)) == NotCrawler)
  }

  /** A pass whose upserts go through writes an entry exactly for the public addresses, the operator's own aside, that
      the log condemns. */
  lemma PassListsIff(s: State, step: Step, ip: string)
    requires step.RunPass? && Enabled(s, step) && |Handled(s, step)| == |step.fs|
    ensures (exists i: nat :: IsListed(s, step, i, ip)) <==>
            ShouldEvaluate(step.parse, ip) && ip !in s.allow && LogCondemns(s, step, ip)
  {
    hide Decide, MemoVerdict, DirectFeatures, ShouldEvaluate, PassMemo, Reached, AreFeaturesOf, IsAggregate, Handled,
      Requests, PathsMissing, Detection.Probes, Failures, PathsAsked;
    var from := s.now - 86_400;
    FeaturesOfLog(step.parse, step.rows, step.fs, s.log, from);
    FeaturesMean(s.log, from, ip);
    forall i: nat | i < |step.fs| && step.fs[i].ip == ip
      ensures DecisionOn(s, step, i).List? <==> ip !in s.allow && LogCondemns(s, step, ip)
    {
      DecideIff(View(s, step), PassMemo(s, step), PassTtl(step), step.fs[i]);
    }
    if Lists(step.fs, ip) {
      var i :| 0 <= i < |step.fs| && step.fs[i].ip == ip;
      assert IsListed(s, step, i, ip) <==> DecisionOn(s, step, i).List?;
    } else if ShouldEvaluate(step.parse, ip) {
      QuietIsSpared(s, step, ip);
    }
  }

  /** An address without a request in the window is not condemned. */
  lemma QuietIsSpared(s: State, step: Step, ip: string)
    requires step.RunPass?
    requires !exists x :: x in s.log && x.ip == Some(ip) && x.ts >= s.now - 86_400
    ensures !LogCondemns(s, step, ip)
  {
    hide MemoVerdict, PassMemo;
    var from := s.now - 86_400;
    assert forall i :: 0 <= i < |s.log| ==> s.log[i] in s.log;
    assert Detection.Probes(s.log, from, ip) == {};
    assert Requests(s.log, from, ip) == {};
    assert PathsMissing(s.log, from, ip) == {};
  }

  /** A pass that completes keeps a row it did not write exactly when it is pinned or its expiry is later than the
      pass's third clock reading; the operator's rows go first. */
  lemma PassPrunesIff(s: State, step: Step, ip: string)
    requires step.RunPass? && Enabled(s, step) && Completed(s, step)
    requires ip !in s.allow && forall i: nat :: !IsListed(s, step, i, ip)
    ensures ip in TableAfterPass(s, step) <==>
            ip in s.table && (s.table[ip].manual || s.table[ip].expiresAt.None? ||
                              s.table[ip].expiresAt.value > s.now + step.readLag + step.pruneLag)
  {
    hide Decide, PassMemo, Reached, AreFeaturesOf, IsAggregate;
    var p, memo, ttl, fs := View(s, step), PassMemo(s, step), PassTtl(step), Handled(s, step);
    forall i | 0 <= i < |fs| && fs[i].ip == ip
      ensures !Decide(p, memo, ttl, fs[i]).List?
    {
      assert !IsListed(s, step, i, ip);
    }
    UnlistedEntry(p, memo, ttl, s.table, fs, Expiry(s, step), ip);
  }

  /** An entry a pass writes is active for seven days from the pass's second clock reading, or for good if pinned. */
  lemma ActiveForSevenDays(s: State, step: Step, i: nat, at: int)
    requires step.RunPass? && Enabled(s, step) && i < |step.fs| && IsListed(s, step, i, step.fs[i].ip)
    requires step.fs[i].ip in TableAfterPass(s, step)
    ensures var ip := step.fs[i].ip;
            IsActive(TableAfterPass(s, step)[ip], at) <==>
            (ip in s.table && s.table[ip].manual) || at < s.now + step.readLag + 7 * 86_400
  {
    hide TableAfterPass, DecisionOn, AreFeaturesOf, IsAggregate, Handled;
    EntryAfterPass(s, step, step.fs[i].ip);
  }

  lemma StepJustified(s: State, step: Step, lag: nat)
    requires Justified(s, lag) && Enabled(s, step) && LagAtMost(step, lag)
    ensures Justified(Apply(s, step), lag)
  {
    if step.RunPass? {
      PassJustified(s, step, lag);
    } else {
      var s' := Apply(s, step);
      forall ip | ip in s'.table && !s'.table[ip].manual
        ensures exists r :: r in s'.log && Backs(r, ip, s'.table[ip], lag)
      {
        var r :| r in s.log && Backs(r, ip, s.table[ip], lag);
        assert r in s'.log;
      }
    }
  }

  /** After any run, each non-manual entry has a logged request from its address that the expiry
      outlives by at most eight days, plus the longest gap between a pass's two clock readings. */
  lemma {:induction false} EntriesJustified(s: State, steps: seq<Step>, lag: nat)
    requires IsInitial(s) && AllEnabled(s, steps) && forall i :: 0 <= i < |steps| ==> LagAtMost(steps[i], lag)
    ensures Justified(Run(s, steps), lag)
  {
    if steps != [] {
      var n := |steps| - 1;
      assert AllEnabled(s, steps[..n]) by {
        assert forall i :: 0 <= i < n ==> steps[..n][..i] == steps[..i];
      }
      EntriesJustified(s, steps[..n], lag);
      StepJustified(Run(s, steps[..n]), steps[n], lag);
    }
  }

  /** When eight days do bound a freshly listed entry: exactly when its address was still making
      requests after the window had moved on by the gap between the readings. */
  lemma EightDaysIff(s: State, step: Step, i: nat)
    requires step.RunPass? && Enabled(s, step) && i < |step.fs| && IsListed(s, step, i, step.fs[i].ip)
    requires step.fs[i].ip in TableAfterPass(s, step)
    ensures var ip := step.fs[i].ip;
            (exists r :: r in s.log && Backs(r, ip, TableAfterPass(s, step)[ip], 0)) <==>
            exists r :: r in s.log && r.ip == Some(ip) && r.ts >= s.now - 86_400 + step.readLag
  {
    hide TableAfterPass, DecisionOn, AreFeaturesOf, IsAggregate, Handled;
    var ip := step.fs[i].ip;
    EntryAfterPass(s, step, ip);
    assert TableAfterPass(s, step)[ip].expiresAt == Some(Expiry(s, step));
    forall r | r in s.log && r.ip == Some(ip)
      ensures Backs(r, ip, TableAfterPass(s, step)[ip], 0) <==> r.ts >= s.now - SWEEP_WINDOW + step.readLag
    {
    }
  }

  const SCANNER: string := "8.8.8.8"
  const PROBE: Request := Request(Some(SCANNER), "/.env", 404, 0)
  const LOG_PROBE: Step := Log(Some(SCANNER), "/.env", 404)

  function LaggedPass(parse: Parser, dns: Dns): Step {
    RunPass(false, parse, [AggRow(SCANNER, "/.env", 404, 2)], [IpFeatures(SCANNER, 2, 1, 1, 2, 2)], dns, ip => 0,
            NO_FAULTS, 1, 0, 0)
  }

  /** Eight days alone is not a bound: with the two readings one second apart, an entry outlives the
      only requests from its address by a second more. */
  lemma EightDaysIsExceeded(parse: Parser, dns: Dns)
    requires parse(SCANNER) == Some(V4(8, 8, 8, 8))
    ensures var s := State([], map[], {}, {}, [], None, map[], 0);
            var steps := [LOG_PROBE, LOG_PROBE, Wait(SWEEP_WINDOW), LaggedPass(parse, dns)];
            IsInitial(s) && AllEnabled(s, steps) && Run(s, steps).log == [PROBE, PROBE] &&
            SCANNER in Run(s, steps).table && !Run(s, steps).table[SCANNER].manual &&
            Run(s, steps).table[SCANNER].expiresAt == Some(PROBE.ts + 8 * 86_400 + 1)
  {
    hide Enabled, TableAfterPass;
    var s := State([], map[], {}, {}, [], None, map[], 0);
    var steps := [LOG_PROBE, LOG_PROBE, Wait(SWEEP_WINDOW), LaggedPass(parse, dns)];
    RunFour(s, steps);
    assert [] + [PROBE] + [PROBE] == [PROBE, PROBE];
    assert Run(s, steps[..3]) == State([PROBE, PROBE], map[], {}, {}, [], None, map[], SWEEP_WINDOW);
    LaggedPassLists(parse, dns);
    OthersEnabled(s, LOG_PROBE);
    OthersEnabled(Apply(s, LOG_PROBE), LOG_PROBE);
    OthersEnabled(Apply(Apply(s, LOG_PROBE), LOG_PROBE), Wait(SWEEP_WINDOW));
  }

  lemma OthersEnabled(s: State, step: Step)
    requires !step.RunPass?
    ensures Enabled(s, step)
  {
  }

  lemma LaggedPassLists(parse: Parser, dns: Dns)
    requires parse(SCANNER) == Some(V4(8, 8, 8, 8))
    ensures var s := State([PROBE, PROBE], map[], {}, {}, [], None, map[], SWEEP_WINDOW);
            var t := TableAfterPass(s, LaggedPass(parse, dns));
            Enabled(s, LaggedPass(parse, dns)) && SCANNER in t && !t[SCANNER].manual &&
            t[SCANNER].expiresAt == Some(SWEEP_WINDOW + GREYLIST_TTL + 1)
  {
    hide VerifyCrawler;
    var s, pass := State([PROBE, PROBE], map[], {}, {}, [], None, map[], SWEEP_WINDOW), LaggedPass(parse, dns);
    ProbeAggregates(parse);
    ListedEntry(View(s, pass), map[], CRAWLER_CACHE_TTL, map[], pass.fs, Expiry(s, pass), 0);
  }

  lemma RunFour(s: State, steps: seq<Step>)
    requires |steps| == 4
    ensures Run(s, steps[..0]) == s && Run(s, steps[..1]) == Apply(s, steps[0])
    ensures Run(s, steps[..2]) == Apply(Apply(s, steps[0]), steps[1])
    ensures Run(s, steps[..3]) == Apply(Apply(Apply(s, steps[0]), steps[1]), steps[2])
    ensures Run(s, steps) == Apply(Run(s, steps[..3]), steps[3])
  {
    hide Apply;
    assert steps[..1][..0] == steps[..0] && steps[..2][..1] == steps[..1] && steps[..3][..2] == steps[..2];
  }

  lemma ProbeAggregates(parse: Parser)
    requires parse(SCANNER) == Some(V4(8, 8, 8, 8))
    ensures IsAggregate([AggRow(SCANNER, "/.env", 404, 2)], [PROBE, PROBE], 0)
    ensures AreFeaturesOf(parse, [AggRow(SCANNER, "/.env", 404, 2)], [IpFeatures(SCANNER, 2, 1, 1, 2, 2)])
  {
    var row, log, ip := AggRow(SCANNER, "/.env", 404, 2), [PROBE, PROBE], SCANNER;
    assert log[..1] == [PROBE] && [PROBE][..0] == [];
    assert Count([PROBE], Matching(row, 0)) == 1;
    assert Count(log, Matching(row, 0)) == 2;
    assert Matches([row][0], PROBE, 0);
    ProbeIsSignature();
    assert [row][..0] == [];
    assert AccOf([row], ip) == Acc(2, 2, 2, {"/.env"}, {"/.env"});
    assert [row][0].ip == ip && [IpFeatures(ip, 2, 1, 1, 2, 2)][0].ip == ip;
  }

  lemma ProbeIsSignature()
    ensures IsSignaturePath("/.env")
  {
    assert AsciiLower("/.env") == "/.env";
    assert SIGNATURE_PATTERNS[9] == "/.env";
    assert OccursAt("/.env", "/.env", 0);
    assert Contains(AsciiLower("/.env"), SIGNATURE_PATTERNS[9]);
  }

  // ---- Pins ----

  predicate Pinned(s: State, ip: string) { ip in s.table && s.table[ip].manual }

  /** The pass gets as far as the operator's addresses, and the release of this one goes through. */
  predicate ReleasedByPass(s: State, step: Step, ip: string)
    requires step.RunPass?
  {
    ip in s.allow && ip !in step.faults.release && |Handled(s, step)| == |step.fs|
  }

  /** A pin goes exactly when it is released, or a pass finds the address to be the operator's own. */
  lemma PinRemovedIff(s: State, step: Step, ip: string)
    requires Pinned(s, ip) && Enabled(s, step)
    ensures !Pinned(Apply(s, step), ip) <==> step == Release(ip) || (step.RunPass? && ReleasedByPass(s, step, ip))
  {
    if step.RunPass? {
      hide TableAfterPass, ReleasedByPass, Enabled, DecisionOn, Completed, CallsIn;
      PinnedStays(s, step, ip);
      if ip in TableAfterPass(s, step) {
        EntryAfterPass(s, step, ip);
      }
    }
  }

  lemma PinnedStays(s: State, step: Step, ip: string)
    requires Pinned(s, ip) && step.RunPass? && Enabled(s, step)
    ensures ip in TableAfterPass(s, step) <==> !ReleasedByPass(s, step, ip)
    ensures ip in TableAfterPass(s, step) ==> TableAfterPass(s, step)[ip].manual
  {
    hide Decide, PassMemo, Reached, AreFeaturesOf, IsAggregate;
    var p, memo, ttl, fs := View(s, step), PassMemo(s, step), PassTtl(step), Handled(s, step);
    HandledAreDistinct(s, step);
    if i :| 0 <= i < |fs| && fs[i].ip == ip && Decide(p, memo, ttl, fs[i]).List? {
      ListedEntry(p, memo, ttl, s.table, fs, Expiry(s, step), i);
    } else {
      UnlistedEntry(p, memo, ttl, s.table, fs, Expiry(s, step), ip);
    }
  }

  /** Such a pass: an address is pinned, turns out to be the operator's own, and the next pass drops the pin. */
  lemma OperatorPinDropped(parse: Parser, dns: Dns, ip: string)
    ensures var s := State([], map[], {}, {}, [], None, map[], 0);
            var pass := RunPass(false, parse, [], [], dns, (other: string) => 0, NO_FAULTS, 0, 0, 0);
            var pinned := Apply(Apply(s, Pin(ip)), SetPublicIps({ip}));
            IsInitial(s) && Enabled(pinned, pass) && Pinned(pinned, ip) && !Pinned(Apply(pinned, pass), ip)
  {
    hide Decide, PassMemo;
    var s := State([], map[], {}, {}, [], None, map[], 0);
    var pass := RunPass(false, parse, [], [], dns, (other: string) => 0, NO_FAULTS, 0, 0, 0);
    var pinned := Apply(Apply(s, Pin(ip)), SetPublicIps({ip}));
    assert pinned.log == [];
    PinRemovedIff(pinned, pass, ip);
  }

  lemma SnapshotKeepsPin(s: State, step: Step, ip: string)
    requires Pinned(s, ip) && ip in s.snapshot && Pinned(Apply(s, step), ip)
    requires step != Release(ip) && step != Boot(false)
    ensures ip in Apply(s, step).snapshot
  {
    hide SweptTable, PassMemo, CallsIn, Completed;
  }

  /** Over a whole run: pinned and active at every time until one of those two happens, and in the snapshot too
      unless a restart failed to read it. */
  lemma {:induction false} PinSurvives(s: State, steps: seq<Step>, ip: string)
    requires Pinned(s, ip) && AllEnabled(s, steps)
    requires forall i :: 0 <= i < |steps| ==>
               steps[i] != Release(ip) && (steps[i].RunPass? ==> !ReleasedByPass(Run(s, steps[..i]), steps[i], ip))
    ensures var s' := Run(s, steps);
            Pinned(s', ip) && (forall now :: IsActive(s'.table[ip], now)) &&
            (ip in s.snapshot && Boot(false) !in steps ==> ip in s'.snapshot)
  {
    if steps != [] {
      hide Apply, Enabled, ReleasedByPass;
      var n := |steps| - 1;
      assert forall i :: 0 <= i < n ==> steps[..n][..i] == steps[..i];
      PinSurvives(s, steps[..n], ip);
      PinRemovedIff(Run(s, steps[..n]), steps[n], ip);
      if ip in Run(s, steps[..n]).snapshot && steps[n] != Boot(false) {
        SnapshotKeepsPin(Run(s, steps[..n]), steps[n], ip);
      }
    }
  }

  // ---- The snapshot ----

  /** What was active at the last refresh in a table; before the first refresh, pins alone. */
  ghost predicate Reflects(snapshot: set<string>, t: Table, refreshed: Option<int>) {
    if refreshed.Some? then snapshot == Active(t, refreshed.value)
    else forall ip :: ip in snapshot ==> ip in t && t[ip].manual
  }

  ghost predicate ReadOk(s: State) {
    Reflects(s.snapshot, s.read, s.refreshed) && (s.refreshed.Some? ==> s.refreshed.value <= s.now)
  }

  lemma StepKeepsRead(s: State, step: Step)
    requires ReadOk(s)
    ensures ReadOk(Apply(s, step))
  {
    hide TableAfterPass, CallsIn, Completed;
  }

  /** After any run, failing passes and restarts included: the snapshot is what was active at the last refresh in
      the table as read then, with later pins added and later releases taken out. */
  lemma {:induction false} SnapshotIsActiveRead(s: State, steps: seq<Step>)
    requires IsInitial(s)
    ensures ReadOk(Run(s, steps))
  {
    if steps != [] {
      hide Apply, ReadOk;
      SnapshotIsActiveRead(s, steps[..|steps| - 1]);
      StepKeepsRead(Run(s, steps[..|steps| - 1]), steps[|steps| - 1]);
    }
  }

  /** The table has not moved on from what was read, except by steps that the snapshot follows. */
  predicate InStep(s: State) { s.read == s.table }

  /** A completed pass and a restart that reads the table bring the snapshot in step with it; every other step but
      a pass that ends early and a restart that fails to read keeps it there. */
  lemma StepKeepsInStep(s: State, step: Step)
    ensures (step.RunPass? && Completed(s, step)) || step == Boot(true) ==> InStep(Apply(s, step))
    ensures InStep(s) && !step.RunPass? && step != Boot(false) ==> InStep(Apply(s, step))
  {
    hide TableAfterPass, CallsIn, Completed;
  }

  ghost predicate EachReads(s: State, steps: seq<Step>) {
    forall i :: 0 <= i < |steps| ==>
      steps[i] != Boot(false) && (steps[i].RunPass? ==> Completed(Run(s, steps[..i]), steps[i]))
  }

  /** So over runs in which every pass completes and every restart reads the table, the snapshot is what was active
      in the present table at the last refresh. */
  lemma {:induction false} SnapshotIsActiveTable(s: State, steps: seq<Step>)
    requires IsInitial(s) && EachReads(s, steps)
    ensures Reflects(Run(s, steps).snapshot, Run(s, steps).table, Run(s, steps).refreshed)
    ensures InStep(Run(s, steps))
  {
    SnapshotIsActiveRead(s, steps);
    if steps != [] {
      hide Apply, Reflects, Completed;
      var n := |steps| - 1;
      assert forall i :: 0 <= i < n ==> steps[..n][..i] == steps[..i] && steps[..n][i] == steps[i];
      SnapshotIsActiveTable(s, steps[..n]);
      StepKeepsInStep(Run(s, steps[..n]), steps[n]);
    }
  }

  /** A pass that ends early leaves the snapshot true to the table exactly when everything in the snapshot still has
      its entry, and everything the pass listed and left in the table was in the snapshot already. */
  lemma CutPassReflectsIff(s: State, step: Step)
    requires step.RunPass? && Enabled(s, step) && !Completed(s, step)
    requires s.refreshed.Some? && s.refreshed.value <= s.now && Reflects(s.snapshot, s.table, s.refreshed)
    ensures var s' := Apply(s, step);
            Reflects(s'.snapshot, s'.table, s'.refreshed) <==>
            (forall ip :: ip in s.snapshot ==> ip in s'.table) &&
            (forall i :: 0 <= i < |Handled(s, step)| && IsListed(s, step, i, step.fs[i].ip) ==>
               step.fs[i].ip in s.snapshot || step.fs[i].ip !in s'.table)
  {
    hide TableAfterPass, Enabled, DecisionOn, Completed, CallsIn, Handled;
    var s', t := Apply(s, step), s.refreshed.value;
    forall ip | ip in s'.table
      ensures IsActive(s'.table[ip], t) <==>
                (ip in s.table && IsActive(s.table[ip], t)) || exists i: nat :: IsListed(s, step, i, ip)
    {
      EntryAfterPass(s, step, ip);
    }
    forall i | 0 <= i < |Handled(s, step)| && IsListed(s, step, i, step.fs[i].ip)
      ensures step.fs[i].ip in s'.table ==> IsActive(s'.table[step.fs[i].ip], t)
    {
    }
  }

  /** A pass that gets that far drops the operator's addresses from the table, and so from a new snapshot, but for
      those whose release failed. */
  lemma PassDropsOperator(s: State, step: Step)
    requires step.RunPass? && |Handled(s, step)| == |step.fs|
    ensures forall ip :: ip in s.allow && ip in TableAfterPass(s, step) ==> ip in step.faults.release
    ensures Completed(s, step) ==>
              forall ip :: ip in s.allow && ip in Apply(s, step).snapshot ==> ip in step.faults.release
  {
    hide Listed, PassMemo, Reached;
  }

  /** The memo a pass leaves is that of the calls made on its cache, before it and in it. */
  lemma {:induction false} CallsExtendMemo(p: Pass, calls: seq<Call>, ttl: nat, fs: seq<IpFeatures>)
    ensures MemoRun(calls + Calls(p, fs), ttl) == MemoFold(p, MemoRun(calls, ttl), ttl, fs)
  {
    hide MemoAfter, Consults, MemoRun;
    if fs == [] {
      assert calls + Calls(p, fs) == calls;
    } else {
      var n := |fs| - 1;
      CallsExtendMemo(p, calls, ttl, fs[..n]);
      var earlier := calls + Calls(p, fs[..n]);
      if Consults(p, fs[n]) {
        var c := Call(p.dns, fs[n].ip, p.instant(fs[n].ip));
        assert calls + Calls(p, fs) == earlier + [c];
        OneMoreCall(earlier, c, ttl);
      } else {
        assert calls + Calls(p, fs) == earlier;
      }
    }
  }

  lemma OneMoreCall(calls: seq<Call>, c: Call, ttl: nat)
    ensures MemoRun(calls + [c], ttl) == MemoAfter(MemoRun(calls, ttl), ttl, c.dns, c.ip, c.now)
  {
    hide MemoAfter;
    assert (calls + [c])[..|calls|] == calls;
  }

  predicate Blunt(rule: Rule) { rule.ExemptsVerifiedCrawlers() }

  /** The call found the address to be no crawler, less than `ttl` before `at`. */
  predicate Condemns(c: Call, ip: string, at: int, ttl: nat) {
    ResolvedAs(c, ip, NotCrawler) && at - c.now < ttl
  }

  /** A pass lists an address under a blunt rule only on a NotCrawler answer that some call on its own cache, in
      this pass or less than that cache's lifetime before it, resolved for that very address. */
  lemma BluntEntryResolved(s: State, step: Step, i: nat)
    requires step.RunPass? && i < |step.fs| && IsListed(s, step, i, step.fs[i].ip)
    requires Blunt(DecisionOn(s, step, i).rule)
    ensures var ip := step.fs[i].ip;
            exists c :: (c in CallsIn(s, step) || (!step.manual && c in s.calls)) &&
                        Condemns(c, ip, step.instant(ip), if step.manual then 60 else 6 * 3600)
  {
    hide VerifyCrawler, Score, Reached;
    var p, memo, ttl, ip := View(s, step), PassMemo(s, step), PassTtl(step), step.fs[i].ip;
    assert ttl == if step.manual then 60 else 6 * 3600;
    var before := CallsBefore(s, step);
    var seen := Sweep.Seen(p, memo, ttl, step.fs, step.faults);
    assert i < |seen| && seen[i] == step.fs[i];
    if Cached(memo, ttl, ip, p.instant(ip)) != Unknown {
      MemoIsResolved(before, ttl, ip);
      var k :| 0 <= k < |before| && before[k].now == memo[ip].1 &&
               ResolvedAs(before[k], ip, if memo[ip].0 then Verified else NotCrawler);
      assert before[k] in before && Condemns(before[k], ip, step.instant(ip), ttl);
    } else {
      var k := CallOf(p, seen, i);
      var c := Call(p.dns, ip, p.instant(ip));
      assert CallsIn(s, step)[k] == c;
      assert c in CallsIn(s, step) && Condemns(c, ip, step.instant(ip), ttl);
    }
  }

  lemma {:induction false} CallOf(p: Pass, fs: seq<IpFeatures>, i: nat) returns (k: nat)
    requires i < |fs| && Consults(p, fs[i])
    ensures k < |Calls(p, fs)| && Calls(p, fs)[k] == Call(p.dns, fs[i].ip, p.instant(fs[i].ip))
  {
    hide Consults;
    var n := |fs| - 1;
    if i == n {
      k := |Calls(p, fs[..n])|;
    } else {
      k := CallOf(p, fs[..n], i);
    }
  }
}
