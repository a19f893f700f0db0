/** The link table: one row per URL with its failure streak. Times are nanoseconds since the epoch. */
module LinkCheck {
  import opened Wrappers

  const CONFIRM_THRESHOLD: int := 3
  const MIN_STREAK_INTERVAL: int := 20 * 3600
  const RETAIN_DAYS: int := 30

  /** `timestamp()`: whole seconds, rounded down. */
  function Secs(t: int): int { t / 1_000_000_000 }

  datatype CheckClass = Ok | Dead | Transient | Blocked | Unknown {
    function AsStr(): string {
      match this
      case Ok => "ok"
      case Dead => "dead"
      case Transient => "transient"
      case Blocked => "blocked"
      case Unknown => "unknown"
    }

    predicate CountsAsFailure() { Dead? || Transient? }
  }

  function ClassFromStored(s: string): CheckClass {
    if s == "ok" then Ok else if s == "dead" then Dead else if s == "transient" then Transient
    else if s == "blocked" then Blocked else Unknown
  }

  datatype LinkKind = Internal | External {
    function AsStr(): string { if Internal? then "internal" else "external" }
  }

  datatype LinkCheckRow = LinkCheckRow(url: string, kind: string, lastClass: string, lastStatus: Option<int>,
                                       detail: Option<string>, consecutiveFailures: int, firstFailedAt: Option<int>,
                                       lastOkAt: Option<int>, lastCheckedAt: int, ignored: bool) {
    function Class(): CheckClass { ClassFromStored(lastClass) }

    predicate IsConfirmedDead() { Class() == Dead && consecutiveFailures >= CONFIRM_THRESHOLD }

    predicate IsFailing() { Class().CountsAsFailure() && !IsConfirmedDead() }

    predicate NeedsReview() { Class().Blocked? || Class().Unknown? }
  }

  // ---- Trimming ----

  /** Unicode's White_Space property. */
  predicate IsSpace(c: char) {
    var n := c as int;
    0x09 <= n <= 0x0d || n == 0x20 || n == 0x85 || n == 0xa0 || n == 0x1680 || 0x2000 <= n <= 0x200a ||
    n == 0x2028 || n == 0x2029 || n == 0x202f || n == 0x205f || n == 0x3000
  }

  function Trim(s: string): (r: string)
    ensures r != [] ==> !IsSpace(r[0]) && !IsSpace(r[|r| - 1])
  {
    if s == [] then s
    else if IsSpace(s[0]) then Trim(s[1..])
    else if IsSpace(s[|s| - 1]) then Trim(s[..|s| - 1])
    else s
  }

  predicate AllSpace(s: string) { forall i :: 0 <= i < |s| ==> IsSpace(s[i]) }

  /** Only white space is taken off, at either end. */
  lemma {:induction false} TrimMeans(s: string) returns (front: string, back: string)
    ensures s == front + Trim(s) + back && AllSpace(front) && AllSpace(back)
  {
    hide IsSpace;
    front, back := "", "";
    if s != [] && IsSpace(s[0]) {
      front, back := TrimMeans(s[1..]);
      assert s == [s[0]] + (front + Trim(s) + back);
      assert s == [s[0]] + front + Trim(s) + back;
      front := [s[0]] + front;
    } else if s != [] && IsSpace(s[|s| - 1]) {
      front, back := TrimMeans(s[..|s| - 1]);
      assert s == front + Trim(s) + back + [s[|s| - 1]];
      assert s == front + Trim(s) + (back + [s[|s| - 1]]);
      back := back + [s[|s| - 1]];
    } else {
      assert s == "" + Trim(s) + "";
    }
  }

  // ---- The next row ----

  /** One verdict: what checking a URL produced. */
  datatype Outcome = Outcome(verdict: CheckClass, status: Option<int>, detail: string)

  function WithinInterval(prev: Option<LinkCheckRow>, now: int, interval: int): bool {
    prev.Some? && Secs(now) - Secs(prev.value.lastCheckedAt) < interval
  }

  function NextState(url: string, kind: LinkKind, prev: Option<LinkCheckRow>, o: Outcome, now: int, interval: int)
    : LinkCheckRow
  {
    var prevFailures := if prev.Some? then prev.value.consecutiveFailures else 0;
    var prevFirst := if prev.Some? then prev.value.firstFailedAt else None;
    var prevOk := if prev.Some? then prev.value.lastOkAt else None;
    var (failures, first, lastOk) :=
      if o.verdict.Ok? then (0, None, Some(now))
      else if o.verdict.CountsAsFailure() then
        (if !WithinInterval(prev, now, interval) then prevFailures + 1
         else if prevFailures > 1 then prevFailures else 1,
         if prevFirst.Some? then prevFirst else Some(now),
         prevOk)
      else (prevFailures, prevFirst, prevOk);
    LinkCheckRow(url, kind.AsStr(), o.verdict.AsStr(), o.status,
                 if Trim(o.detail) == "" then None else Some(Trim(o.detail)),
                 failures, first, lastOk, now, prev.Some? && prev.value.ignored)
  }

  /** What the row says of the latest check: its kind and verdict by their stored names, its status, its detail trimmed
      or none if that is blank, and its time; the ignored mark and the last Ok are carried over. */
  lemma NextStateCarries(url: string, kind: LinkKind, prev: Option<LinkCheckRow>, o: Outcome, now: int, interval: int)
    ensures var r := NextState(url, kind, prev, o, now, interval);
            r.url == url && r.kind == (if kind.Internal? then "internal" else "external") &&
            r.lastClass == (match o.verdict case Ok => "ok" case Dead => "dead" case Transient => "transient"
                                            case Blocked => "blocked" case Unknown => "unknown") &&
            r.Class() == o.verdict && r.lastStatus == o.status && r.lastCheckedAt == now &&
            r.detail == (if AllSpace(o.detail) then None else Some(Trim(o.detail))) &&
            r.ignored == (prev.Some? && prev.value.ignored) &&
            r.lastOkAt == if o.verdict == Ok then Some(now) else if prev.Some? then prev.value.lastOkAt else None
  {
    hide Trim, IsSpace;
    BlankIff(o.detail);
  }

  lemma BlankIff(s: string)
    ensures Trim(s) == "" <==> AllSpace(s)
  {
    hide IsSpace;
    var front, back := TrimMeans(s);
    if Trim(s) == "" {
      assert s == front + back;
    } else {
      assert s[|front|] == Trim(s)[0];
    }
  }

  /** The three buckets, by what is stored: confirmed dead is dead three times over, failing is a dead or passing
      failure short of that, and whatever is neither a failure nor fine is for review. */
  lemma BucketsMean(r: LinkCheckRow)
    ensures r.IsConfirmedDead() <==> r.lastClass == "dead" && r.consecutiveFailures >= 3
    ensures r.IsFailing() <==> (r.lastClass == "dead" && r.consecutiveFailures < 3) || r.lastClass == "transient"
    ensures r.NeedsReview() <==> r.lastClass != "ok" && r.lastClass != "dead" && r.lastClass != "transient"
  {
  }

  // ---- The streak law, one row at a time ----

  /** The elapsed whole seconds cover one interval for every failure after the first, and the last
      Ok is not later than the streak's start. */
  predicate StreakLaw(r: LinkCheckRow) {
    && r.consecutiveFailures >= 0
    && ((r.consecutiveFailures == 0) == r.firstFailedAt.None?)
    && (r.firstFailedAt.Some? ==>
          r.firstFailedAt.value <= r.lastCheckedAt &&
          (r.consecutiveFailures - 1) * MIN_STREAK_INTERVAL <= Secs(r.lastCheckedAt) - Secs(r.firstFailedAt.value))
    && (r.lastOkAt.Some? ==> r.lastOkAt.value <= r.lastCheckedAt)
    && (r.lastOkAt.Some? && r.firstFailedAt.Some? ==> r.lastOkAt.value <= r.firstFailedAt.value)
  }

  lemma NextStateKeepsLaw(url: string, kind: LinkKind, prev: Option<LinkCheckRow>, o: Outcome, now: int)
    requires prev.Some? ==> StreakLaw(prev.value) && prev.value.lastCheckedAt <= now
    ensures StreakLaw(NextState(url, kind, prev, o, now, MIN_STREAK_INTERVAL))
  {
    hide Trim;
  }

  /** A confirmed-dead link's latest verdict is dead, and its failures span at least forty hours. */
  lemma ConfirmedDeadSpansFortyHours(r: LinkCheckRow)
    requires StreakLaw(r) && r.IsConfirmedDead()
    ensures r.firstFailedAt.Some? && Secs(r.lastCheckedAt) - Secs(r.firstFailedAt.value) >= 40 * 3600
    ensures r.lastOkAt.Some? ==> r.lastOkAt.value <= r.firstFailedAt.value
  {
  }

  const HOUR: int := 3600 * 1_000_000_000

  /** And forty hours can be enough: three dead verdicts twenty hours apart confirm a link dead. */
  lemma FortyHoursCanConfirm(url: string, kind: LinkKind, dead: Outcome, start: int)
    requires dead.verdict == Dead
    ensures var first := NextState(url, kind, None, dead, start, MIN_STREAK_INTERVAL);
            var second := NextState(url, kind, Some(first), dead, start + 20 * HOUR, MIN_STREAK_INTERVAL);
            var third := NextState(url, kind, Some(second), dead, start + 40 * HOUR, MIN_STREAK_INTERVAL);
            !second.IsConfirmedDead() && third.IsConfirmedDead()
  {
    hide Trim;
  }

  // ---- Whole check histories of one URL ----

  datatype Check = Check(kind: LinkKind, outcome: Outcome, now: int)

  predicate Ordered(h: seq<Check>) {
    forall i, j :: 0 <= i < j < |h| ==> h[i].now <= h[j].now
  }

  function RowAfter(url: string, h: seq<Check>): Option<LinkCheckRow> {
    if h == [] then None
    else
      var c := h[|h| - 1];
      Some(NextState(url, c.kind, RowAfter(url, h[..|h| - 1]), c.outcome, c.now, MIN_STREAK_INTERVAL))
  }

  predicate OkAt(h: seq<Check>, i: nat)
    requires i < |h|
  {
    h[i].outcome.verdict.Ok?
  }

  predicate FailsAt(h: seq<Check>, i: nat)
    requires i < |h|
  {
    h[i].outcome.verdict.CountsAsFailure()
  }

  /** No Ok at `i` or later. */
  predicate NoOkFrom(h: seq<Check>, i: nat) {
    forall j :: i <= j < |h| ==> !OkAt(h, j)
  }

  /** The check at `i` failed, after the last Ok. */
  predicate InStreak(h: seq<Check>, i: nat)
    requires i < |h|
  {
    FailsAt(h, i) && NoOkFrom(h, i)
  }

  /** It counts when it is the first such failure, or a full interval after the check before it. */
  predicate Counts(h: seq<Check>, i: nat)
    requires i < |h|
  {
    InStreak(h, i) &&
    ((forall j :: 0 <= j < i ==> !InStreak(h, j)) || Secs(h[i].now) - Secs(h[i - 1].now) >= MIN_STREAK_INTERVAL)
  }

  function Counting(h: seq<Check>): set<nat> {
    set i: nat | i < |h| && Counts(h, i)
  }

  /** Appending a check that is not Ok keeps the streak and asks only about the new check. */
  lemma StreakGrows(h: seq<Check>, c: Check)
    requires !c.outcome.verdict.Ok?
    ensures forall i :: 0 <= i < |h| ==> InStreak(h + [c], i) == InStreak(h, i)
    ensures forall i :: 0 <= i < |h| ==> Counts(h + [c], i) == Counts(h, i)
  {
    var g := h + [c];
    forall i | 0 <= i < |h|
      ensures InStreak(g, i) == InStreak(h, i)
    {
      assert forall j :: 0 <= j < |h| ==> OkAt(g, j) == OkAt(h, j);
    }
    forall i | 0 <= i < |h|
      ensures Counts(g, i) == Counts(h, i)
    {
      assert i > 0 ==> g[i - 1] == h[i - 1];
    }
  }

  lemma CountGrows(h: seq<Check>, c: Check)
    requires !c.outcome.verdict.Ok?
    ensures |Counting(h + [c])| == |Counting(h)| + if Counts(h + [c], |h|) then 1 else 0
  {
    hide Counts, InStreak;
    StreakGrows(h, c);
    assert |h| !in Counting(h);
    OneMore(Counting(h), |h|);
    assert Counting(h + [c]) == Counting(h) + if Counts(h + [c], |h|) then {|h|} else {};
  }

  lemma OneMore(s: set<nat>, x: nat)
    requires x !in s
    ensures |s + {x}| == |s| + 1 && s + {} == s
  {
  }

  lemma NextCount(url: string, c: Check, prev: Option<LinkCheckRow>, failures: nat)
    requires if prev.None? then failures == 0 else prev.value.consecutiveFailures == failures
    ensures var row := NextState(url, c.kind, prev, c.outcome, c.now, MIN_STREAK_INTERVAL);
            row.lastCheckedAt == c.now &&
            row.consecutiveFailures ==
              if c.outcome.verdict.Ok? then 0
              else if c.outcome.verdict.CountsAsFailure() &&
                      (failures == 0 || !WithinInterval(prev, c.now, MIN_STREAK_INTERVAL)) then failures + 1
              else failures
  {
    hide Trim;
  }

  /** The stored count is the number of counting checks. */
  lemma {:induction false} StreakIsCount(url: string, h: seq<Check>)
    requires h != []
    ensures RowAfter(url, h).value.consecutiveFailures == |Counting(h)|
    ensures RowAfter(url, h).value.lastCheckedAt == h[|h| - 1].now
  {
    hide NextState, Counts, InStreak, Counting;
    var n := |h| - 1;
    var before, c := h[..n], h[n];
    assert h == before + [c];
    if before == [] {
      CountingEmpty();
    } else {
      StreakIsCount(url, before);
      assert before[n - 1] == h[n - 1];
    }
    NextCount(url, c, RowAfter(url, before), |Counting(before)|);
    if c.outcome.verdict.Ok? {
      OkEmptiesCounting(h);
    } else {
      CountGrows(before, c);
      NewestCounts(before, c);
    }
  }

  lemma CountingEmpty()
    ensures Counting([]) == {}
  {
  }

  lemma OkEmptiesCounting(h: seq<Check>)
    requires h != [] && h[|h| - 1].outcome.verdict.Ok?
    ensures Counting(h) == {}
  {
    assert OkAt(h, |h| - 1);
  }

  /** The newest check counts by the rule the code applies: a failure, and the first of the streak
      or a full interval after the previous check. */
  lemma NewestCounts(h: seq<Check>, c: Check)
    requires !c.outcome.verdict.Ok?
    ensures Counts(h + [c], |h|) <==>
            c.outcome.verdict.CountsAsFailure() &&
            (|Counting(h)| == 0 || Secs(c.now) - Secs(h[|h| - 1].now) >= MIN_STREAK_INTERVAL)
  {
    var g := h + [c];
    CountingNonEmpty(h);
    StreakGrows(h, c);
    assert NoOkFrom(g, |h|);
    assert h != [] ==> g[|h| - 1] == h[|h| - 1];
  }

  /** A streak with a failure in it has a first one, and that one counts. */
  lemma {:induction false} CountingNonEmpty(h: seq<Check>)
    ensures |Counting(h)| == 0 <==> forall i :: 0 <= i < |h| ==> !InStreak(h, i)
  {
    if i: nat :| i < |h| && InStreak(h, i) {
      var first := FirstInStreak(h, i);
      assert first in Counting(h);
    } else {
      assert Counting(h) == {};
    }
  }

  lemma {:induction false} FirstInStreak(h: seq<Check>, i: nat) returns (first: nat)
    requires i < |h| && InStreak(h, i)
    ensures first <= i && InStreak(h, first) && forall j :: 0 <= j < first ==> !InStreak(h, j)
  {
    if j: nat :| j < i && InStreak(h, j) {
      first := FirstInStreak(h, j);
    } else {
      first := i;
    }
  }

  /** The stored start is the first failure of the streak, and no check since then was Ok. */
  lemma {:induction false} StreakStart(url: string, h: seq<Check>, first: nat)
    requires first < |h| && InStreak(h, first) && forall j :: 0 <= j < first ==> !InStreak(h, j)
    ensures RowAfter(url, h).value.firstFailedAt == Some(h[first].now) && NoOkFrom(h, first)
  {
    var n := |h| - 1;
    var before := h[..n];
    assert h == before + [h[n]] && !OkAt(h, n);
    StreakGrows(before, h[n]);
    if first < n {
      StreakStart(url, before, first);
    } else if before != [] {
      StreakStartNone(url, before);
    }
  }

  lemma {:induction false} StreakStartNone(url: string, h: seq<Check>)
    requires h != [] && forall j :: 0 <= j < |h| ==> !InStreak(h, j)
    ensures RowAfter(url, h).value.firstFailedAt.None?
  {
    var n := |h| - 1;
    var before := h[..n];
    assert h == before + [h[n]] && NoOkFrom(h, |h|);
    if !OkAt(h, n) {
      assert NoOkFrom(h, n) && !InStreak(h, n);
      StreakGrows(before, h[n]);
      if before != [] {
        StreakStartNone(url, before);
      }
    }
  }

  /** The law over every history with a non-decreasing clock. */
  lemma {:induction false} HistoryKeepsLaw(url: string, h: seq<Check>)
    requires h != [] && Ordered(h)
    ensures StreakLaw(RowAfter(url, h).value)
  {
    hide NextState, StreakLaw;
    var n := |h| - 1;
    if n > 0 {
      HistoryKeepsLaw(url, h[..n]);
      StreakIsCount(url, h[..n]);
      assert h[..n][n - 1] == h[n - 1] && h[n - 1].now <= h[n].now;
    }
    NextStateKeepsLaw(url, h[n].kind, RowAfter(url, h[..n]), h[n].outcome, h[n].now);
  }

  /** Checks less than an interval apart never take the streak past one. */
  lemma {:induction false} RapidChecksStayAtOne(url: string, h: seq<Check>)
    requires h != [] && forall i :: 0 < i < |h| ==> Secs(h[i].now) - Secs(h[i - 1].now) < MIN_STREAK_INTERVAL
    ensures RowAfter(url, h).value.consecutiveFailures <= 1
  {
    StreakIsCount(url, h);
    if i: nat :| i in Counting(h) {
      assert forall j :: j in Counting(h) ==> j == i;
      assert Counting(h) == {i};
    } else {
      assert Counting(h) == {};
    }
  }

  // ---- The two tables ----

  type CheckTable = map<string, LinkCheckRow>
  type RefTable = set<(int, string)>

  function Get(t: CheckTable, url: string): Option<LinkCheckRow> {
    if url in t then Some(t[url]) else None
  }

  /** One `record` call: read, fold in the verdict, write. */
  function Recorded(t: CheckTable, url: string, kind: LinkKind, o: Outcome, now: int): CheckTable {
    t[url := NextState(url, kind, Get(t, url), o, now, MIN_STREAK_INTERVAL)]
  }

  predicate Referenced(refs: RefTable, url: string) {
    exists r :: r in refs && r.1 == url
  }

  predicate PastRetention(r: LinkCheckRow, retainDays: nat, now: int) {
    Secs(r.lastCheckedAt) < Secs(now) - retainDays * 86_400
  }

  function PrunedOrphans(t: CheckTable, refs: RefTable, retainDays: nat, now: int): CheckTable {
    map url | url in t && (Referenced(refs, url) || !PastRetention(t[url], retainDays, now)) :: t[url]
  }

  class LinkStore {
    var checks: CheckTable
    var refs: RefTable

    constructor ()
      ensures checks == map[] && refs == {}
    {
      checks, refs := map[], {};
    }

    method Record(url: string, kind: LinkKind, o: Outcome, now: int) returns (row: LinkCheckRow)
      modifies this`checks
      ensures checks == Recorded(old(checks), url, kind, o, now) && row == checks[url]
    {
      row := NextState(url, kind, Get(checks, url), o, now, MIN_STREAK_INTERVAL);
      checks := checks[url := row];
    }

    method SetIgnored(url: string, ignored: bool)
      modifies this`checks
      ensures checks == if url in old(checks) then old(checks)[url := old(checks)[url].(ignored := ignored)]
          else old(checks)
    {
      if url in checks {
        checks := checks[url := checks[url].(ignored := ignored)];
      }
    }

    /** Delete-then-insert in one transaction; a repeated URL is ignored. */
    method ReplaceForPage(page: int, urls: seq<string>)
      modifies this`refs
      ensures forall p, u :: (p, u) in refs <==> if p == page then u in urls else (p, u) in old(refs)
    {
      refs := set r | r in refs && r.0 != page;
      for i := 0 to |urls|
        invariant forall p, u :: (p, u) in refs <==> if p == page then u in urls[..i] else (p, u) in old(refs)
      {
        refs := refs + {(page, urls[i])};
      }
      assert urls[..|urls|] == urls;
    }

    /** A row goes exactly when no page refers to it and its last check is past retention. */
    method PruneOrphans(retainDays: nat, now: int) returns (removed: nat)
      modifies this`checks
      ensures checks == PrunedOrphans(old(checks), refs, retainDays, now)
      ensures forall url :: url in checks <==>
                url in old(checks) && ((exists r :: r in refs && r.1 == url) ||
                                       Secs(old(checks)[url].lastCheckedAt) + retainDays * 86_400 >= Secs(now))
      ensures forall url :: url in checks ==> checks[url] == old(checks)[url]
      ensures removed == |old(checks)| - |checks|
    {
      var kept := PrunedOrphans(checks, refs, retainDays, now);
      assert checks.Keys == kept.Keys + (checks.Keys - kept.Keys);
      removed := |checks.Keys - kept.Keys|;
      assert |checks| == |checks.Keys| && |kept| == |kept.Keys|;
      checks := kept;
    }
  }

  // ---- Every run of the table keeps the law ----

  datatype Step =
    | Record(url: string, kind: LinkKind, outcome: Outcome, now: int)
    | SetIgnored(url: string, ignored: bool)
    | Prune(refs: RefTable, sqlNow: int)

  function ApplyStep(t: CheckTable, step: Step): CheckTable {
    match step
    case Record(url, kind, o, now) => Recorded(t, url, kind, o, now)
    case SetIgnored(url, ignored) => if url in t then t[url := t[url].(ignored := ignored)] else t
    case Prune(refs, sqlNow) => PrunedOrphans(t, refs, RETAIN_DAYS, sqlNow)
  }

  function RunSteps(steps: seq<Step>): CheckTable {
    if steps == [] then map[] else ApplyStep(RunSteps(steps[..|steps| - 1]), steps[|steps| - 1])
  }

  predicate ClockOrdered(steps: seq<Step>) {
    forall i, j :: 0 <= i < j < |steps| && steps[i].Record? && steps[j].Record? ==> steps[i].now <= steps[j].now
  }

  lemma {:induction false} TableKeepsLaw(steps: seq<Step>, url: string)
    requires ClockOrdered(steps) && url in RunSteps(steps)
    ensures StreakLaw(RunSteps(steps)[url])
    ensures exists i :: 0 <= i < |steps| && steps[i].Record? && steps[i].now == RunSteps(steps)[url].lastCheckedAt
  {
    hide StreakLaw, NextState, ApplyStep;
    var n := |steps| - 1;
    var t, step := RunSteps(steps[..n]), steps[n];
    if url in t {
      TableKeepsLaw(steps[..n], url);
      var i :| 0 <= i < n && steps[..n][i].Record? && steps[..n][i].now == t[url].lastCheckedAt;
      assert steps[i].Record? && steps[i].now == t[url].lastCheckedAt;
    }
    if step.Record? && step.url == url {
      NextStateKeepsLaw(url, step.kind, Get(t, url), step.outcome, step.now);
      NextCheckedAt(url, step.kind, Get(t, url), step.outcome, step.now);
      assert ApplyStep(t, step) == Recorded(t, url, step.kind, step.outcome, step.now) by {
        RecordStep(t, step);
      }
      assert steps[n].now == RunSteps(steps)[url].lastCheckedAt;
    } else {
      RowKept(t, step, url);
    }
  }

  lemma RecordStep(t: CheckTable, step: Step)
    requires step.Record?
    ensures ApplyStep(t, step) == Recorded(t, step.url, step.kind, step.outcome, step.now)
  {
  }

  lemma NextCheckedAt(url: string, kind: LinkKind, prev: Option<LinkCheckRow>, o: Outcome, now: int)
    ensures NextState(url, kind, prev, o, now, MIN_STREAK_INTERVAL).lastCheckedAt == now
  {
  }

  /** Any other step leaves the row be, or only its ignored mark changes. */
  lemma RowKept(t: CheckTable, step: Step, url: string)
    requires url in ApplyStep(t, step) && !(step.Record? && step.url == url)
    ensures url in t && ApplyStep(t, step)[url].lastCheckedAt == t[url].lastCheckedAt
    ensures StreakLaw(t[url]) ==> StreakLaw(ApplyStep(t, step)[url])
  {
    hide NextState;
  }
}
