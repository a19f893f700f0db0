/** Waiting for DNS to show, or to lose, a set of records: capped linear backoff under a deadline. */
module DnsValidator {
  import opened Sorting

  datatype RData = RData(kind: string, text: string)

  /** One lookup, with the resolver errors that end the wait at once. */
  datatype Lookup = Found(records: seq<RData>) | NoRecords | Fatal

  const TIMEOUT: nat := 300_000 // milliseconds, as are all times here
  const BACKOFF: nat := 250
  const MAX_BACKOFF: nat := 5_000

  // ---- The two step decisions ----

  /** The records' own order is a total one. */
  ghost predicate IsTotal(leq: (RData, RData) -> bool) {
    IsPreorder(leq) && forall a, b :: leq(a, b) && leq(b, a) ==> a == b
  }

  /** Done when the two lists agree once both are sorted. */
  predicate ExistsStep(leq: (RData, RData) -> bool, expected: seq<RData>, outcome: Lookup) {
    outcome.Found? && Sort(leq, expected) == Sort(leq, outcome.records)
  }

  predicate NotExistingStep(outcome: Lookup) { outcome.NoRecords? }

  /** That is: exactly when they hold the same records the same number of times. */
  lemma ExistsStepIff(leq: (RData, RData) -> bool, expected: seq<RData>, outcome: Lookup)
    requires IsTotal(leq)
    ensures ExistsStep(leq, expected, outcome) <==>
            outcome.Found? && multiset(outcome.records) == multiset(expected)
  {
    if outcome.Found? && multiset(outcome.records) == multiset(expected) {
      SortOrders(leq, expected);
      SortOrders(leq, outcome.records);
      OrderIsUnique(leq, Sort(leq, expected), Sort(leq, outcome.records));
    }
  }

  // ---- Time ----

  /** The world a wait runs in: what lookup `i` answers, how long it takes, and by how much sleep `i`
      overruns. Lookups and sleeps are numbered from 1. */
  datatype World = World(answer: nat -> Lookup, latency: nat -> nat, oversleep: nat -> nat)

  function Backoff(i: nat): nat {
    if BACKOFF * i < MAX_BACKOFF then BACKOFF * i else MAX_BACKOFF
  }

  /** The time on the clock just after lookup `n`. */
  function Elapsed(w: World, n: nat): nat {
    if n == 0 then 0
    else if n == 1 then w.latency(1)
    else Elapsed(w, n - 1) + Backoff(n - 1) + w.oversleep(n - 1) + w.latency(n)
  }

  /** The least time that can have gone by. */
  function Slept(n: nat): nat {
    if n == 0 then 0 else Slept(n - 1) + Backoff(n)
  }

  lemma {:induction false} SleptOnceCapped(n: nat)
    requires n >= 20
    ensures Slept(n) == 52_500 + 5_000 * (n - 20)
  {
    if n > 20 {
      SleptOnceCapped(n - 1);
    } else {
      assert Slept(4) == 2_500;
      assert Slept(8) == 9_000;
      assert Slept(12) == 19_500;
      assert Slept(16) == 34_000;
    }
  }

  lemma {:induction false} SleptGrows(m: nat, n: nat)
    requires m <= n
    ensures Slept(m) <= Slept(n)
    decreases n
  {
    if m < n {
      SleptGrows(m, n - 1);
    }
  }

  lemma {:induction false} ElapsedAtLeastSlept(w: World, n: nat)
    requires n >= 1
    ensures Elapsed(w, n) >= Slept(n - 1)
    ensures (forall i :: w.latency(i) == 0 && w.oversleep(i) == 0) ==> Elapsed(w, n) == Slept(n - 1)
  {
    if n > 1 {
      ElapsedAtLeastSlept(w, n - 1);
    }
  }

  // ---- The wait loops ----

  datatype Result = Ok | TimedOut | Failed

  ghost predicate Waiting(w: World, done: Lookup -> bool, i: nat) {
    !w.answer(i).Fatal? && !done(w.answer(i)) && Elapsed(w, i) <= TIMEOUT
  }

  /** None of the first `n` lookups was an end, and none of their deadline checks was late. */
  ghost predicate StillWaiting(w: World, done: Lookup -> bool, n: nat) {
    forall i :: 1 <= i <= n ==> Waiting(w, done, i)
  }

  /** A wait that ended with lookup `n`: none before was an end, and this one says how it ended. */
  ghost predicate Ended(w: World, done: Lookup -> bool, n: nat, r: Result) {
    && n >= 1
    && StillWaiting(w, done, n - 1)
    && match r
       case Ok => !w.answer(n).Fatal? && done(w.answer(n))
       case Failed => w.answer(n).Fatal?
       case TimedOut => !w.answer(n).Fatal? && !done(w.answer(n)) && Elapsed(w, n) > TIMEOUT
  }

  const MOST_LOOKUPS: nat := 71

  /** However long lookups and sleeps take, the 71st lookup is the last. */
  lemma Bounded(w: World, done: Lookup -> bool, n: nat)
    requires StillWaiting(w, done, n)
    ensures n < MOST_LOOKUPS
  {
    if n >= MOST_LOOKUPS {
      assert Waiting(w, done, MOST_LOOKUPS);
      ElapsedAtLeastSlept(w, MOST_LOOKUPS);
      SleptOnceCapped(MOST_LOOKUPS - 1);
      assert false;
    }
  }

  /** The bound is reached: nothing appears, and lookups and sleeps take no more than their time. */
  lemma BoundReached(w: World, done: Lookup -> bool, n: nat, r: Result)
    requires Ended(w, done, n, r)
    requires forall i :: w.latency(i) == 0 && w.oversleep(i) == 0
    requires forall i :: !w.answer(i).Fatal? && !done(w.answer(i))
    ensures r == TimedOut && n == MOST_LOOKUPS
  {
    hide Slept, Elapsed;
    Bounded(w, done, n - 1);
    ElapsedAtLeastSlept(w, n);
    SleptOnceCapped(MOST_LOOKUPS - 2);
    if n < MOST_LOOKUPS {
      SleptGrows(n - 1, MOST_LOOKUPS - 2);
    }
  }

  /** Every lookup but the last was done within five minutes, and one that ends by timing out was not. */
  lemma FiveMinutes(w: World, done: Lookup -> bool, n: nat, r: Result)
    requires Ended(w, done, n, r)
    ensures (forall i :: 1 <= i < n ==> Elapsed(w, i) <= 300_000) && (r == TimedOut ==> Elapsed(w, n) > 300_000)
  {
    hide Elapsed;
    forall i | 1 <= i < n
      ensures Elapsed(w, i) <= 300_000
    {
      assert Waiting(w, done, i);
    }
  }

  /** A wait has one ending. */
  lemma EndingUnique(w: World, done: Lookup -> bool, n1: nat, r1: Result, n2: nat, r2: Result)
    requires Ended(w, done, n1, r1) && Ended(w, done, n2, r2)
    ensures n1 == n2 && r1 == r2
  {
    assert n1 < n2 ==> Waiting(w, done, n1);
    assert n2 < n1 ==> Waiting(w, done, n2);
  }

  /** When lookup `n + 1` begins. */
  function Resumed(w: World, n: nat): nat {
    if n == 0 then 0 else Elapsed(w, n) + Backoff(n) + w.oversleep(n)
  }

  lemma ElapsedNext(w: World, n: nat)
    ensures Elapsed(w, n + 1) == Resumed(w, n) + w.latency(n + 1)
  {
  }

  lemma FirstBackoff()
    ensures Backoff(1) == BACKOFF
  {
  }

  lemma WaitingNext(w: World, done: Lookup -> bool, n: nat)
    ensures StillWaiting(w, done, 0)
    ensures StillWaiting(w, done, n) && Waiting(w, done, n + 1) ==> StillWaiting(w, done, n + 1)
  {
  }

  ghost function ShowsExactly(values: seq<RData>): Lookup -> bool {
    (o: Lookup) => o.Found? && multiset(o.records) == multiset(values)
  }

  method EnsureExists(leq: (RData, RData) -> bool, values: seq<RData>, w: World) returns (r: Result, n: nat)
    requires IsTotal(leq)
    ensures Ended(w, ShowsExactly(values), n, r) && n <= 71
  {
    hide Sort, Slept, Elapsed, StillWaiting, Backoff;
    ghost var done := ShowsExactly(values);
    var backoff, count, clock := BACKOFF, 1, 0;
    n := 0;
    FirstBackoff();
    WaitingNext(w, done, 0);
    while true
      invariant count == n + 1 && backoff == Backoff(count) && clock == Resumed(w, n)
      invariant StillWaiting(w, done, n)
      decreases MOST_LOOKUPS - n
    {
      Bounded(w, done, n);
      ElapsedNext(w, n);
      WaitingNext(w, done, n);
      var outcome := w.answer(count);
      clock := clock + w.latency(count);
      n := n + 1;
      if outcome.Fatal? {
        return Failed, n;
      }
      ExistsStepIff(leq, values, outcome);
      if ExistsStep(leq, values, outcome) {
        return Ok, n;
      }
      if clock > TIMEOUT {
        return TimedOut, n;
      }
      clock := clock + backoff + w.oversleep(count);
      count := count + 1;
      backoff := Backoff(count);
    }
  }

  ghost function ShowsNone(): Lookup -> bool { (o: Lookup) => o.NoRecords? }

  method EnsureNotExisting(w: World) returns (r: Result, n: nat)
    ensures Ended(w, ShowsNone(), n, r) && n <= 71
  {
    hide Slept, Elapsed, StillWaiting, Backoff;
    ghost var done := ShowsNone();
    var backoff, count, clock := BACKOFF, 1, 0;
    n := 0;
    FirstBackoff();
    WaitingNext(w, done, 0);
    while true
      invariant count == n + 1 && backoff == Backoff(count) && clock == Resumed(w, n)
      invariant StillWaiting(w, done, n)
      decreases MOST_LOOKUPS - n
    {
      Bounded(w, done, n);
      ElapsedNext(w, n);
      WaitingNext(w, done, n);
      var outcome := w.answer(count);
      clock := clock + w.latency(count);
      n := n + 1;
      if outcome.Fatal? {
        return Failed, n;
      }
      if NotExistingStep(outcome) {
        return Ok, n;
      }
      if clock > TIMEOUT {
        return TimedOut, n;
      }
      clock := clock + backoff + w.oversleep(count);
      count := count + 1;
      backoff := Backoff(count);
    }
  }
}
