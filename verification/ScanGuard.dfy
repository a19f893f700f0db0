/** The single-flight guard of the dead-link scanner: the daily tick and manual triggers share one slot. */
module ScanGuard {
  import opened Wrappers
  import opened DeadLinkScan

  /** The lock's contents. */
  datatype Inner = Inner(running: bool, lastStarted: Option<int>, lastFinished: Option<int>,
      lastSummary: Option<ScanSummary>)

  class DeadLinkScanState {
    var inner: Inner

    constructor ()
      ensures inner == Inner(false, None, None, None)
    {
      inner := Inner(false, None, None, None);
    }

    method TryBegin(now: int) returns (claimed: bool)
      modifies this
      ensures claimed <==> !old(inner).running
      ensures inner == Began(old(inner), now)
      ensures inner == if old(inner).running then old(inner)
                       else Inner(true, Some(now), old(inner).lastFinished, old(inner).lastSummary)
    {
      if inner.running {
        return false;
      }
      inner := inner.(running := true, lastStarted := Some(now));
      claimed := true;
    }

    method Finish(now: int, summary: Option<ScanSummary>)
      modifies this
      ensures inner == Finished(old(inner), now, summary)
      ensures inner == Inner(false, old(inner).lastStarted, Some(now),
                             if summary.Some? then summary else old(inner).lastSummary)
    {
      inner := inner.(running := false, lastFinished := Some(now));
      if summary.Some? {
        inner := inner.(lastSummary := summary);
      }
    }
  }

  function Began(g: Inner, now: int): Inner {
    if g.running then g else g.(running := true, lastStarted := Some(now))
  }

  function Finished(g: Inner, now: int, summary: Option<ScanSummary>): Inner {
    Inner(false, g.lastStarted, Some(now), if summary.Some? then summary else g.lastSummary)
  }

  /** `run_guarded` by any number of tasks. A task that claims the slot scans until it finishes or dies of a panic;
      one that does not claim it returns at once. */
  datatype Step =
    | Trigger(task: string, now: int)
    | Finish(task: string, now: int, summary: Option<ScanSummary>)
    | Panic(task: string)

  datatype State = State(guard: Inner, scanning: set<string>, good: seq<ScanSummary>)

  const START: State := State(Inner(false, None, None, None), {}, [])

  predicate Enabled(s: State, e: Step) {
    if e.Trigger? then e.task !in s.scanning else e.task in s.scanning
  }

  function Apply(s: State, e: Step): State {
    match e
    case Trigger(task, now) =>
      State(Began(s.guard, now), if s.guard.running then s.scanning else s.scanning + {task}, s.good)
    case Finish(task, now, summary) =>
      State(Finished(s.guard, now, summary), s.scanning - {task},
            if summary.Some? then s.good + [summary.value] else s.good)
    case Panic(task) => s.(scanning := s.scanning - {task})
  }

  function Run(steps: seq<Step>): State {
    if steps == [] then START else Apply(Run(steps[..|steps| - 1]), steps[|steps| - 1])
  }

  predicate Legal(steps: seq<Step>) {
    steps == [] || (Legal(steps[..|steps| - 1]) && Enabled(Run(steps[..|steps| - 1]), steps[|steps| - 1]))
  }

  predicate Panicked(steps: seq<Step>) {
    exists i :: 0 <= i < |steps| && steps[i].Panic?
  }

  /** However triggers, endings and panics interleave: no two tasks scan at once; the slot is taken exactly while one
      does or once one has panicked, and then it stays taken with no task scanning; and the summary shown is that of
      the last pass that succeeded. */
  lemma {:induction false} SingleFlight(steps: seq<Step>)
    requires Legal(steps)
    ensures var s := Run(steps);
            (forall a, b :: a in s.scanning && b in s.scanning ==> a == b) &&
            (s.guard.running <==> s.scanning != {} || Panicked(steps)) &&
            (Panicked(steps) ==> s.scanning == {}) &&
            s.guard.lastSummary == if s.good == [] then None else Some(s.good[|s.good| - 1])
  {
    if steps != [] {
      var before := steps[..|steps| - 1];
      SingleFlight(before);
      var s, e := Run(before), steps[|steps| - 1];
      PanickedStep(steps);
      if e.Trigger? {
        assert e.task in s.scanning + {e.task};
      } else {
        assert s.scanning - {e.task} == {};
      }
    }
  }

  lemma PanickedStep(steps: seq<Step>)
    requires steps != []
    ensures Panicked(steps) <==> Panicked(steps[..|steps| - 1]) || steps[|steps| - 1].Panic?
  {
    var before := steps[..|steps| - 1];
    if i :| 0 <= i < |before| && before[i].Panic? {
      assert steps[i].Panic?;
    }
    if i :| 0 <= i < |steps| && steps[i].Panic? {
      assert i < |before| ==> before[i].Panic?;
    }
  }
}
