/** Draining: with no further Publish the worker does a bounded amount of work, and it can only come to rest
    with nothing pending. */
module PublisherDrain {
  import opened Basics
  import opened History
  import opened PublisherModel
  import opened PublisherSafety
  import opened PublisherTheorems

  /** Steps that are progress: everything but the clock and cancellation. */
  predicate IsWork(step: Step) {
    !step.Tick? && !step.Cancel?
  }

  predicate IsFailedSend(step: Step) {
    step.Send? && !step.outcome.Acked?
  }

  function WorkIn(steps: seq<Step>): nat {
    if steps == [] then 0 else (if IsWork(steps[0]) then 1 else 0) + WorkIn(steps[1..])
  }

  function FailedSendsIn(steps: seq<Step>): nat {
    if steps == [] then 0 else (if IsFailedSend(steps[0]) then 1 else 0) + FailedSendsIn(steps[1..])
  }

  /** The counts are counts: idle steps and others contribute nothing, the counted ones one each. */
  lemma {:induction false} CountsAdd(a: seq<Step>, b: seq<Step>)
    ensures WorkIn(a + b) == WorkIn(a) + WorkIn(b)
    ensures FailedSendsIn(a + b) == FailedSendsIn(a) + FailedSendsIn(b)
    ensures (forall step :: step in a ==> !step.Tick? && !step.Cancel?) ==> WorkIn(a) == |a|
    ensures (forall step :: step in a ==> step.Send? && !step.outcome.Acked?) ==> FailedSendsIn(a) == |a|
  {
    if a == [] {
      assert a + b == b;
    } else {
      CountsAdd(a[1..], b);
      assert (a + b)[1..] == a[1..] + b;
    }
  }

  predicate PublishesNothing(steps: seq<Step>) {
    forall i :: 0 <= i < |steps| ==> !steps[i].Store?
  }

  ghost predicate SomeDue(s: State, now: int) {
    exists k :: k in s.pending && Due(s.retry, k, now)
  }

  /** The value being sent or removed is no longer the pending one. */
  ghost predicate Overtaken(s: State) {
    && (s.worker.Sending? || s.worker.Removing?) && InRange(s.worker)
    && var k := s.worker.ready[s.worker.i];
       k !in s.pending || s.pending[k] != s.worker.value
  }

  /** How far the worker is from its next settled attempt, or from rest. */
  ghost function Rank(s: State): nat {
    match s.worker
    case ReadClock => if SomeDue(s, s.clock) then 7 else 11
    case Scan(now) => if SomeDue(s, now) then 6 else 10
    case Next(ready, i, _) => if i < |ready| then 5 else if ready == [] then 9 else 12
    case Sending(_, _, _, _, _) => if Overtaken(s) then 16 else 4
    case Removing(_, _, _, _) => if Overtaken(s) then 15 else 3
    case Clearing(_, _, _) => 13
    case Bumping(_, _, _) => 14
    case Waiting => 8
    case Sleeping(_) => 8
    case Stopped => 0
  }

  ghost function Measure(s: State, failures: nat): nat {
    11 * (|s.pending| + failures) + 5 * s.signalling + (if s.wake then 4 else 0) + Rank(s)
  }

  /** Waking up by the timer means that something is due. */
  lemma TimeoutFindsWork(s: State)
    requires Wakeups(s) && Enabled(s, Timeout)
    ensures SomeDue(s, s.clock)
  {
    var k :| k in s.pending && k in s.retry && s.retry[k].nextAttempt <= s.worker.until;
    assert Due(s.retry, k, s.clock);
  }

  lemma SnapshotSettlesRank(c: Config, s: State, step: Step)
    requires Enabled(s, step) && step.TakeSnapshot?
    ensures Rank(Apply(c, s, step)) < Rank(s)
  {
    if SomeDue(s, s.worker.now) {
      var k :| k in s.pending && Due(s.retry, k, s.worker.now);
      assert k in step.order;
    }
    if step.order != [] {
      var k := step.order[0];
      assert k in step.order;
      assert k in s.pending && Due(s.retry, k, s.worker.now);
    }
  }

  lemma RemoveDecreasesMeasure(c: Config, s: State, failures: nat)
    requires Enabled(s, Remove)
    ensures Measure(Apply(c, s, Remove), failures) < Measure(s, failures)
  {
    var k := s.worker.ready[s.worker.i];
    if !Overtaken(s) {
      assert s.pending == (s.pending - {k})[k := s.pending[k]];
    }
  }

  lemma BeginDecreasesMeasure(c: Config, s: State, failures: nat)
    requires Shape(s) && Enabled(s, BeginAttempt)
    ensures Measure(Apply(c, s, BeginAttempt), failures) < Measure(s, failures)
  {
    assert ReadyKey(s, s.worker.ready[s.worker.i]);
  }

  lemma SignalDecreasesMeasure(c: Config, s: State, failures: nat)
    requires Enabled(s, Signal)
    ensures Measure(Apply(c, s, Signal), failures) < Measure(s, failures)
  {
    var t := Apply(c, s, Signal);
    assert SomeDue(t, t.clock) == SomeDue(s, s.clock);
    assert s.worker.Scan? ==> SomeDue(t, s.worker.now) == SomeDue(s, s.worker.now);
  }

  /** Leaving a round, or a wait, for the next clock reading. */
  lemma ReturnDecreasesMeasure(c: Config, s: State, step: Step, failures: nat)
    requires WellPlaced(s.worker) && Enabled(s, step) && (step.TakeClock? || step.EndRound? || step.Wake? || step.Stop?)
    ensures Measure(Apply(c, s, step), failures) < Measure(s, failures)
  {
    var t := Apply(c, s, step);
    assert step.TakeClock? ==> SomeDue(t, s.clock) == SomeDue(s, s.clock);
  }

  lemma OtherWorkDecreasesMeasure(c: Config, s: State, step: Step, failures: nat)
    requires Enabled(s, step) && (step == Send(Acked) || step.Clear? || step.Bump?)
    ensures Measure(Apply(c, s, step), failures) < Measure(s, failures)
  {
    if step.Send? {
      assert Overtaken(Apply(c, s, step)) == Overtaken(s);
    }
  }

  lemma WorkDecreasesMeasure(c: Config, s: State, step: Step, failures: nat)
    requires Shape(s) && Wakeups(s) && Enabled(s, step) && IsWork(step) && !step.Store? && !IsFailedSend(step)
    ensures Measure(Apply(c, s, step), failures) < Measure(s, failures)
  {
    if step.TakeSnapshot? {
      SnapshotSettlesRank(c, s, step);
    } else if step.Timeout? {
      TimeoutFindsWork(s);
    } else if step.Remove? {
      RemoveDecreasesMeasure(c, s, failures);
    } else if step.BeginAttempt? {
      BeginDecreasesMeasure(c, s, failures);
    } else if step.Signal? {
      SignalDecreasesMeasure(c, s, failures);
    } else if step.TakeClock? || step.EndRound? || step.Wake? || step.Stop? {
      ReturnDecreasesMeasure(c, s, step, failures);
    } else {
      OtherWorkDecreasesMeasure(c, s, step, failures);
    }
  }

  lemma FailedSendDecreasesMeasure(c: Config, s: State, step: Step, failures: nat)
    requires Shape(s) && Enabled(s, step) && IsFailedSend(step)
    ensures Measure(Apply(c, s, step), failures) < Measure(s, failures + 1)
  {
  }

  lemma IdleKeepsMeasure(c: Config, s: State, step: Step, failures: nat)
    requires Enabled(s, step) && !IsWork(step)
    ensures Measure(Apply(c, s, step), failures) <= Measure(s, failures)
  {
    if step.Tick? && s.worker.ReadClock? && SomeDue(s, s.clock) {
      var k :| k in s.pending && Due(s.retry, k, s.clock);
      assert Due(s.retry, k, s.clock + step.elapsed);
    }
  }

  lemma {:induction false} WorkIsBoundedBy(c: Config, s: State, steps: seq<Step>)
    requires Inv(c, s) && IsRun(c, s, steps) && PublishesNothing(steps)
    ensures WorkIn(steps) <= Measure(s, FailedSendsIn(steps))
    decreases |steps|
  {
    if steps != [] {
      var step, rest := steps[0], steps[1..];
      var t := Apply(c, s, step);
      InvStep(c, s, step);
      WorkIsBoundedBy(c, t, rest);
      if !IsWork(step) {
        IdleKeepsMeasure(c, s, step, FailedSendsIn(rest));
      } else if IsFailedSend(step) {
        FailedSendDecreasesMeasure(c, s, step, FailedSendsIn(rest));
      } else {
        WorkDecreasesMeasure(c, s, step, FailedSendsIn(rest));
      }
    }
  }

  /** After the last Publish, the steps of the worker and of the Publish calls still under way are at most
      linear in the pending keys, the failed sends and the wake tokens, whatever the clock does. */
  lemma DrainIsBounded(c: Config, clock: int, before: seq<Step>, steps: seq<Step>)
    requires IsRun(c, Init(clock), before)
    requires IsRun(c, Exec(c, Init(clock), before), steps) && PublishesNothing(steps)
    ensures var s := Exec(c, Init(clock), before);
            WorkIn(steps) <= 11 * (|s.pending| + FailedSendsIn(steps)) + 5 * s.signalling + 20
  {
    Always(c, clock, before);
    WorkIsBoundedBy(c, Exec(c, Init(clock), before), steps);
  }

  // ----- and it does not stop early

  /** Some order of a finite set of keys. */
  lemma {:induction false} Enumerate(keys: set<Key>) returns (order: seq<Key>)
    ensures NoDuplicates(order) && forall k :: k in order <==> k in keys
  {
    if keys == {} {
      order := [];
    } else {
      var k :| k in keys;
      var rest := Enumerate(keys - {k});
      order := [k] + rest;
    }
  }

  /** The smallest remaining cooldown exists. */
  lemma {:induction false} SmallestWait(pending: Pending, retry: Retries, now: int) returns (wait: int)
    ensures IsWait(pending, retry, now, wait)
    decreases |pending|
  {
    if k :| k in pending && !Due(retry, k, now) {
      var rest := pending - {k};
      assert pending.Keys == rest.Keys + {k};
      var w := SmallestWait(rest, retry, now);
      var mine := retry[k].nextAttempt - now;
      wait := if w == -1 || mine < w then mine else w;
      if w != -1 && !(mine < w) {
        var m :| m in rest && !Due(retry, m, now) && w == retry[m].nextAttempt - now;
        assert m in pending;
      }
      forall m | m in pending && !Due(retry, m, now) ensures wait <= retry[m].nextAttempt - now {
        if m != k {
          assert m in rest;
        }
      }
    } else {
      wait := -1;
    }
  }

  lemma SnapshotExists(s: State, now: int) returns (order: seq<Key>, wait: int)
    ensures IsSnapshot(s.pending, s.retry, now, order, wait)
  {
    order := Enumerate(set k | k in s.pending && Due(s.retry, k, now));
    wait := SmallestWait(s.pending, s.retry, now);
  }

  /** Within a round there is always a next step, which need not be a failure. */
  lemma RoundCanProceed(s: State) returns (step: Step)
    requires WellPlaced(s.worker) && InRound(s.worker)
    ensures Enabled(s, step) && (step in {BeginAttempt, EndRound, Remove, Clear, Bump} || step == Send(Acked))
  {
    match s.worker
    case Next(ready, i, _) => step := if i < |ready| then BeginAttempt else EndRound;
    case Sending(_, _, _, _, _) => step := Send(Acked);
    case Removing(_, _, _, _) => step := Remove;
    case Clearing(_, _, _) => step := Clear;
    case Bumping(_, _, _) => step := Bump;
  }

  /** Progress towards an empty queue that no failure or cancellation interrupts. */
  predicate IsHelpful(step: Step) {
    IsWork(step) && !step.Store? && !IsFailedSend(step) && !step.Stop?
  }

  /** The worker is stuck only when it has been cancelled or has nothing left: otherwise, after some time at
      most, a step of the worker or of an unfinished Publish is possible. */
  lemma CanProceed(c: Config, s: State) returns (elapsed: nat, step: Step)
    requires WellPlaced(s.worker) && Announced(s) && s.pending != map[] && !s.worker.Stopped?
    ensures IsHelpful(step) && Enabled(Apply(c, s, Tick(elapsed)), step)
  {
    elapsed := 0;
    if InRound(s.worker) {
      step := RoundCanProceed(s);
    } else {
      match s.worker
      case ReadClock => step := TakeClock;
      case Scan(now) =>
        var order, wait := SnapshotExists(s, now);
        step := TakeSnapshot(order, wait);
      case Waiting => step := if s.wake then Wake else Signal;
      case Sleeping(until) =>
        elapsed := if until > s.clock then until - s.clock else 0;
        step := Timeout;
    }
  }

  /** Drain: a run without Publish or cancellation can be extended unless everything published has been
      delivered, and it cannot be extended for ever. */
  lemma RestMeansDrained(c: Config, clock: int, steps: seq<Step>)
    requires IsRun(c, Init(clock), steps)
    requires var s := Exec(c, Init(clock), steps);
             && !s.worker.Stopped?
             && forall elapsed: nat, step :: IsWork(step) && !step.Store? ==> !Enabled(Apply(c, s, Tick(elapsed)), step)
    ensures Exec(c, Init(clock), steps).pending == map[]
  {
    Always(c, clock, steps);
    if Exec(c, Init(clock), steps).pending != map[] {
      var elapsed, step := CanProceed(c, Exec(c, Init(clock), steps));
      assert false;
    }
  }

  /** The worker stops only if cancelled. */
  ghost predicate StopsByCancel(s: State) {
    s.worker.Stopped? ==> s.cancelled
  }

  lemma {:induction false} OnlyCancelStops(c: Config, s: State, steps: seq<Step>)
    requires StopsByCancel(s) && IsRun(c, s, steps)
    ensures StopsByCancel(Exec(c, s, steps))
    decreases |steps|
  {
    if steps != [] {
      OnlyCancelStops(c, Apply(c, s, steps[0]), steps[1..]);
    }
  }

  /** A tick and a helpful step bring the queue closer to being drained. */
  lemma HelpfulSteps(c: Config, s: State, elapsed: nat, step: Step)
    requires Inv(c, s) && !s.cancelled && !s.worker.Stopped?
    requires IsHelpful(step) && Enabled(Apply(c, s, Tick(elapsed)), step)
    ensures var next := Apply(c, Apply(c, s, Tick(elapsed)), step);
            Inv(c, next) && !next.cancelled && !next.worker.Stopped? && Measure(next, 0) < Measure(s, 0)
  {
    var t := Apply(c, s, Tick(elapsed));
    InvStep(c, s, Tick(elapsed));
    IdleKeepsMeasure(c, s, Tick(elapsed), 0);
    InvStep(c, t, step);
    WorkDecreasesMeasure(c, t, step, 0);
  }

  ghost predicate Drains(c: Config, s: State, steps: seq<Step>) {
    && IsRun(c, s, steps) && PublishesNothing(steps) && FailedSendsIn(steps) == 0
    && Exec(c, s, steps).pending == map[]
  }

  lemma DrainsPrepend(c: Config, s: State, step: Step, rest: seq<Step>)
    requires Enabled(s, step) && !step.Store? && !IsFailedSend(step)
    requires Drains(c, Apply(c, s, step), rest)
    ensures Drains(c, s, [step] + rest)
  {
    RunPrepend(c, s, step, rest);
    CountsPrepend(step, rest);
  }

  lemma {:induction false} Drain(c: Config, s: State) returns (steps: seq<Step>)
    requires Inv(c, s) && !s.cancelled && !s.worker.Stopped?
    ensures Drains(c, s, steps)
    decreases Measure(s, 0)
  {
    if s.pending == map[] {
      steps := [];
    } else {
      var elapsed, step := CanProceed(c, s);
      HelpfulSteps(c, s, elapsed, step);
      var t := Apply(c, s, Tick(elapsed));
      steps := Drain(c, Apply(c, t, step));
      DrainsPrepend(c, t, step, steps);
      DrainsPrepend(c, s, Tick(elapsed), [step] + steps);
      steps := [Tick(elapsed)] + ([step] + steps);
    }
  }

  lemma CountsPrepend(step: Step, rest: seq<Step>)
    requires PublishesNothing(rest) && !step.Store?
    ensures PublishesNothing([step] + rest)
    ensures FailedSendsIn([step] + rest) == FailedSendsIn(rest) + if IsFailedSend(step) then 1 else 0
  {
    assert ([step] + rest)[1..] == rest;
  }

  /** From every reachable state in which the worker is not cancelled, once Publish is no longer called and sends
      succeed, linearly many steps lead to an empty queue, and then a consumer has what was published. */
  lemma CanAlwaysDrain(c: Config, clock: int, before: seq<Step>) returns (steps: seq<Step>)
    requires IsRun(c, Init(clock), before) && !Exec(c, Init(clock), before).cancelled
    ensures IsRun(c, Exec(c, Init(clock), before), steps) && PublishesNothing(steps) && FailedSendsIn(steps) == 0
    ensures var s := Exec(c, Init(clock), before);
            WorkIn(steps) <= 11 * |s.pending| + 5 * s.signalling + 20
    ensures var t := Exec(c, Exec(c, Init(clock), before), steps);
            t.pending == map[] && View(t.delivered) == View(t.published)
  {
    var s := Exec(c, Init(clock), before);
    Always(c, clock, before);
    OnlyCancelStops(c, Init(clock), before);
    steps := Drain(c, s);
    DrainIsBounded(c, clock, before, steps);
    InvRun(c, s, steps);
    InvDrained(c, Exec(c, s, steps));
  }
}
