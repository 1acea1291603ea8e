/** The status publisher as a step system. Every mutex section, every send to or receive from the wake
    channel and every broker send is one atomic step; producers, the clock and cancellation interleave freely
    with the single worker. */
module PublisherModel {
  import opened Basics
  import opened Backoff
  import opened History

  datatype Retry = Retry(backoff: int, nextAttempt: int)

  datatype Config = Config(initialBackoff: int, maxBackoff: int)

  type Pending = map<Key, Value>
  type Retries = map<Key, Retry>

  /** What became of a broker send. In LostAck the broker keeps the message but the worker sees an error. */
  datatype Outcome = Acked | Rejected | LostAck

  /** The worker's program counter. `ready[i]` is the key being attempted. */
  datatype Worker =
    | ReadClock
    | Scan(now: int)
    | Next(ready: seq<Key>, i: nat, wait: int)
    | Sending(ready: seq<Key>, i: nat, wait: int, value: Value, seen: nat)
    | Removing(ready: seq<Key>, i: nat, wait: int, value: Value)
    | Clearing(ready: seq<Key>, i: nat, wait: int)
    | Bumping(ready: seq<Key>, i: nat, wait: int)
    | Waiting
    | Sleeping(until: int)
    | Stopped

  /** A history of the worker's rounds, used only to state properties. */
  datatype Mark =
    | RoundStart(due: set<Key>)
    | Attempt(key: Key, at: int)
    | Failure(key: Key, at: int)
    | Success(key: Key)

  datatype State = State(
    pending: Pending,
    retry: Retries,
    wake: bool,               // the wake channel holds its one token
    signalling: nat,          // Publish calls between their map write and their token send
    clock: int,
    cancelled: bool,
    worker: Worker,
    published: seq<Event>,    // history
    delivered: seq<Event>,    // history: what the broker accepted
    trail: seq<Mark>          // history
  )

  datatype Step =
    // producers
    | Store(serviceType: ServiceType, resourceID: string, status: string, message: string)
    | Signal
    // environment
    | Tick(elapsed: nat)
    | Cancel
    // worker
    | TakeClock
    | TakeSnapshot(order: seq<Key>, wait: int)
    | BeginAttempt
    | Send(outcome: Outcome)
    | Remove
    | Clear
    | Bump
    | EndRound
    | Wake
    | Timeout
    | Stop

  // ----- the mutex sections

  function Stored(pending: Pending, st: ServiceType, id: string, status: string, message: string): Pending {
    pending[Key(st.subject, id) := Value(st, status, message)]
  }

  function RemovedIfUnchanged(pending: Pending, k: Key, delivered: Value): Pending {
    if k in pending && pending[k] == delivered then pending - {k} else pending
  }

  function Bumped(retry: Retries, c: Config, k: Key, now: int): Retries {
    var backoff := if k in retry then Advance(retry[k].backoff, c.maxBackoff) else c.initialBackoff;
    retry[k := Retry(backoff, now + backoff)]
  }

  function Cleared(retry: Retries, k: Key): Retries {
    retry - {k}
  }

  predicate Due(retry: Retries, k: Key, now: int) {
    k !in retry || retry[k].nextAttempt <= now
  }

  ghost predicate NoDuplicates(s: seq<Key>) {
    forall i, j :: 0 <= i < j < |s| ==> s[i] != s[j]
  }

  ghost predicate IsWait(pending: Pending, retry: Retries, now: int, wait: int) {
    && (wait == -1 ==> forall k :: k in pending ==> Due(retry, k, now))
    && (wait != -1 ==> exists k :: k in pending && !Due(retry, k, now) && wait == retry[k].nextAttempt - now)
    && forall k :: k in pending && !Due(retry, k, now) ==> wait <= retry[k].nextAttempt - now
  }

  /** The result of the first half of attemptRound: the due keys in any order (map iteration order is
      unspecified) and the smallest remaining cooldown, or -1 if no key is cooling down. */
  ghost predicate IsSnapshot(pending: Pending, retry: Retries, now: int, order: seq<Key>, wait: int) {
    && NoDuplicates(order)
    && (forall k :: k in order <==> k in pending && Due(retry, k, now))
    && IsWait(pending, retry, now, wait)
  }

  // ----- steps

  ghost predicate Enabled(s: State, step: Step) {
    match step
    case Store(_, _, _, _) => true
    case Signal => s.signalling > 0
    case Tick(_) => true
    case Cancel => true
    case TakeClock => s.worker.ReadClock?
    case TakeSnapshot(order, wait) => s.worker.Scan? && IsSnapshot(s.pending, s.retry, s.worker.now, order, wait)
    case BeginAttempt => s.worker.Next? && s.worker.i < |s.worker.ready|
    case Send(_) => s.worker.Sending? && s.worker.i < |s.worker.ready|
    case Remove => s.worker.Removing? && s.worker.i < |s.worker.ready|
    case Clear => s.worker.Clearing? && s.worker.i < |s.worker.ready|
    case Bump => s.worker.Bumping? && s.worker.i < |s.worker.ready|
    case EndRound => s.worker.Next? && s.worker.i >= |s.worker.ready|
    case Wake => (s.worker.Waiting? || s.worker.Sleeping?) && s.wake
    case Timeout => s.worker.Sleeping? && s.worker.until <= s.clock
    case Stop => (s.worker.Waiting? || s.worker.Sleeping?) && s.cancelled
  }

  ghost function Apply(c: Config, s: State, step: Step): State
    requires Enabled(s, step)
  {
    var w := s.worker;
    match step
    case Store(st, id, status, message) =>
      s.(pending := Stored(s.pending, st, id, status, message),
         signalling := s.signalling + 1,
         published := s.published + [Event(Key(st.subject, id), Value(st, status, message))])
    case Signal => s.(wake := true, signalling := s.signalling - 1)
    case Tick(elapsed) => s.(clock := s.clock + elapsed)
    case Cancel => s.(cancelled := true)
    case TakeClock => s.(worker := Scan(s.clock))
    case TakeSnapshot(order, wait) =>
      s.(worker := Next(order, 0, wait),
         trail := s.trail + [RoundStart(set k | k in s.pending && Due(s.retry, k, w.now))])
    case BeginAttempt =>
      var k := w.ready[w.i];
      s.(worker := if k in s.pending
                   then Sending(w.ready, w.i, w.wait, s.pending[k], |Of(s.published, k)|)
                   else Clearing(w.ready, w.i, w.wait))
    case Send(outcome) =>
      var k := w.ready[w.i];
      // The broker sees the value's own subject, not the key's.
      var e := Event(Key(w.value.serviceType.subject, k.resourceID), w.value);
      s.(worker := if outcome.Acked? then Removing(w.ready, w.i, w.wait, w.value) else Bumping(w.ready, w.i, w.wait),
         delivered := if outcome.Rejected? then s.delivered else s.delivered + [e],
         trail := s.trail + [Attempt(k, s.clock)])
    case Remove =>
      s.(worker := Clearing(w.ready, w.i, w.wait),
         pending := RemovedIfUnchanged(s.pending, w.ready[w.i], w.value))
    case Clear =>
      s.(worker := Next(w.ready, w.i + 1, w.wait),
         retry := Cleared(s.retry, w.ready[w.i]),
         trail := s.trail + [Success(w.ready[w.i])])
    case Bump =>
      s.(worker := Next(w.ready, w.i + 1, w.wait),
         retry := Bumped(s.retry, c, w.ready[w.i], s.clock),
         trail := s.trail + [Failure(w.ready[w.i], s.clock)])
    case EndRound =>
      s.(worker := if s.cancelled then Stopped
                   else if |w.ready| > 0 then ReadClock
                   else if w.wait <= 0 then Waiting
                   else Sleeping(s.clock + w.wait))
    case Wake => s.(worker := ReadClock, wake := false)
    case Timeout => s.(worker := ReadClock)
    case Stop => s.(worker := Stopped)
  }

  ghost function Init(clock: int): State {
    State(map[], map[], false, 0, clock, false, ReadClock, [], [], [])
  }

  // ----- runs

  ghost predicate IsRun(c: Config, s: State, steps: seq<Step>)
    decreases |steps|
  {
    steps == [] || (Enabled(s, steps[0]) && IsRun(c, Apply(c, s, steps[0]), steps[1..]))
  }

  ghost function Exec(c: Config, s: State, steps: seq<Step>): State
    requires IsRun(c, s, steps)
    decreases |steps|
  {
    if steps == [] then s else Exec(c, Apply(c, s, steps[0]), steps[1..])
  }

  /** The rounds a run has begun. */
  ghost function RoundsIn(steps: seq<Step>): nat
    decreases |steps|
  {
    if steps == [] then 0 else (if steps[0].TakeSnapshot? then 1 else 0) + RoundsIn(steps[1..])
  }

  lemma {:induction false} RunAppend(c: Config, s: State, steps: seq<Step>, step: Step)
    requires IsRun(c, s, steps) && Enabled(Exec(c, s, steps), step)
    ensures IsRun(c, s, steps + [step])
    ensures Exec(c, s, steps + [step]) == Apply(c, Exec(c, s, steps), step)
    ensures RoundsIn(steps + [step]) == RoundsIn(steps) + if step.TakeSnapshot? then 1 else 0
    decreases |steps|
  {
    if steps == [] {
      assert steps + [step] == [step];
      assert [step][1..] == [];
    } else {
      RunAppend(c, Apply(c, s, steps[0]), steps[1..], step);
      assert (steps + [step])[1..] == steps[1..] + [step];
    }
  }

  lemma RunPrepend(c: Config, s: State, step: Step, rest: seq<Step>)
    requires Enabled(s, step) && IsRun(c, Apply(c, s, step), rest)
    ensures IsRun(c, s, [step] + rest)
    ensures Exec(c, s, [step] + rest) == Exec(c, Apply(c, s, step), rest)
  {
    assert ([step] + rest)[1..] == rest;
  }

  lemma {:induction false} RunConcat(c: Config, s: State, steps: seq<Step>, more: seq<Step>)
    requires IsRun(c, s, steps) && IsRun(c, Exec(c, s, steps), more)
    ensures IsRun(c, s, steps + more)
    ensures Exec(c, s, steps + more) == Exec(c, Exec(c, s, steps), more)
    decreases |steps|
  {
    if steps == [] {
      assert steps + more == more;
    } else {
      RunConcat(c, Apply(c, s, steps[0]), steps[1..], more);
      assert (steps + more)[1..] == steps[1..] + more;
    }
  }
}
