/** The publisher as the program it is: fields updated under a mutex by Publish and by one worker. Between
    any two atomic sections of the worker, `Interfere` lets producers, the clock and cancellation do anything;
    every method is proved to take only steps of the step system, so what holds of every run of that system
    holds of this object. */
module PublisherObject {
  import opened Basics
  import opened Backoff
  import opened History
  import opened Numbers
  import opened PublisherModel
  import opened PublisherTheorems

  class Publisher {
    const config: Config
    const start: int

    var pending: Pending
    var retry: Retries
    var wake: bool
    var clock: int
    var cancelled: bool
    var signalling: nat   // Publish calls between their map write and their token send

    ghost var worker: Worker
    ghost var published: seq<Event>
    ghost var delivered: seq<Event>
    ghost var trail: seq<Mark>
    ghost var steps: seq<Step>

    ghost function Current(): State
      reads this
    {
      State(pending, retry, wake, signalling, clock, cancelled, worker, published, delivered, trail)
    }

    /** The object is where the step system is after `steps`. */
    ghost predicate Valid()
      reads this
    {
      IsRun(config, Init(start), steps) && Exec(config, Init(start), steps) == Current()
    }

    constructor (config: Config, clock: int)
      ensures Valid() && Current() == Init(clock) && this.config == config && start == clock
    {
      this.config, start, this.clock := config, clock, clock;
      pending, retry, wake, cancelled := map[], map[], false, false;
      signalling, worker, published, delivered, trail, steps := 0, ReadClock, [], [], [], [];
    }

    /** What holds of every run holds of the object at every moment it can be observed. */
    lemma Promises(k: Key)
      requires Valid()
      ensures Of(published, k) != [] ==>
                if k in pending then pending[k] == Last(Of(published, k))
                else Of(delivered, k) != [] && Last(Of(delivered, k)) == Last(Of(published, k))
      ensures IsSubsequence(Destutter(Of(delivered, k)), Of(published, k))
      ensures pending == map[] ==> View(delivered) == View(published)
    {
      NoLostUpdate(config, start, steps, k);
      PerKeyOrder(config, start, steps, k);
      if pending == map[] {
        DrainedMeansUpToDate(config, start, steps);
      }
    }

    // ----- producers

    /** Publish, with nothing between its two sections. */
    method Publish(st: ServiceType, resourceID: string, status: string, message: string)
      requires Valid()
      modifies this
      ensures Valid() && worker == old(worker)
      ensures steps == old(steps) + [Store(st, resourceID, status, message), Signal]
      ensures pending == old(pending)[Key(st.subject, resourceID) := Value(st, status, message)]
      ensures retry == old(retry) && wake
    {
      Record(st, resourceID, status, message);
      Notify();
    }

    /** Publish up to the unlock. */
    method Record(st: ServiceType, resourceID: string, status: string, message: string)
      requires Valid()
      modifies this
      ensures Valid() && worker == old(worker) && signalling > 0
      ensures pending == old(pending)[Key(st.subject, resourceID) := Value(st, status, message)] && retry == old(retry)
      ensures steps == old(steps) + [Store(st, resourceID, status, message)]
      ensures RoundsIn(steps) == RoundsIn(old(steps))
    {
      RunAppend(config, Init(start), steps, Store(st, resourceID, status, message));
      pending := pending[Key(st.subject, resourceID) := Value(st, status, message)];
      signalling := signalling + 1;
      published := published + [Event(Key(st.subject, resourceID), Value(st, status, message))];
      steps := steps + [Store(st, resourceID, status, message)];
    }

    /** The non-blocking send of a wake token to a channel of capacity one. */
    method Notify()
      requires Valid() && signalling > 0
      modifies this
      ensures Valid() && worker == old(worker) && pending == old(pending) && retry == old(retry) && wake
      ensures steps == old(steps) + [Signal]
      ensures RoundsIn(steps) == RoundsIn(old(steps))
    {
      RunAppend(config, Init(start), steps, Signal);
      signalling := signalling - 1;
      wake := true;
      steps := steps + [Signal];
    }

    /** What other goroutines and time do between two sections of the worker: anything, any number of
        times. */
    method Interfere()
      requires Valid()
      modifies this
      ensures Valid() && worker == old(worker) && old(steps) <= steps
      ensures RoundsIn(steps) == RoundsIn(old(steps))
    {
      var moves :| 0 <= moves;
      for _ := 0 to moves
        invariant Valid() && worker == old(worker) && old(steps) <= steps
        invariant RoundsIn(steps) == RoundsIn(old(steps))
      {
        var move: int := *;
        if move == 0 {
          var st, id, status, message := *, *, *, *;
          Record(st, id, status, message);
        } else if move == 1 && signalling > 0 {
          Notify();
        } else if move == 2 {
          var elapsed :| 0 <= elapsed;
          RunAppend(config, Init(start), steps, Tick(elapsed));
          clock := clock + elapsed;
          steps := steps + [Tick(elapsed)];
        } else if move == 3 {
          RunAppend(config, Init(start), steps, Cancel);
          cancelled := true;
          steps := steps + [Cancel];
        }
      }
    }

    // ----- the worker's mutex sections

    /** The keys to attempt, in the order the map happens to yield them, and how long until the soonest
        cooling key is ready. */
    method ScanPending(now: int) returns (ready: seq<Key>, wait: int)
      ensures IsSnapshot(pending, retry, now, ready, wait)
    {
      ready, wait := [], -1;
      var todo := pending.Keys;
      while todo != {}
        invariant todo <= pending.Keys
        invariant NoDuplicates(ready)
        invariant forall k :: k in ready <==> k in pending && k !in todo && Due(retry, k, now)
        invariant IsWait(pending - todo, retry, now, wait)
        decreases todo
      {
        var key :| key in todo;
        assert (pending - (todo - {key})).Keys == (pending - todo).Keys + {key};
        if key in retry && retry[key].nextAttempt - now > 0 {
          var d := retry[key].nextAttempt - now;
          var next := if wait < 0 || d < wait then d else wait;
          WaitAfterCooling(pending - todo, pending - (todo - {key}), retry, now, wait, key, next);
          wait := next;
        } else {
          WaitAfterDue(pending - todo, pending - (todo - {key}), retry, now, wait, key);
          ready := ready + [key];
        }
        todo := todo - {key};
      }
      assert pending - todo == pending;
    }

    method ReadNow() returns (now: int)
      requires Valid() && worker.ReadClock?
      modifies this
      ensures Valid() && worker == Scan(now) && steps == old(steps) + [TakeClock]
      ensures RoundsIn(steps) == RoundsIn(old(steps))
    {
      now := clock;
      RunAppend(config, Init(start), steps, TakeClock);
      worker := Scan(now);
      steps := steps + [TakeClock];
    }

    /** The first half of attemptRound. */
    method TakeReady(now: int) returns (ready: seq<Key>, wait: int)
      requires Valid() && worker == Scan(now)
      modifies this
      ensures Valid() && pending == old(pending) && retry == old(retry)
      ensures IsSnapshot(pending, retry, now, ready, wait)
      ensures worker == Next(ready, 0, wait) && steps == old(steps) + [TakeSnapshot(ready, wait)]
      ensures RoundsIn(steps) == RoundsIn(old(steps)) + 1
    {
      ready, wait := ScanPending(now);
      RunAppend(config, Init(start), steps, TakeSnapshot(ready, wait));
      trail := trail + [RoundStart(set k | k in pending && Due(retry, k, now))];
      worker := Next(ready, 0, wait);
      steps := steps + [TakeSnapshot(ready, wait)];
    }

    method CurrentValue(key: Key) returns (value: Option<Value>)
      requires Valid() && Enabled(Current(), BeginAttempt) && worker.ready[worker.i] == key
      modifies this
      ensures Valid() && steps == old(steps) + [BeginAttempt]
      ensures value == if key in old(pending) then Some(old(pending)[key]) else None
      ensures value.Some? ==> worker.Sending? && worker.value == value.value
      ensures value.None? ==> worker.Clearing?
      ensures (worker.Sending? || worker.Clearing?) && SameRound(worker, old(worker))
      ensures RoundsIn(steps) == RoundsIn(old(steps))
    {
      RunAppend(config, Init(start), steps, BeginAttempt);
      value := if key in pending then Some(pending[key]) else None;
      worker := Apply(config, Current(), BeginAttempt).worker;
      steps := steps + [BeginAttempt];
    }

    /** A broker send, which may be acknowledged, refused, or accepted with the acknowledgement lost. */
    method SendToBroker(key: Key, value: Value) returns (outcome: Outcome)
      requires Valid() && Enabled(Current(), Send(Acked)) && worker.ready[worker.i] == key && worker.value == value
      modifies this
      ensures Valid() && pending == old(pending) && retry == old(retry)
      ensures steps == old(steps) + [Send(outcome)]
      ensures outcome.Acked? ==> worker.Removing? && worker.value == value
      ensures !outcome.Acked? ==> worker.Bumping?
      ensures (worker.Removing? || worker.Bumping?) && SameRound(worker, old(worker))
      ensures RoundsIn(steps) == RoundsIn(old(steps))
    {
      outcome := *;
      RunAppend(config, Init(start), steps, Send(outcome));
      ghost var t := Apply(config, Current(), Send(outcome));
      worker, delivered, trail := t.worker, t.delivered, t.trail;
      steps := steps + [Send(outcome)];
    }

    method RemoveIfUnchanged(key: Key, value: Value)
      requires Valid() && Enabled(Current(), Remove) && worker.ready[worker.i] == key && worker.value == value
      modifies this
      ensures Valid() && steps == old(steps) + [Remove]
      ensures pending ==
              if key in old(pending) && old(pending)[key] == value then old(pending) - {key} else old(pending)
      ensures retry == old(retry)
      ensures worker.Clearing? && SameRound(worker, old(worker))
      ensures RoundsIn(steps) == RoundsIn(old(steps))
    {
      RunAppend(config, Init(start), steps, Remove);
      if key in pending && pending[key] == value {
        pending := pending - {key};
      }
      worker := Clearing(worker.ready, worker.i, worker.wait);
      steps := steps + [Remove];
    }

    /** The first half of bumpRetry. */
    method NextBackoff(key: Key) returns (backoff: int)
      ensures backoff == if key in retry then Advance(retry[key].backoff, config.maxBackoff) else config.initialBackoff
    {
      if key !in retry {
        backoff := config.initialBackoff;
      } else {
        backoff := Wrap64(2 * retry[key].backoff);
        if backoff > config.maxBackoff {
          backoff := config.maxBackoff;
        }
      }
    }

    method BumpRetry(key: Key)
      requires Valid() && Enabled(Current(), Bump) && worker.ready[worker.i] == key
      modifies this
      ensures Valid() && steps == old(steps) + [Bump]
      ensures pending == old(pending) && retry == Bumped(old(retry), config, key, old(clock))
      ensures worker == Next(old(worker).ready, old(worker).i + 1, old(worker).wait)
      ensures RoundsIn(steps) == RoundsIn(old(steps))
    {
      RunAppend(config, Init(start), steps, Bump);
      var backoff := NextBackoff(key);
      trail := trail + [Failure(key, clock)];
      retry := retry[key := Retry(backoff, clock + backoff)];
      worker := Next(worker.ready, worker.i + 1, worker.wait);
      steps := steps + [Bump];
    }

    method ClearRetry(key: Key)
      requires Valid() && Enabled(Current(), Clear) && worker.ready[worker.i] == key
      modifies this
      ensures Valid() && steps == old(steps) + [Clear]
      ensures pending == old(pending) && retry == old(retry) - {key}
      ensures worker == Next(old(worker).ready, old(worker).i + 1, old(worker).wait)
      ensures RoundsIn(steps) == RoundsIn(old(steps))
    {
      RunAppend(config, Init(start), steps, Clear);
      trail := trail + [Success(key)];
      retry := retry - {key};
      worker := Next(worker.ready, worker.i + 1, worker.wait);
      steps := steps + [Clear];
    }

    // ----- the worker's control flow

    /** One attempt to deliver the current value of `key`. */
    method AttemptOnce(key: Key)
      requires Valid() && Enabled(Current(), BeginAttempt) && worker.ready[worker.i] == key
      modifies this
      ensures Valid() && old(steps) <= steps
      ensures worker == Next(old(worker).ready, old(worker).i + 1, old(worker).wait)
      ensures RoundsIn(steps) == RoundsIn(old(steps))
    {
      var value := CurrentValue(key);
      Interfere();
      if value.None? {
        ClearRetry(key);
        return;
      }
      var outcome := SendToBroker(key, value.value);
      Interfere();
      Conclude(key, value.value, outcome);
    }

    /** The end of an attempt, after the broker's answer. */
    method Conclude(key: Key, value: Value, outcome: Outcome)
      requires Valid() && Enabled(Current(), if outcome.Acked? then Remove else Bump)
      requires worker.ready[worker.i] == key && (outcome.Acked? ==> worker.value == value)
      modifies this
      ensures Valid() && old(steps) <= steps
      ensures worker == Next(old(worker).ready, old(worker).i + 1, old(worker).wait)
      ensures RoundsIn(steps) == RoundsIn(old(steps))
    {
      if outcome.Acked? {
        RemoveIfUnchanged(key, value);
        Interfere();
        ClearRetry(key);
      } else {
        BumpRetry(key);
      }
    }

    /** One round: an attempt for every key that is due. */
    method AttemptRound() returns (attempted: bool, wait: int)
      requires Valid() && worker.ReadClock?
      modifies this
      ensures Valid() && old(steps) <= steps
      ensures worker.Next? && worker.i == |worker.ready| && worker.wait == wait && attempted == (worker.ready != [])
      ensures RoundsIn(steps) == RoundsIn(old(steps)) + 1
    {
      var now := ReadNow();
      Interfere();
      var ready;
      ready, wait := TakeReady(now);
      for i := 0 to |ready|
        invariant Valid() && old(steps) <= steps && worker == Next(ready, i, wait)
        invariant RoundsIn(steps) == RoundsIn(old(steps)) + 1
      {
        Interfere();
        AttemptOnce(ready[i]);
      }
      Interfere();
      attempted := |ready| > 0;
    }

    /** What follows a round: return if cancelled, go round again if something was attempted, else block. */
    method FinishRound(attempted: bool, wait: int)
      requires Valid() && worker.Next? && worker.i == |worker.ready|
      requires worker.wait == wait && attempted == (worker.ready != [])
      modifies this
      ensures Valid() && old(steps) <= steps
      ensures worker == if cancelled then Stopped
                        else if attempted then ReadClock
                        else if wait <= 0 then Waiting
                        else Sleeping(clock + wait)
      ensures RoundsIn(steps) == RoundsIn(old(steps))
    {
      RunAppend(config, Init(start), steps, EndRound);
      worker := Apply(config, Current(), EndRound).worker;
      steps := steps + [EndRound];
    }

    /** The select of a blocked worker: with several cases ready any may be taken, but one is; only with none ready is
        the worker still blocked. */
    method Await(timed: bool, until: int) returns (how: Select)
      requires Valid() && worker == if timed then Sleeping(until) else Waiting
      modifies this
      ensures Valid()
      ensures worker == match how case Awake => ReadClock case Gone => Stopped case StillBlocked => old(worker)
      ensures how.StillBlocked? <==> old(!cancelled && !wake && (timed ==> clock < until))
      ensures match how
              case Gone => old(cancelled) && steps == old(steps) + [Stop]
              case Awake => (old(wake) && !wake && steps == old(steps) + [Wake])
                            || (timed && until <= old(clock) && steps == old(steps) + [Timeout])
              case StillBlocked => steps == old(steps)
      ensures cancelled == old(cancelled) && pending == old(pending) && retry == old(retry)
      ensures clock == old(clock) && signalling == old(signalling) && (wake ==> old(wake))
      ensures RoundsIn(steps) == RoundsIn(old(steps))
    {
      if {
        case cancelled =>
          RunAppend(config, Init(start), steps, Stop);
          worker := Stopped;
          steps := steps + [Stop];
          how := Gone;
        case wake =>
          RunAppend(config, Init(start), steps, Wake);
          wake := false;
          worker := ReadClock;
          steps := steps + [Wake];
          how := Awake;
        case timed && until <= clock =>
          RunAppend(config, Init(start), steps, Timeout);
          worker := ReadClock;
          steps := steps + [Timeout];
          how := Awake;
        case !cancelled && !wake && (timed ==> clock < until) =>
          how := StillBlocked;
      }
    }

    /** Whoever is blocked has nothing to do that is not about to be announced. */
    lemma BlockedForGoodReason()
      requires Valid() && !wake
      ensures worker.Waiting? ==> pending == map[] || signalling > 0
      ensures worker.Sleeping? ==> pending.Keys <= retry.Keys || signalling > 0
    {
      NoLostWakeup(config, start, steps);
    }

    /** The delivery worker, observed for some number of rounds: it returns only when cancelled, and is blocked only
        while no token is there, no timer has expired, and a Publish under way will announce whatever is to be done. */
    method Run(rounds: nat) returns (stopped: bool)
      requires Valid() && worker.ReadClock?
      modifies this
      ensures Valid() && old(steps) <= steps
      ensures stopped <==> worker.Stopped?
      ensures stopped ==> cancelled
      ensures worker.ReadClock? || worker.Waiting? || worker.Sleeping? || worker.Stopped?
      ensures worker.ReadClock? ==> RoundsIn(steps) == RoundsIn(old(steps)) + rounds
      ensures rounds > 0 ==> RoundsIn(steps) > RoundsIn(old(steps))
      ensures worker.Waiting? || worker.Sleeping? ==> !cancelled && !wake
      ensures worker.Waiting? ==> pending == map[] || signalling > 0
      ensures worker.Sleeping? ==> clock < worker.until && (pending.Keys <= retry.Keys || signalling > 0)
    {
      stopped := false;
      for i := 0 to rounds
        invariant Valid() && old(steps) <= steps && worker.ReadClock? && !stopped
        invariant RoundsIn(steps) == RoundsIn(old(steps)) + i
      {
        var attempted, wait := AttemptRound();
        FinishRound(attempted, wait);
        if cancelled {
          return true;
        }
        if !attempted {
          var timed, until := wait > 0, clock + wait;
          Interfere();
          var blocked := Await(timed, until);
          if blocked.StillBlocked? {
            BlockedForGoodReason();
          }
          if !blocked.Awake? {
            return blocked.Gone?;
          }
        }
      }
    }
  }

  /** How a select ended. */
  datatype Select = Awake | Gone | StillBlocked

  /** Two points of the same attempt. */
  ghost predicate SameRound(a: Worker, b: Worker) {
    && !a.ReadClock? && !a.Scan? && !a.Waiting? && !a.Sleeping? && !a.Stopped?
    && !b.ReadClock? && !b.Scan? && !b.Waiting? && !b.Sleeping? && !b.Stopped?
    && a.ready == b.ready && a.i == b.i && a.wait == b.wait
  }

  lemma WaitAfterCooling(before: Pending, after: Pending, retry: Retries, now: int, wait: int, key: Key, next: int)
    requires IsWait(before, retry, now, wait)
    requires forall k :: k in after <==> k in before || k == key
    requires !Due(retry, key, now)
    requires var d := retry[key].nextAttempt - now; next == if wait < 0 || d < wait then d else wait
    ensures IsWait(after, retry, now, next)
  {
    if wait != -1 {
      var k :| k in before && !Due(retry, k, now) && wait == retry[k].nextAttempt - now;
      assert k in after;
    }
    assert key in after;
  }

  lemma WaitAfterDue(before: Pending, after: Pending, retry: Retries, now: int, wait: int, key: Key)
    requires IsWait(before, retry, now, wait)
    requires forall k :: k in after <==> k in before || k == key
    requires Due(retry, key, now)
    ensures IsWait(after, retry, now, wait)
  {
    if wait != -1 {
      var k :| k in before && !Due(retry, k, now) && wait == retry[k].nextAttempt - now;
      assert k in after;
    }
  }
}
