/** What the publisher promises, for every run from its initial state. */
module PublisherTheorems {
  import opened Basics
  import opened Backoff
  import opened History
  import opened Numbers
  import opened PublisherModel
  import opened PublisherSafety

  lemma Always(c: Config, clock: int, steps: seq<Step>)
    requires IsRun(c, Init(clock), steps)
    ensures Inv(c, Exec(c, Init(clock), steps))
  {
    InvInit(c, clock);
    InvRun(c, Init(clock), steps);
  }

  /** No update is lost: the most recent value of every key is either still pending or the last one the
      broker accepted for that key. */
  lemma NoLostUpdate(c: Config, clock: int, steps: seq<Step>, k: Key)
    requires IsRun(c, Init(clock), steps)
    ensures var s := Exec(c, Init(clock), steps);
            Of(s.published, k) != [] ==>
              if k in s.pending then s.pending[k] == Last(Of(s.published, k))
              else Of(s.delivered, k) != [] && Last(Of(s.delivered, k)) == Last(Of(s.published, k))
  {
    Always(c, clock, steps);
  }

  /** No older value follows a newer one: without repetitions, a key's deliveries are a subsequence of its
      publications, whatever sends failed and whatever acknowledgements were lost. */
  lemma PerKeyOrder(c: Config, clock: int, steps: seq<Step>, k: Key)
    requires IsRun(c, Init(clock), steps)
    ensures var s := Exec(c, Init(clock), steps);
            IsSubsequence(Destutter(Of(s.delivered, k)), Of(s.published, k))
  {
    Always(c, clock, steps);
    var s := Exec(c, Init(clock), steps);
    InOrderMeansSubsequence(Of(s.published, k), Of(s.delivered, k), ReadUpTo(s, k));
  }

  /** The same said directly: each delivery of a key traces to a publication of that very value, and later deliveries
      never trace to earlier publications. */
  lemma DeliveriesTraceForward(c: Config, clock: int, steps: seq<Step>, k: Key) returns (at: seq<nat>)
    requires IsRun(c, Init(clock), steps)
    ensures var s := Exec(c, Init(clock), steps);
            Traces(Of(s.published, k), Of(s.delivered, k), at)
  {
    PerKeyOrder(c, clock, steps, k);
    var s := Exec(c, Init(clock), steps);
    at := TracedPositions(Of(s.published, k), Of(s.delivered, k));
  }

  /** A worker blocked without a timer has nothing to do, or a wake token is there or about to be sent. A
      worker blocked with a timer has only cooling keys, or a token is owed, and its timer does not fire
      before some key has cooled down. */
  lemma NoLostWakeup(c: Config, clock: int, steps: seq<Step>)
    requires IsRun(c, Init(clock), steps)
    ensures var s := Exec(c, Init(clock), steps);
            && (s.worker.Waiting? ==> s.pending == map[] || s.wake || s.signalling > 0)
            && (s.worker.Sleeping? ==>
                  && (s.pending.Keys <= s.retry.Keys || s.wake || s.signalling > 0)
                  && exists k :: k in s.pending && k in s.retry && s.retry[k].nextAttempt <= s.worker.until)
  {
    Always(c, clock, steps);
  }

  /** Backoff history exists only for pending keys, or for the key whose clearRetry is next; so a key whose
      attempt begins is still pending and the defensive branch of attemptOnce is never taken. */
  lemma AttemptFindsItsKey(c: Config, clock: int, steps: seq<Step>)
    requires IsRun(c, Init(clock), steps)
    ensures var s := Exec(c, Init(clock), steps);
            && (Enabled(s, BeginAttempt) ==>
              s.worker.ready[s.worker.i] in s.pending && Apply(c, s, BeginAttempt).worker.Sending?)
            && (!s.worker.Clearing? ==> s.retry.Keys <= s.pending.Keys)
            && (s.worker.Clearing? ==> Enabled(s, Clear) && Apply(c, s, Clear).retry.Keys <= s.pending.Keys)
  {
    Always(c, clock, steps);
  }

  /** No head-of-line blocking: when a round ends it has attempted each key that was due at its snapshot, and
      no other, exactly once, whatever became of the sends; and the worker blocks only if no key was due. */
  lemma RoundAttemptsEveryDueKeyOnce(c: Config, clock: int, steps: seq<Step>)
    requires IsRun(c, Init(clock), steps)
    requires Enabled(Exec(c, Init(clock), steps), EndRound)
    ensures var s := Exec(c, Init(clock), steps);
            && NoDuplicates(AttemptedInRound(s.trail))
            && (forall k :: k in AttemptedInRound(s.trail) <==> k in DueInRound(s.trail))
            && var w := Apply(c, s, EndRound).worker;
               (w.Waiting? || w.Sleeping? ==> DueInRound(s.trail) == {}) && (w.ReadClock? ==> DueInRound(s.trail) != {})
  {
    Always(c, clock, steps);
    var s := Exec(c, Init(clock), steps);
    assert s.worker.ready[..s.worker.i] == s.worker.ready;
    if s.worker.ready != [] {
      assert s.worker.ready[0] in s.worker.ready;
    }
  }

  lemma SpacingInClosedForm(c: Config, before: seq<Mark>, m: Mark)
    requires 0 <= c.initialBackoff <= c.maxBackoff && 2 * c.maxBackoff <= MAX_INT64
    requires SpacedAt(c, before, m) && m.Attempt? && Streak(before, m.key) > 0
    ensures m.at >= LastFailure(before, m.key) + Min(c.maxBackoff, c.initialBackoff * Pow2(Streak(before, m.key) - 1))
  {
    BelowTheCap(c.initialBackoff, c.maxBackoff, Streak(before, m.key) - 1);
  }

  /** A key that has failed n times since its last success is not attempted again before the n-th backoff has
      passed since the last failure, even if a newer value has been published; that backoff is
      min(max, initial * 2^(n-1)) unless doubling overflows. */
  lemma RetriesAreSpaced(c: Config, clock: int, steps: seq<Step>, j: nat)
    requires IsRun(c, Init(clock), steps)
    requires j < |Exec(c, Init(clock), steps).trail|
    requires var trail := Exec(c, Init(clock), steps).trail; trail[j].Attempt? && Streak(trail[..j], trail[j].key) > 0
    ensures var trail := Exec(c, Init(clock), steps).trail;
            var key, n := trail[j].key, Streak(trail[..j], trail[j].key);
            && trail[j].at >= LastFailure(trail[..j], key) + AfterFailures(c.initialBackoff, c.maxBackoff, n - 1)
            && (0 <= c.initialBackoff <= c.maxBackoff && 2 * c.maxBackoff <= MAX_INT64 ==>
                  trail[j].at >= LastFailure(trail[..j], key) + Min(c.maxBackoff, c.initialBackoff * Pow2(n - 1)))
  {
    Always(c, clock, steps);
    SpacingAt(c, Exec(c, Init(clock), steps).trail, j);
  }

  lemma SpacingAt(c: Config, trail: seq<Mark>, j: nat)
    requires Spaced(c, trail) && j < |trail| && trail[j].Attempt? && Streak(trail[..j], trail[j].key) > 0
    ensures var key, n := trail[j].key, Streak(trail[..j], trail[j].key);
            && trail[j].at >= LastFailure(trail[..j], key) + AfterFailures(c.initialBackoff, c.maxBackoff, n - 1)
            && (0 <= c.initialBackoff <= c.maxBackoff && 2 * c.maxBackoff <= MAX_INT64 ==>
                  trail[j].at >= LastFailure(trail[..j], key) + Min(c.maxBackoff, c.initialBackoff * Pow2(n - 1)))
  {
    assert SpacedAt(c, trail[..j], trail[j]);
    if 0 <= c.initialBackoff <= c.maxBackoff && 2 * c.maxBackoff <= MAX_INT64 {
      SpacingInClosedForm(c, trail[..j], trail[j]);
    }
  }

  /** With nothing pending, a consumer that folds what the broker accepted has the table that folding what
      was published gives, duplicates and coalescing notwithstanding. */
  lemma DrainedMeansUpToDate(c: Config, clock: int, steps: seq<Step>)
    requires IsRun(c, Init(clock), steps)
    requires Exec(c, Init(clock), steps).pending == map[]
    ensures var s := Exec(c, Init(clock), steps);
            View(s.delivered) == View(s.published)
  {
    Always(c, clock, steps);
    InvDrained(c, Exec(c, Init(clock), steps));
  }

  lemma InvDrained(c: Config, s: State)
    requires Inv(c, s) && s.pending == map[]
    ensures View(s.delivered) == View(s.published)
  {
    forall k | Of(s.published, k) == [] ensures Of(s.delivered, k) == [] {
      assert InOrder(Of(s.published, k), Of(s.delivered, k), ReadUpTo(s, k));
      InOrderMeansSubsequence(Of(s.published, k), Of(s.delivered, k), ReadUpTo(s, k));
      DestutterNonempty(Of(s.delivered, k));
    }
    SameLastSameView(s.delivered, s.published);
  }

  lemma {:induction false} DestutterNonempty<T>(d: seq<T>)
    ensures Destutter(d) == [] <==> d == []
  {
    if |d| > 1 {
      DestutterNonempty(Front(d));
    }
  }

  // ----- cancellation

  /** No round begins at mark `from` or later. */
  ghost predicate NoRoundSince(trail: seq<Mark>, from: nat) {
    forall i :: from <= i < |trail| ==> !trail[i].RoundStart?
  }

  /** At most one round begins at mark `from` or later. */
  ghost predicate OneRoundSince(trail: seq<Mark>, from: nat) {
    forall i, j :: from <= i < j < |trail| ==> !(trail[i].RoundStart? && trail[j].RoundStart?)
  }

  ghost predicate Winding(s: State, from: nat) {
    && s.cancelled && from <= |s.trail| && OneRoundSince(s.trail, from)
    && (NoRoundSince(s.trail, from) || InRound(s.worker) || s.worker.Stopped?)
  }

  lemma WindingStep(c: Config, s: State, step: Step, from: nat)
    requires Winding(s, from) && Enabled(s, step)
    ensures Winding(Apply(c, s, step), from)
  {
    var t := Apply(c, s, step);
    if step.TakeSnapshot? {
      assert NoRoundSince(s.trail, from);
    } else {
      assert t.trail == s.trail || (t.trail == s.trail + [Last(t.trail)] && !Last(t.trail).RoundStart?);
    }
  }

  lemma {:induction false} WindingRun(c: Config, s: State, steps: seq<Step>, from: nat)
    requires Winding(s, from) && IsRun(c, s, steps)
    ensures Winding(Exec(c, s, steps), from)
    decreases |steps|
  {
    if steps != [] {
      WindingStep(c, s, steps[0], from);
      WindingRun(c, Apply(c, s, steps[0]), steps[1..], from);
    }
  }

  /** Cancellation is heeded: whatever happens after it, the worker begins at most one more round. */
  lemma AtMostOneRoundAfterCancel(c: Config, s: State, steps: seq<Step>)
    requires s.cancelled && IsRun(c, s, steps)
    ensures |s.trail| <= |Exec(c, s, steps).trail|
    ensures OneRoundSince(Exec(c, s, steps).trail, |s.trail|)
  {
    WindingRun(c, s, steps, |s.trail|);
  }

  // ----- what is not promised

  /** A value read before a newer one is published is sent after it: the design's wording that nothing stale
      is delivered once a newer value is recorded holds only up to a send already under way. */
  lemma StaleSendHappens(c: Config, st: ServiceType, id: string, older: string, newer: string)
    requires older != newer
    ensures var k := Key(st.subject, id);
            var steps := [Store(st, id, older, ""), TakeClock, TakeSnapshot([k], -1), BeginAttempt,
                          Store(st, id, newer, ""), Send(Acked)];
            && IsRun(c, Init(0), steps)
            && var s := Exec(c, Init(0), steps);
               && s.published == [Event(k, Value(st, older, "")), Event(k, Value(st, newer, ""))]
               && s.delivered == [Event(k, Value(st, older, ""))]
  {
    var k := Key(st.subject, id);
    var first := [Store(st, id, older, ""), TakeClock, TakeSnapshot([k], -1)];
    var second := [BeginAttempt, Store(st, id, newer, ""), Send(Acked)];
    RoundBegins(c, st, id, older);
    RacedSend(c, Exec(c, Init(0), first), k, st, newer);
    RunConcat(c, Init(0), first, second);
    assert first + second == [Store(st, id, older, ""), TakeClock, TakeSnapshot([k], -1), BeginAttempt,
                              Store(st, id, newer, ""), Send(Acked)];
  }

  lemma OneKeyIsDue(k: Key, v: Value)
    ensures IsSnapshot(map[k := v], map[], 0, [k], -1)
  {
  }

  lemma RoundBegins(c: Config, st: ServiceType, id: string, status: string)
    ensures var k := Key(st.subject, id);
            var steps := [Store(st, id, status, ""), TakeClock, TakeSnapshot([k], -1)];
            && IsRun(c, Init(0), steps)
            && var s := Exec(c, Init(0), steps);
               && s.worker == Next([k], 0, -1) && s.pending == map[k := Value(st, status, "")]
               && s.published == [Event(k, Value(st, status, ""))] && s.delivered == []
  {
    var k := Key(st.subject, id);
    var s1 := Apply(c, Init(0), Store(st, id, status, ""));
    var s2 := Apply(c, s1, TakeClock);
    OneKeyIsDue(k, Value(st, status, ""));
    RunPrepend(c, s2, TakeSnapshot([k], -1), []);
    RunPrepend(c, s1, TakeClock, [TakeSnapshot([k], -1)]);
    RunPrepend(c, Init(0), Store(st, id, status, ""), [TakeClock, TakeSnapshot([k], -1)]);
  }

  /** Between reading a value and sending it, another value is published. */
  lemma RacedSend(c: Config, s: State, k: Key, st: ServiceType, newer: string)
    requires k.subject == st.subject && s.worker == Next([k], 0, -1)
    requires k in s.pending && s.pending[k].serviceType == st
    ensures var steps := [BeginAttempt, Store(st, k.resourceID, newer, ""), Send(Acked)];
            && IsRun(c, s, steps)
            && Exec(c, s, steps).published == s.published + [Event(k, Value(st, newer, ""))]
            && Exec(c, s, steps).delivered == s.delivered + [Event(k, s.pending[k])]
  {
    var s1 := Apply(c, s, BeginAttempt);
    var s2 := Apply(c, s1, Store(st, k.resourceID, newer, ""));
    RunPrepend(c, s2, Send(Acked), []);
    RunPrepend(c, s1, Store(st, k.resourceID, newer, ""), [Send(Acked)]);
    RunPrepend(c, s, BeginAttempt, [Store(st, k.resourceID, newer, ""), Send(Acked)]);
  }

  /** What is sent was published, and is the latest publication exactly when it is, still or again, the pending
      value: a later, different value makes it stale unless the old value was published once more. */
  lemma SendIsFreshExactlyWhilePending(c: Config, clock: int, steps: seq<Step>)
    requires IsRun(c, Init(clock), steps)
    requires Exec(c, Init(clock), steps).worker.Sending?
    ensures var s := Exec(c, Init(clock), steps);
            var w := s.worker;
            && w.i < |w.ready|
            && var k := w.ready[w.i];
               && 0 < w.seen <= |Of(s.published, k)|
               && w.value == Of(s.published, k)[w.seen - 1]
               && (w.value == Last(Of(s.published, k)) <==> k in s.pending && s.pending[k] == w.value)
  {
    Always(c, clock, steps);
    InvSending(c, Exec(c, Init(clock), steps));
  }

  lemma InvSending(c: Config, s: State)
    requires Inv(c, s) && s.worker.Sending?
    ensures var w := s.worker;
            && w.i < |w.ready|
            && var k := w.ready[w.i];
               && 0 < w.seen <= |Of(s.published, k)|
               && w.value == Of(s.published, k)[w.seen - 1]
               && (w.value == Last(Of(s.published, k)) <==> k in s.pending && s.pending[k] == w.value)
  {
    assert InRange(s.worker) && SendsWhatItRead(s);
  }
}
