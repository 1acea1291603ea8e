/** What every step of the publisher keeps, and what follows for every run. */
module PublisherSafety {
  import opened Basics
  import opened Backoff
  import opened History
  import opened PublisherModel

  ghost predicate InRound(w: Worker) {
    w.Next? || w.Sending? || w.Removing? || w.Clearing? || w.Bumping?
  }

  /** The index of the first key of the round whose attempt has not been settled. */
  ghost function Unsettled(w: Worker): nat
    requires InRound(w)
  {
    if w.Clearing? then w.i + 1 else w.i
  }

  // ----- shape: which keys can be where

  ghost predicate InRange(w: Worker) {
    InRound(w) && w.i < |w.ready|
  }

  /** Values are pending, and being sent, under the subject they will be sent to. */
  ghost predicate Subjects(s: State) {
    && (forall k :: k in s.pending ==> s.pending[k].serviceType.subject == k.subject)
    && ((s.worker.Sending? || s.worker.Removing?) && InRange(s.worker) ==>
          s.worker.value.serviceType.subject == s.worker.ready[s.worker.i].subject)
  }

  /** The retry map only mentions pending keys, except for the one key whose clearRetry is outstanding. */
  ghost predicate RetryDomain(s: State) {
    forall k :: k in s.retry ==>
      k in s.pending || (s.worker.Clearing? && InRange(s.worker) && k == s.worker.ready[s.worker.i])
  }

  ghost predicate WellPlaced(w: Worker) {
    InRound(w) ==> w.i <= |w.ready| && (!w.Next? ==> InRange(w)) && NoDuplicates(w.ready)
  }

  /** Every key the round still has to settle is pending and past its cooldown. */
  ghost predicate StillReady(s: State) {
    && (s.worker.Scan? ==> s.worker.now <= s.clock)
    && (InRound(s.worker) ==>
          forall j :: Unsettled(s.worker) <= j < |s.worker.ready| ==> ReadyKey(s, s.worker.ready[j]))
  }

  ghost predicate ReadyKey(s: State, k: Key) {
    k in s.pending && Due(s.retry, k, s.clock)
  }

  ghost predicate Shape(s: State) {
    Subjects(s) && RetryDomain(s) && WellPlaced(s.worker) && StillReady(s)
  }

  lemma SubjectsStep(c: Config, s: State, step: Step)
    requires Subjects(s) && WellPlaced(s.worker) && Enabled(s, step)
    ensures Subjects(Apply(c, s, step))
  {
  }

  lemma WellPlacedStep(c: Config, s: State, step: Step)
    requires WellPlaced(s.worker) && Enabled(s, step)
    ensures WellPlaced(Apply(c, s, step).worker)
  {
  }

  lemma RetryDomainStep(c: Config, s: State, step: Step)
    requires Shape(s) && Enabled(s, step)
    ensures RetryDomain(Apply(c, s, step))
  {
    if step.Bump? || step.BeginAttempt? {
      assert ReadyKey(s, s.worker.ready[s.worker.i]);
    } else if !step.Store? && !step.Remove? && !step.Clear? {
      assert Apply(c, s, step).pending == s.pending && Apply(c, s, step).retry == s.retry;
    }
  }

  /** A step that does not settle the current key leaves every other key of the round as it is. */
  lemma StillReadyKey(c: Config, s: State, step: Step, k: Key)
    requires Enabled(s, step) && ReadyKey(s, k)
    requires step.Remove? || step.Clear? || step.Bump? ==> k != s.worker.ready[s.worker.i]
    ensures ReadyKey(Apply(c, s, step), k)
  {
  }

  /** Within a round the list does not change, and only settled keys are passed over. */
  lemma RoundGoesOn(c: Config, s: State, step: Step)
    requires WellPlaced(s.worker) && Enabled(s, step) && !step.TakeSnapshot? && InRound(Apply(c, s, step).worker)
    ensures var t := Apply(c, s, step);
            InRound(s.worker) && t.worker.ready == s.worker.ready && Unsettled(s.worker) <= Unsettled(t.worker)
    ensures step.Remove? || step.Clear? || step.Bump? ==> s.worker.i < Unsettled(Apply(c, s, step).worker)
  {
  }

  lemma StillReadyAt(c: Config, s: State, step: Step, j: nat)
    requires Shape(s) && Enabled(s, step) && !step.TakeSnapshot?
    requires var t := Apply(c, s, step); InRound(t.worker) && Unsettled(t.worker) <= j < |t.worker.ready|
    ensures var t := Apply(c, s, step); ReadyKey(t, t.worker.ready[j])
  {
    RoundGoesOn(c, s, step);
    assert ReadyKey(s, s.worker.ready[j]);
    StillReadyKey(c, s, step, s.worker.ready[j]);
  }

  lemma StillReadyStep(c: Config, s: State, step: Step)
    requires Shape(s) && Enabled(s, step)
    ensures StillReady(Apply(c, s, step))
  {
    var t := Apply(c, s, step);
    if step.TakeSnapshot? {
      forall j | 0 <= j < |step.order| ensures ReadyKey(t, step.order[j]) {
        assert step.order[j] in step.order;
      }
    } else if InRound(t.worker) {
      forall j | Unsettled(t.worker) <= j < |t.worker.ready| ensures ReadyKey(t, t.worker.ready[j]) {
        StillReadyAt(c, s, step, j);
      }
    }
  }

  lemma ShapeStep(c: Config, s: State, step: Step)
    requires Shape(s) && Enabled(s, step)
    ensures Shape(Apply(c, s, step))
  {
    SubjectsStep(c, s, step);
    WellPlacedStep(c, s, step);
    RetryDomainStep(c, s, step);
    StillReadyStep(c, s, step);
  }

  // ----- updates: what is pending or delivered for each key

  ghost predicate Updates(s: State) {
    && (forall k :: k in s.pending ==> Of(s.published, k) != [] && Last(Of(s.published, k)) == s.pending[k])
    && (forall k :: k !in s.pending && Of(s.published, k) != [] ==>
          Of(s.delivered, k) != [] && Last(Of(s.delivered, k)) == Last(Of(s.published, k)))
    && (s.worker.Removing? && InRange(s.worker) ==>
          var k := s.worker.ready[s.worker.i];
          Of(s.delivered, k) != [] && Last(Of(s.delivered, k)) == s.worker.value)
  }

  lemma OfAllAppend(log: seq<Event>, e: Event)
    ensures forall k :: Of(log + [e], k) == if e.key == k then Of(log, k) + [e.value] else Of(log, k)
  {
    forall k ensures Of(log + [e], k) == if e.key == k then Of(log, k) + [e.value] else Of(log, k) {
      OfAppend(log, e, k);
    }
  }

  lemma UpdatesStep(c: Config, s: State, step: Step)
    requires Shape(s) && Updates(s) && Enabled(s, step)
    ensures Updates(Apply(c, s, step))
  {
    if step.Store? {
      UpdatesAfterStore(c, s, step);
    } else if step.Send? {
      UpdatesAfterSend(c, s, step);
    } else if step.Remove? {
      UpdatesAfterRemove(c, s);
    } else {
      UpdatesAfterOther(c, s, step);
    }
  }

  lemma UpdatesAfterOther(c: Config, s: State, step: Step)
    requires Updates(s) && Enabled(s, step) && !step.Store? && !step.Send? && !step.Remove?
    ensures Updates(Apply(c, s, step))
  {
    var t := Apply(c, s, step);
    assert t.pending == s.pending && t.published == s.published && t.delivered == s.delivered;
  }

  lemma UpdatesAfterStore(c: Config, s: State, step: Step)
    requires Updates(s) && Enabled(s, step) && step.Store?
    ensures Updates(Apply(c, s, step))
  {
    OfAllAppend(s.published, Last(Apply(c, s, step).published));
  }

  lemma UpdatesAfterSend(c: Config, s: State, step: Step)
    requires Shape(s) && Updates(s) && Enabled(s, step) && step.Send?
    ensures Updates(Apply(c, s, step))
  {
    OfAllAppend(s.delivered, Event(s.worker.ready[s.worker.i], s.worker.value));
  }

  /** Removal by value is safe even if the value was replaced and published again in between. */
  lemma UpdatesAfterRemove(c: Config, s: State)
    requires Updates(s) && Enabled(s, Remove)
    ensures Updates(Apply(c, s, Remove))
  {
  }

  // ----- order: nothing old after something new

  /** How many of `k`'s publications an outstanding or finished delivery can have come from. */
  ghost function ReadUpTo(s: State, k: Key): nat {
    if s.worker.Sending? && InRange(s.worker) && s.worker.ready[s.worker.i] == k
    then s.worker.seen
    else |Of(s.published, k)|
  }

  ghost predicate Order(s: State) {
    && (forall k :: InOrder(Of(s.published, k), Of(s.delivered, k), ReadUpTo(s, k)))
    && SendsWhatItRead(s)
  }

  lemma OrderAfterStore(c: Config, s: State, step: Step, k: Key)
    requires Order(s) && Enabled(s, step) && step.Store?
    ensures var t := Apply(c, s, step);
            InOrder(Of(t.published, k), Of(t.delivered, k), ReadUpTo(t, k))
  {
    var t := Apply(c, s, step);
    OfAppend(s.published, Last(t.published), k);
    InOrderAfterPublish(Of(s.published, k), Of(s.delivered, k), ReadUpTo(s, k), Last(t.published).value);
    InOrderWeaken(Of(t.published, k), Of(s.delivered, k), ReadUpTo(s, k), ReadUpTo(t, k));
  }

  lemma OrderAfterSend(c: Config, s: State, step: Step, k: Key)
    requires Shape(s) && Order(s) && Enabled(s, step) && step.Send?
    ensures var t := Apply(c, s, step);
            InOrder(Of(t.published, k), Of(t.delivered, k), ReadUpTo(t, k))
  {
    var key := s.worker.ready[s.worker.i];
    OfAppend(s.delivered, Event(key, s.worker.value), k);
    assert InOrder(Of(s.published, k), Of(s.delivered, k), ReadUpTo(s, k));
    if key == k {
      var p, d, seen := Of(s.published, k), Of(s.delivered, k), s.worker.seen;
      InOrderAfterDelivery(p, d, seen);
      InOrderWeaken(p, d, seen, |p|);
      InOrderWeaken(p, d + [s.worker.value], seen, |p|);
    }
  }

  lemma OrderAfterOther(c: Config, s: State, step: Step, k: Key)
    requires Order(s) && Enabled(s, step) && !step.Store? && !step.Send?
    ensures var t := Apply(c, s, step);
            InOrder(Of(t.published, k), Of(t.delivered, k), ReadUpTo(t, k))
  {
    assert InOrder(Of(s.published, k), Of(s.delivered, k), ReadUpTo(s, k));
    assert Apply(c, s, step).published == s.published && Apply(c, s, step).delivered == s.delivered;
  }

  /** The value being sent is the publication it was read from, however many followed. */
  ghost predicate SendsWhatItRead(s: State) {
    s.worker.Sending? && InRange(s.worker) ==>
      var p := Of(s.published, s.worker.ready[s.worker.i]);
      0 < s.worker.seen <= |p| && s.worker.value == p[s.worker.seen - 1]
  }

  lemma SendsWhatItReadStep(c: Config, s: State, step: Step)
    requires Shape(s) && Updates(s) && SendsWhatItRead(s) && Enabled(s, step)
    ensures SendsWhatItRead(Apply(c, s, step))
  {
    if step.Store? {
      SendsWhatItReadAfterStore(c, s, step);
    } else if step.BeginAttempt? {
      SendsWhatItReadAfterBegin(c, s);
    } else if Apply(c, s, step).worker.Sending? {
      assert Apply(c, s, step).worker == s.worker && Apply(c, s, step).published == s.published;
    }
  }

  lemma SendsWhatItReadAfterStore(c: Config, s: State, step: Step)
    requires SendsWhatItRead(s) && step.Store?
    ensures SendsWhatItRead(Apply(c, s, step))
  {
    if s.worker.Sending? && InRange(s.worker) {
      OfAppend(s.published, Last(Apply(c, s, step).published), s.worker.ready[s.worker.i]);
    }
  }

  lemma SendsWhatItReadAfterBegin(c: Config, s: State)
    requires Updates(s) && Enabled(s, BeginAttempt)
    ensures SendsWhatItRead(Apply(c, s, BeginAttempt))
  {
  }

  lemma OrderStep(c: Config, s: State, step: Step)
    requires Shape(s) && Updates(s) && Order(s) && Enabled(s, step)
    ensures Order(Apply(c, s, step))
  {
    var t := Apply(c, s, step);
    SendsWhatItReadStep(c, s, step);
    forall k ensures InOrder(Of(t.published, k), Of(t.delivered, k), ReadUpTo(t, k)) {
      if step.Store? {
        OrderAfterStore(c, s, step, k);
      } else if step.Send? {
        OrderAfterSend(c, s, step, k);
      } else {
        OrderAfterOther(c, s, step, k);
      }
    }
  }

  // ----- wakeups: the worker never blocks on work nobody will announce

  ghost predicate Owed(s: State) {
    s.wake || s.signalling > 0
  }

  /** The round found nothing to attempt. */
  ghost predicate FoundNothing(w: Worker) {
    w.Next? && w.ready == []
  }

  ghost predicate SomeCoolsBy(s: State, time: int) {
    exists k :: k in s.pending && k in s.retry && s.retry[k].nextAttempt <= time
  }

  /** A blocked worker, or one about to block, has nothing to do that no token announces. */
  ghost predicate Announced(s: State) {
    && (s.worker.Waiting? || (FoundNothing(s.worker) && s.worker.wait <= 0) ==> s.pending == map[] || Owed(s))
    && (s.worker.Sleeping? || (FoundNothing(s.worker) && s.worker.wait > 0) ==>
          s.pending.Keys <= s.retry.Keys || Owed(s))
  }

  /** A timer, or one about to be set, fires when some key has cooled down. */
  ghost predicate Timed(s: State) {
    && (s.worker.Sleeping? ==> SomeCoolsBy(s, s.worker.until))
    && (FoundNothing(s.worker) && s.worker.wait > 0 ==> SomeCoolsBy(s, s.clock + s.worker.wait))
  }

  ghost predicate Wakeups(s: State) {
    Announced(s) && Timed(s)
  }

  lemma CoolsByStep(c: Config, s: State, step: Step, time: int)
    requires SomeCoolsBy(s, time) && Enabled(s, step) && !step.Remove? && !step.Clear? && !step.Bump?
    ensures SomeCoolsBy(Apply(c, s, step), time)
  {
    var k :| k in s.pending && k in s.retry && s.retry[k].nextAttempt <= time;
    assert k in Apply(c, s, step).pending;
  }

  lemma CoolsByLater(s: State, time: int, later: int)
    requires SomeCoolsBy(s, time) && time <= later
    ensures SomeCoolsBy(s, later)
  {
  }

  /** A snapshot that finds nothing due has found nothing at all, or only cooling keys. */
  lemma WakeupsAfterSnapshot(c: Config, s: State, step: Step)
    requires Shape(s) && Enabled(s, step) && step.TakeSnapshot? && step.order == []
    ensures Wakeups(Apply(c, s, step))
  {
    forall k | k in s.pending ensures k in s.retry {
      assert k !in step.order;
    }
    if step.wait > 0 {
      var k :| k in s.pending && !Due(s.retry, k, s.worker.now) && step.wait == s.retry[k].nextAttempt - s.worker.now;
      assert SomeCoolsBy(s, s.clock + step.wait);
    } else {
      forall k ensures k !in s.pending {
        assert k !in step.order;
      }
    }
  }

  lemma AnnouncedStep(c: Config, s: State, step: Step)
    requires Announced(s) && Enabled(s, step) && !step.TakeSnapshot?
    ensures Announced(Apply(c, s, step))
  {
    var t := Apply(c, s, step);
    if step.Store? || step.Signal? {
      assert Owed(t);
    } else if !FoundNothing(s.worker) && !s.worker.Waiting? && !s.worker.Sleeping? {
      assert !FoundNothing(t.worker) && !t.worker.Waiting? && !t.worker.Sleeping?;
    } else {
      assert t.pending == s.pending && t.retry == s.retry;
    }
  }

  lemma TimedStep(c: Config, s: State, step: Step)
    requires Timed(s) && Enabled(s, step) && !step.TakeSnapshot?
    ensures Timed(Apply(c, s, step))
  {
    var w := s.worker;
    if w.Sleeping? {
      CoolsByStep(c, s, step, w.until);
    } else if FoundNothing(w) && w.wait > 0 {
      CoolsByStep(c, s, step, s.clock + w.wait);
      CoolsByLater(Apply(c, s, step), s.clock + w.wait, Apply(c, s, step).clock + w.wait);
    }
  }

  lemma WakeupsStep(c: Config, s: State, step: Step)
    requires Shape(s) && Wakeups(s) && Enabled(s, step)
    ensures Wakeups(Apply(c, s, step))
  {
    if step.TakeSnapshot? {
      if step.order == [] {
        WakeupsAfterSnapshot(c, s, step);
      }
    } else {
      AnnouncedStep(c, s, step);
      TimedStep(c, s, step);
    }
  }

  // ----- the trail: rounds, spacing of attempts

  /** Failed attempts of `k` since its last success. */
  ghost function Streak(trail: seq<Mark>, k: Key): nat {
    if trail == [] then 0
    else match Last(trail)
      case Failure(key, _) => Streak(Front(trail), k) + if key == k then 1 else 0
      case Success(key) => if key == k then 0 else Streak(Front(trail), k)
      case _ => Streak(Front(trail), k)
  }

  ghost function LastFailure(trail: seq<Mark>, k: Key): int {
    if trail == [] then 0
    else if Last(trail).Failure? && Last(trail).key == k then Last(trail).at
    else LastFailure(Front(trail), k)
  }

  /** The earliest time at which a key that has failed may be attempted again. */
  ghost function NotBefore(c: Config, trail: seq<Mark>, k: Key): int
    requires Streak(trail, k) > 0
  {
    LastFailure(trail, k) + AfterFailures(c.initialBackoff, c.maxBackoff, Streak(trail, k) - 1)
  }

  /** The keys attempted in the current round, in order. */
  ghost function AttemptedInRound(trail: seq<Mark>): seq<Key> {
    if trail == [] || Last(trail).RoundStart? then []
    else if Last(trail).Attempt? then AttemptedInRound(Front(trail)) + [Last(trail).key]
    else AttemptedInRound(Front(trail))
  }

  /** The keys that were due when the current round took its snapshot. */
  ghost function DueInRound(trail: seq<Mark>): set<Key> {
    if trail == [] then {}
    else if Last(trail).RoundStart? then Last(trail).due
    else DueInRound(Front(trail))
  }

  lemma TrailAppend(trail: seq<Mark>, m: Mark)
    ensures Front(trail + [m]) == trail && Last(trail + [m]) == m
  {
  }

  ghost predicate SpacedAt(c: Config, before: seq<Mark>, m: Mark) {
    m.Attempt? && Streak(before, m.key) > 0 ==> m.at >= NotBefore(c, before, m.key)
  }

  /** No attempt of a key precedes the end of the cooldown its earlier failures earned. */
  ghost predicate Spaced(c: Config, trail: seq<Mark>) {
    forall j :: 0 <= j < |trail| ==> SpacedAt(c, trail[..j], trail[j])
  }

  /** The retry entry of `k` is the one its failures since its last success call for. */
  ghost predicate Cooldown(c: Config, s: State, k: Key) {
    if Streak(s.trail, k) == 0 then k !in s.retry
    else
      k in s.retry && s.retry[k] ==
        Retry(AfterFailures(c.initialBackoff, c.maxBackoff, Streak(s.trail, k) - 1), NotBefore(c, s.trail, k))
  }

  ghost predicate Cooldowns(c: Config, s: State) {
    (forall k :: Cooldown(c, s, k)) && Spaced(c, s.trail)
  }

  lemma SpacedAppend(c: Config, trail: seq<Mark>, m: Mark)
    requires Spaced(c, trail) && SpacedAt(c, trail, m)
    ensures Spaced(c, trail + [m])
  {
    var longer := trail + [m];
    forall j | 0 <= j < |longer| ensures SpacedAt(c, longer[..j], longer[j]) {
      assert longer[..j] == trail[..j];
      if j == |trail| {
        assert trail[..j] == trail;
      }
    }
  }

  /** How one more mark changes the streaks. */
  lemma StreakAppend(trail: seq<Mark>, m: Mark, k: Key)
    ensures Streak(trail + [m], k) ==
            if m.Failure? && m.key == k then Streak(trail, k) + 1
            else if m.Success? && m.key == k then 0
            else Streak(trail, k)
    ensures LastFailure(trail + [m], k) == if m.Failure? && m.key == k then m.at else LastFailure(trail, k)
  {
    TrailAppend(trail, m);
  }

  lemma CooldownAfterClear(c: Config, s: State, k: Key)
    requires Cooldown(c, s, k) && Enabled(s, Clear)
    ensures Cooldown(c, Apply(c, s, Clear), k)
  {
    StreakAppend(s.trail, Success(s.worker.ready[s.worker.i]), k);
  }

  /** One more failure doubles what the streak so far had earned. */
  lemma CooldownAfterBump(c: Config, s: State, k: Key)
    requires Cooldown(c, s, k) && Enabled(s, Bump)
    ensures Cooldown(c, Apply(c, s, Bump), k)
  {
    var t := Apply(c, s, Bump);
    var key := s.worker.ready[s.worker.i];
    StreakAppend(s.trail, Failure(key, s.clock), k);
    if key == k {
      var n := Streak(s.trail, k);
      assert Streak(t.trail, k) == n + 1 && LastFailure(t.trail, k) == s.clock;
      assert t.retry[k].backoff == AfterFailures(c.initialBackoff, c.maxBackoff, n);
    } else {
      assert k in t.retry <==> k in s.retry;
    }
  }

  /** An attempt or a new round changes no streak. */
  lemma CooldownAfterMark(c: Config, s: State, step: Step, k: Key)
    requires Cooldown(c, s, k) && Enabled(s, step) && (step.Send? || step.TakeSnapshot?)
    ensures Cooldown(c, Apply(c, s, step), k)
  {
    StreakAppend(s.trail, Last(Apply(c, s, step).trail), k);
  }

  lemma CooldownAfterOther(c: Config, s: State, step: Step, k: Key)
    requires Cooldown(c, s, k) && Enabled(s, step)
    requires !step.Send? && !step.TakeSnapshot? && !step.Clear? && !step.Bump?
    ensures Cooldown(c, Apply(c, s, step), k)
  {
    assert Apply(c, s, step).trail == s.trail && Apply(c, s, step).retry == s.retry;
  }

  lemma CooldownStep(c: Config, s: State, step: Step, k: Key)
    requires Cooldown(c, s, k) && Enabled(s, step)
    ensures Cooldown(c, Apply(c, s, step), k)
  {
    if step.Clear? {
      CooldownAfterClear(c, s, k);
    } else if step.Bump? {
      CooldownAfterBump(c, s, k);
    } else if step.Send? || step.TakeSnapshot? {
      CooldownAfterMark(c, s, step, k);
    } else {
      CooldownAfterOther(c, s, step, k);
    }
  }

  lemma CooldownsStep(c: Config, s: State, step: Step)
    requires Shape(s) && Cooldowns(c, s) && Enabled(s, step)
    ensures Cooldowns(c, Apply(c, s, step))
  {
    var t := Apply(c, s, step);
    forall k ensures Cooldown(c, t, k) {
      CooldownStep(c, s, step, k);
    }
    if t.trail != s.trail {
      var m := Last(t.trail);
      assert t.trail == s.trail + [m];
      if step.Send? {
        assert Cooldown(c, s, m.key) && Due(s.retry, m.key, s.clock);
      }
      SpacedAppend(c, s.trail, m);
    }
  }

  /** The attempts logged since the snapshot are exactly the settled part of the ready list, and the ready
      list is exactly what was due. */
  ghost predicate Rounds(s: State) {
    InRound(s.worker) ==>
      && (forall k :: k in s.worker.ready <==> k in DueInRound(s.trail))
      && Begun(s.worker) <= |s.worker.ready|
      && AttemptedInRound(s.trail) == s.worker.ready[..Begun(s.worker)]
  }

  ghost function Begun(w: Worker): nat
    requires InRound(w)
  {
    if w.Next? || w.Sending? then w.i else w.i + 1
  }

  lemma RoundsAppend(trail: seq<Mark>, m: Mark)
    ensures AttemptedInRound(trail + [m]) ==
            if m.RoundStart? then []
            else if m.Attempt? then AttemptedInRound(trail) + [m.key] else AttemptedInRound(trail)
    ensures DueInRound(trail + [m]) == if m.RoundStart? then m.due else DueInRound(trail)
  {
    TrailAppend(trail, m);
  }

  lemma RoundsAfterMark(c: Config, s: State, step: Step)
    requires WellPlaced(s.worker) && Rounds(s) && Enabled(s, step)
    requires step.TakeSnapshot? || step.Clear? || step.Bump?
    ensures Rounds(Apply(c, s, step))
  {
    RoundsAppend(s.trail, Last(Apply(c, s, step).trail));
  }

  lemma RoundsAfterBegin(c: Config, s: State)
    requires Shape(s) && Rounds(s) && Enabled(s, BeginAttempt)
    ensures Rounds(Apply(c, s, BeginAttempt))
  {
    assert ReadyKey(s, s.worker.ready[s.worker.i]);
  }

  lemma RoundsAfterOther(c: Config, s: State, step: Step)
    requires Rounds(s) && Enabled(s, step)
    requires !step.TakeSnapshot? && !step.Clear? && !step.Bump? && !step.Send? && !step.BeginAttempt?
    ensures Rounds(Apply(c, s, step))
  {
    assert Apply(c, s, step).trail == s.trail;
  }

  lemma RoundsStep(c: Config, s: State, step: Step)
    requires Shape(s) && Rounds(s) && Enabled(s, step)
    ensures Rounds(Apply(c, s, step))
  {
    if step.Send? {
      RoundsAfterSend(c, s, step);
    } else if step.TakeSnapshot? || step.Clear? || step.Bump? {
      RoundsAfterMark(c, s, step);
    } else if step.BeginAttempt? {
      RoundsAfterBegin(c, s);
    } else {
      RoundsAfterOther(c, s, step);
    }
  }

  lemma RoundsAfterSend(c: Config, s: State, step: Step)
    requires WellPlaced(s.worker) && Rounds(s) && Enabled(s, step) && step.Send?
    ensures Rounds(Apply(c, s, step))
  {
    var w := s.worker;
    RoundsAppend(s.trail, Attempt(w.ready[w.i], s.clock));
    assert w.ready[..w.i + 1] == w.ready[..w.i] + [w.ready[w.i]];
  }

  // ----- all of it, over every run

  ghost predicate Inv(c: Config, s: State) {
    Shape(s) && Updates(s) && Order(s) && Wakeups(s) && Cooldowns(c, s) && Rounds(s)
  }

  lemma InvInit(c: Config, clock: int)
    ensures Inv(c, Init(clock))
  {
    NothingDeliveredIsInOrder<Value>([]);
  }

  lemma InvStep(c: Config, s: State, step: Step)
    requires Inv(c, s) && Enabled(s, step)
    ensures Inv(c, Apply(c, s, step))
  {
    ShapeStep(c, s, step);
    UpdatesStep(c, s, step);
    OrderStep(c, s, step);
    WakeupsStep(c, s, step);
    CooldownsStep(c, s, step);
    RoundsStep(c, s, step);
  }

  lemma {:induction false} InvRun(c: Config, s: State, steps: seq<Step>)
    requires Inv(c, s) && IsRun(c, s, steps)
    ensures Inv(c, Exec(c, s, steps))
    decreases |steps|
  {
    if steps != [] {
      InvStep(c, s, steps[0]);
      InvRun(c, Apply(c, s, steps[0]), steps[1..]);
    }
  }
}
