/** The whole status pipeline: the poller goroutine, cut at every shared-memory operation, in front of the
    publisher's step system. */
module Pipeline {
  import opened Basics
  import opened History
  import opened StatusMapping
  import opened PollerModel
  import opened PublisherModel
  import opened PublisherSafety
  import opened PublisherTheorems
  import P = PollerObject

  datatype Setup = Setup(publisher: Config, types: Types, resyncEvery: nat)

  /** Where the poller is with one resource: before Publish, between its map write and its token, or about to
      write its own cache. */
  datatype Stage = Deciding | Announcing | Caching

  datatype Poller =
    | Idle(service: Service)
    | Comparing(service: Service, before: map<string, Cached>, reports: seq<Report>, i: nat, stage: Stage)
    | Sweeping(service: Service, before: map<string, Cached>, reports: seq<Report>,
                gone: seq<string>, i: nat, stage: Stage)

  /** `listed` and `base` are history: the latest listing of each type whose poll has finished, as a table, and
      what had been published when the current poll began. */
  datatype System = System(
    publisher: State, caches: Caches, cycle: nat, poller: Poller, listed: Caches, base: seq<Event>)

  datatype Action =
    | ListClusters(items: Option<seq<ClusterItem>>)
    | ListVMs(vms: Option<seq<VMItem>>)
    | Compare
    | StartSweep(order: seq<string>)
    | SweepNext
    | Announce
    | WriteCache
    | FinishPoll
    | Publishing(step: Step)

  function Moved(p: Poller, i: nat, stage: Stage): Poller {
    match p
    case Idle(_) => p
    case Comparing(service, before, reports, _, _) => Comparing(service, before, reports, i, stage)
    case Sweeping(service, before, reports, gone, _, _) => Sweeping(service, before, reports, gone, i, stage)
  }

  function AfterPoll(sys: System, service: Service): System {
    if service.Clusters? then sys.(poller := Idle(VMs)) else sys.(poller := Idle(Clusters), cycle := sys.cycle + 1)
  }

  function Listed(sys: System, service: Service, listing: Option<seq<Report>>): System {
    match listing
    case None => AfterPoll(sys, service)
    case Some(reports) =>
      sys.(poller := Comparing(service, sys.caches.Get(service), reports, 0, Deciding), base := sys.publisher.published)
  }

  ghost predicate Possible(sys: System, a: Action) {
    var p := sys.poller;
    match a
    case ListClusters(_) => p == Idle(Clusters)
    case ListVMs(_) => p == Idle(VMs)
    case Compare => p.Comparing? && p.stage.Deciding? && p.i < |p.reports|
    case StartSweep(order) =>
      p.Comparing? && p.stage.Deciding? && p.i == |p.reports|
      && P.Vanished(order, sys.caches.Get(p.service), p.reports)
    case SweepNext => p.Sweeping? && p.stage.Deciding? && p.i < |p.gone|
    case Announce => !p.Idle? && p.stage.Announcing? && sys.publisher.signalling > 0
    case WriteCache => !p.Idle? && p.stage.Caching? && (if p.Comparing? then p.i < |p.reports| else p.i < |p.gone|)
    case FinishPoll => p.Sweeping? && p.stage.Deciding? && p.i == |p.gone|
    // Only the poller publishes; everything else the publisher can do on its own.
    case Publishing(step) => !step.Store? && !step.Signal? && Enabled(sys.publisher, step)
  }

  /** The caches once the resource at hand is written. */
  function CacheWrite(sys: System): Caches
    requires !sys.poller.Idle?
             && if sys.poller.Comparing? then sys.poller.i < |sys.poller.reports| else sys.poller.i < |sys.poller.gone|
  {
    var p, cache := sys.poller, sys.caches.Get(sys.poller.service);
    if p.Comparing?
    then var r := p.reports[p.i]; sys.caches.Set(p.service, cache[r.id := Cached(r.status, r.message)])
    else sys.caches.Set(p.service, cache - {p.gone[p.i]})
  }

  predicate Resyncs(setup: Setup, sys: System)
    requires setup.resyncEvery > 0
  {
    sys.cycle % setup.resyncEvery == 0
  }

  ghost function Publish(setup: Setup, sys: System, id: string, status: string, message: string): State
    requires !sys.poller.Idle?
  {
    Apply(setup.publisher, sys.publisher, Store(setup.types.Of(sys.poller.service), id, status, message))
  }

  ghost function Act(setup: Setup, sys: System, a: Action): System
    requires setup.resyncEvery > 0 && Possible(sys, a)
  {
    var p := sys.poller;
    match a
    case ListClusters(items) => Listed(sys, Clusters, P.ClusterListing(items))
    case ListVMs(vms) => Listed(sys, VMs, P.VMListing(vms))
    case Compare =>
      var r := p.reports[p.i];
      if Changed(sys.caches.Get(p.service), r) || Resyncs(setup, sys)
      then sys.(publisher := Publish(setup, sys, r.id, r.status, r.message), poller := Moved(p, p.i, Announcing))
      else sys.(caches := CacheWrite(sys), poller := Moved(p, p.i + 1, Deciding))
    case StartSweep(order) => sys.(poller := Sweeping(p.service, p.before, p.reports, order, 0, Deciding))
    case SweepNext =>
      sys.(publisher := Publish(setup, sys, p.gone[p.i], DELETED, DISAPPEARED), poller := Moved(p, p.i, Announcing))
    case Announce => sys.(publisher := Apply(setup.publisher, sys.publisher, Signal), poller := Moved(p, p.i, Caching))
    case WriteCache => sys.(caches := CacheWrite(sys), poller := Moved(p, p.i + 1, Deciding))
    case FinishPoll => AfterPoll(sys.(listed := sys.listed.Set(p.service, Mapped(p.reports))), p.service)
    case Publishing(step) => sys.(publisher := Apply(setup.publisher, sys.publisher, step))
  }

  ghost function Start(clock: int): System {
    System(Init(clock), Caches(map[], map[]), 0, Idle(Clusters), Caches(map[], map[]), [])
  }

  ghost predicate IsRunOf(setup: Setup, sys: System, actions: seq<Action>)
    requires setup.resyncEvery > 0
    decreases |actions|
  {
    actions == [] || (Possible(sys, actions[0]) && IsRunOf(setup, Act(setup, sys, actions[0]), actions[1..]))
  }

  ghost function After(setup: Setup, sys: System, actions: seq<Action>): System
    requires setup.resyncEvery > 0 && IsRunOf(setup, sys, actions)
    decreases |actions|
  {
    if actions == [] then sys else After(setup, Act(setup, sys, actions[0]), actions[1..])
  }

  // ----- the invariant

  /** The poller has published a change that its cache does not show yet. */
  predicate Outstanding(sys: System) {
    !sys.poller.Idle? && !sys.poller.stage.Deciding?
  }

  ghost predicate InPlace(sys: System) {
    var p := sys.poller;
    && (p.Comparing? ==> p.i <= |p.reports| && Live(p.reports))
    && (p.Sweeping? ==> p.i <= |p.gone| && Live(p.reports))
    && (Outstanding(sys) ==> if p.Comparing? then p.i < |p.reports| else p.i < |p.gone|)
  }

  /** The caches, with an outstanding change included. */
  ghost function Settled(sys: System): Caches
    requires InPlace(sys)
  {
    if Outstanding(sys) then CacheWrite(sys) else sys.caches
  }

  ghost predicate Replays(setup: Setup, sys: System) {
    InPlace(sys) && View(sys.publisher.published) == Combined(setup.types, Settled(sys))
  }

  lemma ReplaysAfterPublish(setup: Setup, sys: System, id: string, status: string, message: string, written: Caches)
    requires setup.types.Distinct() && !sys.poller.Idle?
    requires View(sys.publisher.published) == Combined(setup.types, sys.caches)
    requires var service, cache := sys.poller.service, sys.caches.Get(sys.poller.service);
             written == sys.caches.Set(
             service, if status == DELETED then cache - {id} else cache[id := Cached(status, message)])
    ensures View(Publish(setup, sys, id, status, message).published) == Combined(setup.types, written)
  {
    var service := sys.poller.service;
    var st := setup.types.Of(service);
    ViewAppend(sys.publisher.published, Event(Key(st.subject, id), Value(st, status, message)));
    if status == DELETED {
      CombinedRemove(setup.types, sys.caches, service, id);
    } else {
      CombinedSet(setup.types, sys.caches, service, id, Cached(status, message));
    }
  }

  lemma ReplaysCompare(setup: Setup, sys: System)
    requires setup.resyncEvery > 0 && setup.types.Distinct()
    requires Replays(setup, sys) && Possible(sys, Compare)
    ensures Replays(setup, Act(setup, sys, Compare))
  {
    var p := sys.poller;
    var r := p.reports[p.i];
    if Changed(sys.caches.Get(p.service), r) || Resyncs(setup, sys) {
      ReplaysAfterPublish(setup, sys, r.id, r.status, r.message, CacheWrite(sys));
    } else {
      assert CacheWrite(sys) == sys.caches;
    }
  }

  lemma ReplaysSweep(setup: Setup, sys: System)
    requires setup.resyncEvery > 0 && setup.types.Distinct()
    requires Replays(setup, sys) && Possible(sys, SweepNext)
    ensures Replays(setup, Act(setup, sys, SweepNext))
  {
    ReplaysAfterPublish(setup, sys, sys.poller.gone[sys.poller.i], DELETED, DISAPPEARED, CacheWrite(sys));
  }

  /** Nothing but the poller's Publish calls adds to what is published. */
  lemma ReplaysPublishing(setup: Setup, sys: System, step: Step)
    requires setup.resyncEvery > 0 && Replays(setup, sys) && Possible(sys, Publishing(step))
    ensures Replays(setup, Act(setup, sys, Publishing(step)))
  {
    assert Apply(setup.publisher, sys.publisher, step).published == sys.publisher.published;
  }

  lemma ReplaysOther(setup: Setup, sys: System, a: Action)
    requires setup.resyncEvery > 0 && Replays(setup, sys) && Possible(sys, a)
    requires !a.Compare? && !a.SweepNext? && !a.Publishing?
    ensures Replays(setup, Act(setup, sys, a))
  {
    var next := Act(setup, sys, a);
    assert next.publisher.published == sys.publisher.published;
    assert InPlace(next) && Settled(next) == Settled(sys);
  }

  lemma ReplaysStep(setup: Setup, sys: System, a: Action)
    requires setup.resyncEvery > 0 && setup.types.Distinct()
    requires Replays(setup, sys) && Possible(sys, a)
    ensures Replays(setup, Act(setup, sys, a))
  {
    if a.Compare? {
      ReplaysCompare(setup, sys);
    } else if a.SweepNext? {
      ReplaysSweep(setup, sys);
    } else if a.Publishing? {
      ReplaysPublishing(setup, sys, a.step);
    } else {
      ReplaysOther(setup, sys, a);
    }
  }

  /** Only the poller's own Publish call can be between its map write and its token. */
  ghost predicate Sound(setup: Setup, sys: System) {
    && Inv(setup.publisher, sys.publisher)
    && Replays(setup, sys)
    && sys.publisher.signalling == if !sys.poller.Idle? && sys.poller.stage.Announcing? then 1 else 0
  }

  /** The publisher's invariant, and the one token a Publish call may still owe. */
  lemma PublisherStep(setup: Setup, sys: System, a: Action)
    requires setup.resyncEvery > 0 && Sound(setup, sys) && Possible(sys, a)
    ensures var next := Act(setup, sys, a);
            && Inv(setup.publisher, next.publisher)
            && next.publisher.signalling == if !next.poller.Idle? && next.poller.stage.Announcing? then 1 else 0
  {
    var p := sys.poller;
    if a.Publishing? {
      InvStep(setup.publisher, sys.publisher, a.step);
      assert Apply(setup.publisher, sys.publisher, a.step).signalling == sys.publisher.signalling;
    } else if a.Announce? {
      InvStep(setup.publisher, sys.publisher, Signal);
    } else if a.SweepNext? {
      InvStep(setup.publisher, sys.publisher, Store(setup.types.Of(p.service), p.gone[p.i], DELETED, DISAPPEARED));
    } else if a.Compare? {
      var r := p.reports[p.i];
      InvStep(setup.publisher, sys.publisher, Store(setup.types.Of(p.service), r.id, r.status, r.message));
    } else {
      assert Act(setup, sys, a).publisher == sys.publisher;
    }
  }

  lemma SoundStep(setup: Setup, sys: System, a: Action)
    requires setup.resyncEvery > 0 && setup.types.Distinct()
    requires Sound(setup, sys) && Possible(sys, a)
    ensures Sound(setup, Act(setup, sys, a))
  {
    ReplaysStep(setup, sys, a);
    PublisherStep(setup, sys, a);
  }

  lemma SoundStart(setup: Setup, clock: int)
    ensures Sound(setup, Start(clock))
  {
    InvInit(setup.publisher, clock);
    assert Combined(setup.types, Caches(map[], map[])) == map[];
  }

  lemma {:induction false} SoundRun(setup: Setup, sys: System, actions: seq<Action>)
    requires setup.resyncEvery > 0 && setup.types.Distinct()
    requires Sound(setup, sys) && IsRunOf(setup, sys, actions)
    ensures Sound(setup, After(setup, sys, actions))
    decreases |actions|
  {
    if actions != [] {
      SoundStep(setup, sys, actions[0]);
      SoundRun(setup, Act(setup, sys, actions[0]), actions[1..]);
    }
  }

  // ----- convergence

  /** At every moment of every run, for every resource with no update pending, a consumer that folds what the
      broker accepted has exactly what the poller last concluded about it, or its absence. */
  lemma UpToDateUnlessPending(setup: Setup, clock: int, actions: seq<Action>, k: Key)
    requires setup.resyncEvery > 0 && setup.types.Distinct()
    requires IsRunOf(setup, Start(clock), actions)
    requires k !in After(setup, Start(clock), actions).publisher.pending
    ensures var sys := After(setup, Start(clock), actions);
            && InPlace(sys)
            && (k in View(sys.publisher.delivered) <==> k in Combined(setup.types, Settled(sys)))
            && (k in View(sys.publisher.delivered) ==>
                  View(sys.publisher.delivered)[k] == Combined(setup.types, Settled(sys))[k])
  {
    SoundStart(setup, clock);
    SoundRun(setup, Start(clock), actions);
    var s := After(setup, Start(clock), actions).publisher;
    ViewIsLastValue(s.published, k);
    ViewIsLastValue(s.delivered, k);
    if Of(s.published, k) == [] {
      assert InOrder(Of(s.published, k), Of(s.delivered, k), ReadUpTo(s, k));
      InOrderMeansSubsequence(Of(s.published, k), Of(s.delivered, k), ReadUpTo(s, k));
      DestutterNonempty(Of(s.delivered, k));
    }
  }

  /** Convergence: whenever nothing is pending and the poller is not between a Publish and its cache write,
      what a consumer has folded is exactly the poller's two caches, despite coalescing, duplicate deliveries,
      lost acknowledgements and equal ids of the two service types. */
  lemma Convergence(setup: Setup, clock: int, actions: seq<Action>)
    requires setup.resyncEvery > 0 && setup.types.Distinct()
    requires IsRunOf(setup, Start(clock), actions)
    requires var sys := After(setup, Start(clock), actions); sys.publisher.pending == map[] && !Outstanding(sys)
    ensures var sys := After(setup, Start(clock), actions);
            View(sys.publisher.delivered) == Combined(setup.types, sys.caches)
  {
    SoundStart(setup, clock);
    SoundRun(setup, Start(clock), actions);
    InvDrained(setup.publisher, After(setup, Start(clock), actions).publisher);
  }

  // ----- what the poller concludes is what was listed

  /** Outside a poll a cache is the latest listing; during one it has come this far from there towards the
      new listing. */
  ghost predicate Progress(sys: System) {
    var p := sys.poller;
    && (forall s :: p.Idle? || p.service != s ==> sys.caches.Get(s) == sys.listed.Get(s))
    && (p.Comparing? ==>
          && p.i <= |p.reports| && p.before == sys.listed.Get(p.service)
          && sys.caches.Get(p.service) == p.before + Mapped(p.reports[..p.i]))
    && (p.Sweeping? ==>
          && p.i <= |p.gone| && p.before == sys.listed.Get(p.service)
          && P.Vanished(p.gone, p.before, p.reports)
          && sys.caches.Get(p.service) == (p.before + Mapped(p.reports)) - set id | id in p.gone[..p.i])
  }

  /** Moving on by one report, with that report written or already there. */
  lemma ProgressItem(setup: Setup, sys: System, a: Action)
    requires setup.resyncEvery > 0 && Progress(sys) && Possible(sys, a)
    requires sys.poller.Comparing? && (a.Compare? || a.WriteCache?)
    ensures Progress(Act(setup, sys, a))
  {
    var p, next := sys.poller, Act(setup, sys, a);
    if next.poller != Moved(p, p.i, Announcing) {
      assert next == sys.(caches := CacheWrite(sys), poller := Moved(p, p.i + 1, Deciding));
      ItemWritten(setup, sys);
    }
  }

  lemma ItemWritten(setup: Setup, sys: System)
    requires Progress(sys) && sys.poller.Comparing? && sys.poller.i < |sys.poller.reports|
    ensures Progress(sys.(caches := CacheWrite(sys), poller := Moved(sys.poller, sys.poller.i + 1, Deciding)))
  {
    var p := sys.poller;
    NextItem(setup.types.Of(p.service), p.before, p.reports, p.i, false);
    assert CacheWrite(sys).Get(p.service) == p.before + Mapped(p.reports[..p.i + 1]);
    assert forall s :: s != p.service ==> CacheWrite(sys).Get(s) == sys.caches.Get(s);
  }

  lemma ProgressGone(setup: Setup, sys: System)
    requires setup.resyncEvery > 0 && Progress(sys) && Possible(sys, WriteCache) && sys.poller.Sweeping?
    ensures Progress(Act(setup, sys, WriteCache))
  {
    var p := sys.poller;
    assert p.gone[..p.i + 1] == p.gone[..p.i] + [p.gone[p.i]];
    NextGone(setup.types.Of(p.service), p.before + Mapped(p.reports), p.gone[..p.i], p.gone[p.i]);
  }

  /** A finished sweep has left exactly the listing in the cache. */
  lemma ProgressFinish(setup: Setup, sys: System)
    requires setup.resyncEvery > 0 && Progress(sys) && Possible(sys, FinishPoll)
    ensures sys.caches.Get(sys.poller.service) == Mapped(sys.poller.reports)
    ensures Progress(Act(setup, sys, FinishPoll))
  {
    var p := sys.poller;
    assert p.gone[..p.i] == p.gone;
    MappedKeys(p.reports);
    P.OnlyListedRemain(p.before, p.reports, p.gone);
  }

  lemma ProgressStart(setup: Setup, sys: System, a: Action)
    requires setup.resyncEvery > 0 && Progress(sys) && Possible(sys, a)
    requires a.StartSweep? || a.ListClusters? || a.ListVMs?
    ensures Progress(Act(setup, sys, a))
  {
    var p := sys.poller;
    if a.StartSweep? {
      assert p.reports[..|p.reports|] == p.reports;
      MappedKeys(p.reports);
    } else {
      assert sys.caches.Get(p.service) + map[] == sys.caches.Get(p.service);
    }
  }

  lemma ProgressStep(setup: Setup, sys: System, a: Action)
    requires setup.resyncEvery > 0 && Progress(sys) && Possible(sys, a)
    ensures Progress(Act(setup, sys, a))
  {
    if a.Compare? || (a.WriteCache? && sys.poller.Comparing?) {
      ProgressItem(setup, sys, a);
    } else if a.WriteCache? {
      ProgressGone(setup, sys);
    } else if a.FinishPoll? {
      ProgressFinish(setup, sys);
    } else if a.StartSweep? || a.ListClusters? || a.ListVMs? {
      ProgressStart(setup, sys, a);
    } else {
      assert Act(setup, sys, a).caches == sys.caches && Act(setup, sys, a).listed == sys.listed;
    }
  }

  lemma {:induction false} ProgressRun(setup: Setup, sys: System, actions: seq<Action>)
    requires setup.resyncEvery > 0 && Progress(sys) && IsRunOf(setup, sys, actions)
    ensures Progress(After(setup, sys, actions))
    decreases |actions|
  {
    if actions != [] {
      ProgressStep(setup, sys, actions[0]);
      ProgressRun(setup, Act(setup, sys, actions[0]), actions[1..]);
    }
  }

  /** The whole promise: between polls and with nothing pending, what a consumer has folded is exactly the
      latest listing of each service type, in every run, whatever polls failed in between. */
  lemma ConsumersSeeTheListings(setup: Setup, clock: int, actions: seq<Action>)
    requires setup.resyncEvery > 0 && setup.types.Distinct()
    requires IsRunOf(setup, Start(clock), actions)
    requires var sys := After(setup, Start(clock), actions); sys.publisher.pending == map[] && sys.poller.Idle?
    ensures var sys := After(setup, Start(clock), actions);
            View(sys.publisher.delivered) == Combined(setup.types, sys.listed)
  {
    Convergence(setup, clock, actions);
    ProgressRun(setup, Start(clock), actions);
    var sys := After(setup, Start(clock), actions);
    assert sys.caches.Get(Clusters) == sys.listed.Get(Clusters) && sys.caches.Get(VMs) == sys.listed.Get(VMs);
  }
}
