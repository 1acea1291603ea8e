/** From the backends to the consumers: what the pipeline has delivered when it is at rest, and that it can always
    come to rest. */
module EndToEnd {
  import opened Basics
  import opened History
  import opened Numbers
  import opened PageDrain
  import opened StatusMapping
  import opened PollerModel
  import opened PublisherModel
  import opened PublisherSafety
  import opened PublisherDrain
  import opened Pipeline
  import P = PollerObject
  import T = PublisherTheorems

  // ----- the listings a run received

  /** The latest successful listing of each type. */
  datatype Latest = Latest(clusters: seq<ClusterItem>, vms: seq<VMItem>) {
    function Reports(service: Service): seq<Report> {
      if service.Clusters? then P.ClusterReports(clusters) else P.VMReports(vms)
    }
  }

  function Noted(latest: Latest, a: Action): Latest {
    match a
    case ListClusters(Some(items)) => latest.(clusters := items)
    case ListVMs(Some(vms)) => latest.(vms := vms)
    case _ => latest
  }

  function NotedAll(latest: Latest, actions: seq<Action>): Latest
    decreases |actions|
  {
    if actions == [] then latest else NotedAll(Noted(latest, actions[0]), actions[1..])
  }

  /** A poll under way works on the latest listing of its type; otherwise that is what `listed` holds. */
  ghost predicate Tracks(sys: System, latest: Latest) {
    forall s ::
      if sys.poller.Idle? || sys.poller.service != s then sys.listed.Get(s) == PollerModel.Mapped(latest.Reports(s))
                else sys.poller.reports == latest.Reports(s)
  }

  lemma TracksStep(setup: Setup, sys: System, latest: Latest, a: Action)
    requires setup.resyncEvery > 0 && Tracks(sys, latest) && Possible(sys, a)
    ensures Tracks(Act(setup, sys, a), Noted(latest, a))
  {
    assert Tracks(sys, latest);
  }

  lemma {:induction false} TracksRun(setup: Setup, sys: System, latest: Latest, actions: seq<Action>)
    requires setup.resyncEvery > 0 && Tracks(sys, latest) && IsRunOf(setup, sys, actions)
    ensures Tracks(After(setup, sys, actions), NotedAll(latest, actions))
    decreases |actions|
  {
    if actions != [] {
      TracksStep(setup, sys, latest, actions[0]);
      TracksRun(setup, Act(setup, sys, actions[0]), Noted(latest, actions[0]), actions[1..]);
    }
  }

  /** Between polls, what a run holds as listed is the latest successful listing of each type that it received. */
  lemma ListedIsLatest(setup: Setup, clock: int, actions: seq<Action>)
    requires setup.resyncEvery > 0 && IsRunOf(setup, Start(clock), actions)
    requires After(setup, Start(clock), actions).poller.Idle?
    ensures var latest := NotedAll(Latest([], []), actions);
            After(setup, Start(clock), actions).listed ==
            Caches(PollerModel.Mapped(P.ClusterReports(latest.clusters)), PollerModel.Mapped(P.VMReports(latest.vms)))
  {
    assert Tracks(Start(clock), Latest([], []));
    TracksRun(setup, Start(clock), Latest([], []), actions);
    var sys, latest := After(setup, Start(clock), actions), NotedAll(Latest([], []), actions);
    assert sys.listed.Get(Clusters) == PollerModel.Mapped(latest.Reports(Clusters));
    assert sys.listed.Get(VMs) == PollerModel.Mapped(latest.Reports(VMs));
  }

  /** End to end: if the latest successful listings were drained page by page from backends that stably held `xs`
      and `ys`, then between polls and with nothing pending a consumer's table is exactly what these backends
      hold, mapped: nothing missing, nothing left over. */
  lemma ConsumersSeeTheBackends(
      setup: Setup, clock: int, actions: seq<Action>,
      clusterServer: Server<ClusterItem>, xs: seq<ClusterItem>, n: nat,
      vmServer: Server<VMItem>, ys: seq<VMItem>, m: nat)
    requires setup.resyncEvery > 0 && setup.types.Distinct() && IsRunOf(setup, Start(clock), actions)
    requires var sys := After(setup, Start(clock), actions); sys.publisher.pending == map[] && sys.poller.Idle?
    requires Serves(clusterServer, xs) && |xs| <= MAX_INT32 && Serves(vmServer, ys) && |ys| <= MAX_INT32
    requires IsListing(clusterServer, Some(NotedAll(Latest([], []), actions).clusters), n)
    requires IsListing(vmServer, Some(NotedAll(Latest([], []), actions).vms), m)
    ensures Reads(setup, View(After(setup, Start(clock), actions).publisher.delivered), xs, ys)
  {
    var latest := NotedAll(Latest([], []), actions);
    HonestListingIsComplete(clusterServer, xs, latest.clusters, n);
    HonestListingIsComplete(vmServer, ys, latest.vms, m);
    ConsumersSeeTheListings(setup, clock, actions);
    ListedIsLatest(setup, clock, actions);
  }

  /** What a consumer reads of the backends. */
  ghost predicate Reads(setup: Setup, view: map<Key, Cached>, xs: seq<ClusterItem>, ys: seq<VMItem>) {
    view == Combined(setup.types, Caches(PollerModel.Mapped(P.ClusterReports(xs)), PollerModel.Mapped(P.VMReports(ys))))
  }

  /** A consumer has a row for a cluster exactly if the backend has it, and the row says how it is: the last entry of
      the backend under that id decides. */
  lemma ClusterRow(setup: Setup, view: map<Key, Cached>, xs: seq<ClusterItem>, ys: seq<VMItem>, i: nat)
    requires setup.types.Distinct() && Reads(setup, view, xs, ys)
    requires i < |xs| && forall j :: i < j < |xs| ==> xs[j].id != xs[i].id
    ensures var k, state := Key(setup.types.clusters.subject, xs[i].id), xs[i].status.state;
            var degraded := Degraded(xs[i].status);
            && k in view && view[k].message == ClusterReport(xs[i]).message
            && (view[k].status == "ACTIVE" <==> state == Ready && !degraded)
            && (view[k].status == "DEGRADED" <==>
                  degraded && (state == Ready || state == Progressing || state == FutureState))
            && (view[k].status == "PROGRESSING" <==> state == UnspecifiedState || (state == Progressing && !degraded))
            && (view[k].status == "DELETING" <==> state == Deleting)
            && (view[k].status == "FAILED" <==>
                  state == Failed || state == DeleteFailed || (state == FutureState && !degraded))
  {
    var rs := P.ClusterReports(xs);
    var caches := Caches(PollerModel.Mapped(rs), PollerModel.Mapped(P.VMReports(ys)));
    assert rs[i].id == xs[i].id && forall j :: i < j < |rs| ==> rs[j].id == xs[j].id;
    MappedIsLast(rs, i);
    CombinedAt(setup.types, caches, Clusters, xs[i].id);
    ClusterReportSays(xs[i]);
  }

  lemma VMRow(setup: Setup, view: map<Key, Cached>, xs: seq<ClusterItem>, ys: seq<VMItem>, i: nat)
    requires setup.types.Distinct() && Reads(setup, view, xs, ys)
    requires i < |ys| && forall j :: i < j < |ys| ==> ys[j].id != ys[i].id
    ensures var k, state := Key(setup.types.vms.subject, ys[i].id), ys[i].state;
            && k in view && view[k].message == VMReport(ys[i]).message
            && (view[k].status == "PROVISIONING" <==> state == VMUnspecified || state == Starting)
            && (view[k].status == "RUNNING" <==> state == Running)
            && (view[k].status == "FAILED" <==> state == VMFailed || state == VMFutureState)
            && (view[k].status == "DELETING" <==> state == VMDeleting)
            && (view[k].status == "STOPPING" <==> state == StatusMapping.Stopping)
            && (view[k].status == "STOPPED" <==> state == StatusMapping.Stopped)
            && (view[k].status == "PAUSED" <==> state == Paused)
  {
    var rs := P.VMReports(ys);
    var caches := Caches(PollerModel.Mapped(P.ClusterReports(xs)), PollerModel.Mapped(rs));
    assert rs[i].id == ys[i].id && forall j :: i < j < |rs| ==> rs[j].id == ys[j].id;
    MappedIsLast(rs, i);
    CombinedAt(setup.types, caches, VMs, ys[i].id);
    VMReportSays(ys[i]);
  }

  /** No row for what the backends do not have. */
  lemma NoOtherRow(setup: Setup, view: map<Key, Cached>, xs: seq<ClusterItem>, ys: seq<VMItem>, id: string)
    requires setup.types.Distinct() && Reads(setup, view, xs, ys)
    ensures (forall i :: 0 <= i < |xs| ==> xs[i].id != id) ==> Key(setup.types.clusters.subject, id) !in view
    ensures (forall i :: 0 <= i < |ys| ==> ys[i].id != id) ==> Key(setup.types.vms.subject, id) !in view
  {
    var rs, vs := P.ClusterReports(xs), P.VMReports(ys);
    var caches := Caches(PollerModel.Mapped(rs), PollerModel.Mapped(vs));
    MappedKeys(rs);
    MappedKeys(vs);
    CombinedAt(setup.types, caches, Clusters, id);
    CombinedAt(setup.types, caches, VMs, id);
  }

  // ----- coming to rest

  ghost predicate Healthy(setup: Setup, sys: System) {
    Sound(setup, sys) && Progress(sys) && !sys.publisher.cancelled && !sys.publisher.worker.Stopped?
  }

  /** How far a poll is from its end, coarsest first. */
  function PhasesLeft(p: Poller): nat {
    match p case Idle(_) => 0 case Sweeping(_, _, _, _, _, _) => 1 case Comparing(_, _, _, _, _) => 2
  }

  function ResourcesLeft(p: Poller): int {
    match p
    case Idle(_) => 0 case Sweeping(_, _, _, gone, i, _) => |gone| - i
    case Comparing(_, _, reports, i, _) => |reports| - i
  }

  function StagesLeft(p: Poller): nat {
    if p.Idle? || p.stage.Caching? then 0 else if p.stage.Announcing? then 1 else 2
  }

  /** The second poll position is closer to the end than the first. */
  predicate Closer(p: Poller, q: Poller) {
    || PhasesLeft(q) < PhasesLeft(p)
    || (PhasesLeft(q) == PhasesLeft(p) && ResourcesLeft(q) < ResourcesLeft(p))
    || (PhasesLeft(q) == PhasesLeft(p) && ResourcesLeft(q) == ResourcesLeft(p) && StagesLeft(q) < StagesLeft(p))
  }

  predicate IsPollStep(a: Action) {
    !a.Publishing? && !a.ListClusters? && !a.ListVMs?
  }

  lemma DecidingCanProceed(setup: Setup, sys: System) returns (a: Action)
    requires setup.resyncEvery > 0 && InPlace(sys) && !sys.poller.Idle? && sys.poller.stage.Deciding?
    ensures IsPollStep(a) && Possible(sys, a) && Closer(sys.poller, Act(setup, sys, a).poller)
  {
    var p := sys.poller;
    if p.Sweeping? {
      a := if p.i < |p.gone| then SweepNext else FinishPoll;
    } else if p.i < |p.reports| {
      a := Compare;
    } else {
      var order := VanishedInSomeOrder(sys.caches.Get(p.service), p.reports);
      a := StartSweep(order);
    }
  }

  /** A poll under way can always take its next step, and that brings it closer to its end. */
  lemma PollCanProceed(setup: Setup, sys: System) returns (a: Action)
    requires setup.resyncEvery > 0 && InPlace(sys) && !sys.poller.Idle?
    requires sys.poller.stage.Announcing? ==> sys.publisher.signalling > 0
    ensures IsPollStep(a) && Possible(sys, a) && Closer(sys.poller, Act(setup, sys, a).poller)
  {
    match sys.poller.stage
    case Announcing => a := Announce;
    case Caching => a := WriteCache;
    case Deciding => a := DecidingCanProceed(setup, sys);
  }

  lemma VanishedInSomeOrder(cache: map<string, Cached>, reports: seq<Report>) returns (order: seq<string>)
    ensures P.Vanished(order, cache, reports)
  {
    order := InSomeOrder(set id | id in cache && id !in Ids(reports));
  }

  lemma {:induction false} InSomeOrder(ids: set<string>) returns (order: seq<string>)
    ensures PollerModel.Distinct(order) && forall id :: id in order <==> id in ids
  {
    if ids == {} {
      order := [];
    } else {
      var id :| id in ids;
      order := InSomeOrder(ids - {id});
      order := [id] + order;
    }
  }

  lemma StaysHealthy(setup: Setup, sys: System, a: Action)
    requires setup.resyncEvery > 0 && setup.types.Distinct() && Healthy(setup, sys)
    requires Possible(sys, a) && !a.Publishing?
    ensures Healthy(setup, Act(setup, sys, a))
  {
    SoundStep(setup, sys, a);
    ProgressStep(setup, sys, a);
  }

  /** The poll under way can be finished, by itself. */
  lemma {:induction false} FinishThePoll(setup: Setup, sys: System) returns (actions: seq<Action>)
    requires setup.resyncEvery > 0 && setup.types.Distinct() && Healthy(setup, sys)
    ensures IsRunOf(setup, sys, actions) && forall a :: a in actions ==> IsPollStep(a)
    ensures Healthy(setup, After(setup, sys, actions)) && After(setup, sys, actions).poller.Idle?
    decreases PhasesLeft(sys.poller), ResourcesLeft(sys.poller), StagesLeft(sys.poller)
  {
    if sys.poller.Idle? {
      actions := [];
    } else {
      var a := PollCanProceed(setup, sys);
      StaysHealthy(setup, sys, a);
      var rest := FinishThePoll(setup, Act(setup, sys, a));
      actions := [a] + rest;
      assert actions[1..] == rest;
    }
  }

  function Lifted(steps: seq<Step>): (actions: seq<Action>)
    ensures forall a :: a in actions ==> a.Publishing?
  {
    if steps == [] then [] else [Publishing(steps[0])] + Lifted(steps[1..])
  }

  /** With no Publish call under way, the publisher's own runs are runs of the pipeline. */
  lemma {:induction false} LiftedRun(setup: Setup, sys: System, steps: seq<Step>)
    requires setup.resyncEvery > 0 && sys.publisher.signalling == 0
    requires IsRun(setup.publisher, sys.publisher, steps) && PublishesNothing(steps)
    ensures IsRunOf(setup, sys, Lifted(steps))
    ensures After(setup, sys, Lifted(steps)) == sys.(publisher := Exec(setup.publisher, sys.publisher, steps))
    decreases |steps|
  {
    if steps != [] {
      var next := Act(setup, sys, Publishing(steps[0]));
      assert next == sys.(publisher := Apply(setup.publisher, sys.publisher, steps[0]));
      LiftedRun(setup, next, steps[1..]);
      assert Lifted(steps)[1..] == Lifted(steps[1..]);
    }
  }

  /** From a healthy state between polls, linearly many publisher steps without a failed send lead to consumers that
      see the listings. */
  lemma DrainThePipeline(setup: Setup, sys: System) returns (steps: seq<Step>)
    requires setup.resyncEvery > 0 && setup.types.Distinct() && Healthy(setup, sys) && sys.poller.Idle?
    ensures IsRunOf(setup, sys, Lifted(steps)) && FailedSendsIn(steps) == 0
    ensures WorkIn(steps) <= 11 * |sys.publisher.pending| + 20
    ensures var end := After(setup, sys, Lifted(steps));
            && end.poller.Idle? && end.listed == sys.listed && end.publisher.pending == map[]
            && View(end.publisher.delivered) == Combined(setup.types, sys.listed)
  {
    var c := setup.publisher;
    steps := Drain(c, sys.publisher);
    WorkIsBoundedBy(c, sys.publisher, steps);
    LiftedRun(setup, sys, steps);
    var end := After(setup, sys, Lifted(steps));
    SoundRun(setup, sys, Lifted(steps));
    InvDrainedHere(setup, end);
    assert sys.caches.Get(Clusters) == sys.listed.Get(Clusters) && sys.caches.Get(VMs) == sys.listed.Get(VMs);
  }

  lemma InvDrainedHere(setup: Setup, sys: System)
    requires Sound(setup, sys) && sys.poller.Idle? && sys.publisher.pending == map[]
    ensures View(sys.publisher.delivered) == Combined(setup.types, sys.caches)
  {
    T.InvDrained(setup.publisher, sys.publisher);
  }

  /** Consumers can always catch up: from every reachable state that is not cancelled, the poll under way can be
      finished, and then linearly many publisher steps without a failed send lead to a state where a consumer's
      table is the latest listings. */
  lemma ConsumersCanCatchUp(setup: Setup, clock: int, actions: seq<Action>)
    returns (finish: seq<Action>, drain: seq<Step>)
    requires setup.resyncEvery > 0 && setup.types.Distinct() && IsRunOf(setup, Start(clock), actions)
    requires !After(setup, Start(clock), actions).publisher.cancelled
    ensures var sys := After(setup, Start(clock), actions);
            && IsRunOf(setup, sys, finish)
            && (forall a :: a in finish ==> IsPollStep(a))
            && var idle := After(setup, sys, finish);
               && idle.poller.Idle? && IsRunOf(setup, idle, Lifted(drain)) && FailedSendsIn(drain) == 0
               && WorkIn(drain) <= 11 * |idle.publisher.pending| + 20
               && View(After(setup, idle, Lifted(drain)).publisher.delivered) == Combined(setup.types, idle.listed)
  {
    var sys := After(setup, Start(clock), actions);
    SoundStart(setup, clock);
    SoundRun(setup, Start(clock), actions);
    ProgressRun(setup, Start(clock), actions);
    NotStopped(setup, Start(clock), actions);
    finish := FinishThePoll(setup, sys);
    drain := DrainThePipeline(setup, After(setup, sys, finish));
  }

  lemma {:induction false} NotStopped(setup: Setup, sys: System, actions: seq<Action>)
    requires setup.resyncEvery > 0 && IsRunOf(setup, sys, actions) && StopsByCancel(sys.publisher)
    ensures StopsByCancel(After(setup, sys, actions).publisher)
    decreases |actions|
  {
    if actions != [] {
      NotStopped(setup, Act(setup, sys, actions[0]), actions[1..]);
    }
  }
}
