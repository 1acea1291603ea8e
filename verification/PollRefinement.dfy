/** The poller of `Pipeline`, interleaved with everything else, publishes exactly what the sequential poller
    does: poll by poll the events of the comparison, each deletion once, and off resync cycles nothing that a
    consumer would already know. */
module PollRefinement {
  import opened Basics
  import opened History
  import opened StatusMapping
  import opened PollerModel
  import opened PublisherModel
  import opened Pipeline
  import P = PollerObject

  /** How many resources of the current loop the poller has decided about. */
  function Decided(p: Poller): nat {
    if p.Idle? then 0 else p.i + if p.stage.Deciding? then 0 else 1
  }

  ghost function ItemsSaid(setup: Setup, sys: System, n: nat): seq<Event>
    requires setup.resyncEvery > 0 && !sys.poller.Idle? && n <= |sys.poller.reports|
  {
    var p := sys.poller;
    sys.base + ItemEvents(setup.types.Of(p.service), p.before, p.reports[..n], Resyncs(setup, sys))
  }

  /** What has been published since the poll began is what the sequential poll has said so far. */
  ghost predicate Says(setup: Setup, sys: System)
    requires setup.resyncEvery > 0
  {
    var p := sys.poller;
    && (p.Comparing? ==> Decided(p) <= |p.reports| && sys.publisher.published == ItemsSaid(setup, sys, Decided(p)))
    && (p.Sweeping? ==>
          && Decided(p) <= |p.gone|
          && sys.publisher.published ==
             ItemsSaid(setup, sys, |p.reports|) + GoneEvents(setup.types.Of(p.service), p.gone[..Decided(p)]))
  }

  lemma NextItemSaid(setup: Setup, sys: System, i: nat)
    requires setup.resyncEvery > 0 && sys.poller.Comparing? && i < |sys.poller.reports|
    ensures var p := sys.poller;
            var r := p.reports[i];
            ItemsSaid(setup, sys, i + 1) == ItemsSaid(setup, sys, i)
              + if Resyncs(setup, sys) || Changed(p.before + Mapped(p.reports[..i]), r)
                then [EventFor(setup.types.Of(p.service), r.id, r.status, r.message)] else []
  {
    var p := sys.poller;
    var st, r, resync := setup.types.Of(p.service), p.reports[i], Resyncs(setup, sys);
    NextItem(st, p.before, p.reports, i, resync);
    P.Associative(sys.base, ItemEvents(st, p.before, p.reports[..i], resync),
                  if resync || Changed(p.before + Mapped(p.reports[..i]), r)
                  then [EventFor(st, r.id, r.status, r.message)] else []);
  }

  lemma SaysCompare(setup: Setup, sys: System)
    requires setup.resyncEvery > 0 && Progress(sys) && Says(setup, sys) && Possible(sys, Compare)
    ensures Says(setup, Act(setup, sys, Compare))
  {
    var i, next := sys.poller.i, Act(setup, sys, Compare);
    NextItemSaid(setup, sys, i);
    CompareSays(setup, sys);
    assert Decided(next.poller) == i + 1;
    assert ItemsSaid(setup, next, i + 1) == ItemsSaid(setup, sys, i + 1);
  }

  /** What one comparison publishes. */
  lemma CompareSays(setup: Setup, sys: System)
    requires setup.resyncEvery > 0 && Possible(sys, Compare)
    ensures var p := sys.poller;
            var r := p.reports[p.i];
            Act(setup, sys, Compare).publisher.published == sys.publisher.published
              + if Resyncs(setup, sys) || Changed(sys.caches.Get(p.service), r)
                then [EventFor(setup.types.Of(p.service), r.id, r.status, r.message)] else []
  {
  }

  lemma SaysSweep(setup: Setup, sys: System)
    requires setup.resyncEvery > 0 && Says(setup, sys) && Possible(sys, SweepNext)
    ensures Says(setup, Act(setup, sys, SweepNext))
  {
    var p := sys.poller;
    var st, id := setup.types.Of(p.service), p.gone[p.i];
    assert p.gone[..p.i + 1] == p.gone[..p.i] + [id];
    NextGone(st, map[], p.gone[..p.i], id);
    P.Associative(ItemsSaid(setup, sys, |p.reports|), GoneEvents(st, p.gone[..p.i]),
                  [EventFor(st, id, DELETED, DISAPPEARED)]);
  }

  /** Only the two publishing actions publish. */
  lemma OthersSayNothing(setup: Setup, sys: System, a: Action)
    requires setup.resyncEvery > 0 && Possible(sys, a) && !a.Compare? && !a.SweepNext?
    ensures Act(setup, sys, a).publisher.published == sys.publisher.published
  {
    if a.Publishing? {
      assert Apply(setup.publisher, sys.publisher, a.step).published == sys.publisher.published;
    } else if a.Announce? {
      assert Apply(setup.publisher, sys.publisher, Signal).published == sys.publisher.published;
    } else {
      assert Act(setup, sys, a).publisher == sys.publisher;
    }
  }

  lemma SaysOther(setup: Setup, sys: System, a: Action)
    requires setup.resyncEvery > 0 && Says(setup, sys) && Possible(sys, a) && !a.Compare? && !a.SweepNext?
    ensures Says(setup, Act(setup, sys, a))
  {
    var p, next := sys.poller, Act(setup, sys, a);
    OthersSayNothing(setup, sys, a);
    if a.StartSweep? {
      assert p.reports[..|p.reports|] == p.reports;
    } else if a.ListClusters? || a.ListVMs? {
      assert next.poller.Comparing? ==> next.poller.reports[..0] == [];
    }
  }

  /** A resource about to be reported gone is still in the cache. */
  lemma GoneIsCached(sys: System)
    requires Progress(sys) && Possible(sys, SweepNext)
    ensures sys.poller.gone[sys.poller.i] in sys.caches.Get(sys.poller.service)
  {
    var p := sys.poller;
    var id := p.gone[p.i];
    assert id in p.gone && id in p.before;
    assert id !in p.gone[..p.i];
  }

  /** Off a resync cycle, whatever the poller publishes changes the table that folding its events gives. */
  lemma PublishesOnlyChanges(setup: Setup, sys: System, a: Action)
    requires setup.resyncEvery > 0 && setup.types.Distinct() && Replays(setup, sys) && Progress(sys) && Possible(sys, a)
    requires !Resyncs(setup, sys) && Act(setup, sys, a).publisher.published != sys.publisher.published
    ensures View(Act(setup, sys, a).publisher.published) != View(sys.publisher.published)
  {
    var p := sys.poller;
    ReplaysStep(setup, sys, a);
    if a.SweepNext? {
      GoneIsCached(sys);
      CombinedAt(setup.types, sys.caches, p.service, p.gone[p.i]);
      CombinedAt(setup.types, CacheWrite(sys), p.service, p.gone[p.i]);
    } else {
      SaysNothingElse(setup, sys, a);
      CombinedAt(setup.types, sys.caches, p.service, p.reports[p.i].id);
      CombinedAt(setup.types, CacheWrite(sys), p.service, p.reports[p.i].id);
    }
  }

  lemma SaysNothingElse(setup: Setup, sys: System, a: Action)
    requires setup.resyncEvery > 0 && Possible(sys, a)
    requires !a.SweepNext? && Act(setup, sys, a).publisher.published != sys.publisher.published
    ensures a.Compare?
    ensures Resyncs(setup, sys) || Changed(sys.caches.Get(sys.poller.service), sys.poller.reports[sys.poller.i])
  {
    if !a.Compare? {
      OthersSayNothing(setup, sys, a);
    }
  }

  lemma DeletesOnlyLiveStep(setup: Setup, sys: System, a: Action)
    requires setup.resyncEvery > 0 && setup.types.Distinct() && Replays(setup, sys) && Progress(sys) && Possible(sys, a)
    requires DeletesOnlyLive(sys.publisher.published)
    ensures DeletesOnlyLive(Act(setup, sys, a).publisher.published)
  {
    var p, log, next := sys.poller, sys.publisher.published, Act(setup, sys, a).publisher.published;
    if a.SweepNext? {
      GoneIsCached(sys);
      CombinedAt(setup.types, sys.caches, p.service, p.gone[p.i]);
      DeletesOnlyLiveAppend(log, EventFor(setup.types.Of(p.service), p.gone[p.i], DELETED, DISAPPEARED));
    } else if next != log {
      SaysNothingElse(setup, sys, a);
      var r := p.reports[p.i];
      DeletesOnlyLiveAppend(log, EventFor(setup.types.Of(p.service), r.id, r.status, r.message));
    }
  }

  // ----- over every run

  ghost predicate Refines(setup: Setup, sys: System)
    requires setup.resyncEvery > 0
  {
    Replays(setup, sys) && Progress(sys) && Says(setup, sys) && DeletesOnlyLive(sys.publisher.published)
  }

  lemma RefinesStep(setup: Setup, sys: System, a: Action)
    requires setup.resyncEvery > 0 && setup.types.Distinct() && Refines(setup, sys) && Possible(sys, a)
    ensures Refines(setup, Act(setup, sys, a))
  {
    ReplaysStep(setup, sys, a);
    ProgressStep(setup, sys, a);
    DeletesOnlyLiveStep(setup, sys, a);
    if a.Compare? {
      SaysCompare(setup, sys);
    } else if a.SweepNext? {
      SaysSweep(setup, sys);
    } else {
      SaysOther(setup, sys, a);
    }
  }

  lemma {:induction false} RefinesFrom(setup: Setup, sys: System, actions: seq<Action>)
    requires setup.resyncEvery > 0 && setup.types.Distinct() && Refines(setup, sys) && IsRunOf(setup, sys, actions)
    ensures Refines(setup, After(setup, sys, actions))
    decreases |actions|
  {
    if actions != [] {
      RefinesStep(setup, sys, actions[0]);
      RefinesFrom(setup, Act(setup, sys, actions[0]), actions[1..]);
    }
  }

  lemma RefinesRun(setup: Setup, clock: int, actions: seq<Action>)
    requires setup.resyncEvery > 0 && setup.types.Distinct() && IsRunOf(setup, Start(clock), actions)
    ensures Refines(setup, After(setup, Start(clock), actions))
  {
    SoundStart(setup, clock);
    RefinesFrom(setup, Start(clock), actions);
  }

  /** In every run, by the end of a poll the poller has published the sequential poller's events for this
      listing, compared with the listing before it. */
  lemma PollPublishesItsEvents(setup: Setup, clock: int, actions: seq<Action>)
    requires setup.resyncEvery > 0 && setup.types.Distinct() && IsRunOf(setup, Start(clock), actions)
    requires Possible(After(setup, Start(clock), actions), FinishPoll)
    ensures var sys := After(setup, Start(clock), actions);
            var p := sys.poller;
            && p.before == sys.listed.Get(p.service) && P.Vanished(p.gone, p.before, p.reports)
            && sys.publisher.published ==
               sys.base + PollEvents(setup.types.Of(p.service), p.before, Some(p.reports), Resyncs(setup, sys), p.gone)
  {
    RefinesRun(setup, clock, actions);
    SaidAtTheEnd(setup, After(setup, Start(clock), actions));
  }

  lemma SaidAtTheEnd(setup: Setup, sys: System)
    requires setup.resyncEvery > 0 && Says(setup, sys) && Possible(sys, FinishPoll)
    ensures var p := sys.poller;
            sys.publisher.published ==
            sys.base + PollEvents(setup.types.Of(p.service), p.before, Some(p.reports), Resyncs(setup, sys), p.gone)
  {
    var p := sys.poller;
    var st := setup.types.Of(p.service);
    assert p.reports[..|p.reports|] == p.reports && p.gone[..p.i] == p.gone;
    P.Associative(sys.base, ItemEvents(st, p.before, p.reports, Resyncs(setup, sys)), GoneEvents(st, p.gone));
  }

  /** In every run, a poll has reported each resource that the listing before had and this one lacks as deleted,
      exactly once and nothing else about it; it has reported none that is listed as deleted. */
  lemma PollReportsEachDeletionOnce(setup: Setup, clock: int, actions: seq<Action>, id: string)
    requires setup.resyncEvery > 0 && setup.types.Distinct() && IsRunOf(setup, Start(clock), actions)
    requires Possible(After(setup, Start(clock), actions), FinishPoll)
    ensures var sys := After(setup, Start(clock), actions);
            var service := sys.poller.service;
            var listed := Ids(sys.poller.reports);
            && |sys.base| <= |sys.publisher.published|
            && var said := Of(sys.publisher.published[|sys.base|..], setup.types.KeyOf(service, id));
               && (id in sys.listed.Get(service) && id !in listed ==>
                    said == [Value(setup.types.Of(service), DELETED, DISAPPEARED)])
               && (id in listed ==> NoDeletion(said))
               && (id !in sys.listed.Get(service) && id !in listed ==> said == [])
  {
    RefinesRun(setup, clock, actions);
    PollPublishesItsEvents(setup, clock, actions);
    var sys := After(setup, Start(clock), actions);
    var p := sys.poller;
    var events := PollEvents(setup.types.Of(p.service), p.before, Some(p.reports), Resyncs(setup, sys), p.gone);
    assert sys.publisher.published[|sys.base|..] == events;
    PollEventsOf(setup.types.Of(p.service), p.before, p.reports, Resyncs(setup, sys), p.gone, id);
  }

  /** In every run, on a resync cycle, a poll has published every entry of its listing, in order. */
  lemma PollReportsAllOnResync(setup: Setup, clock: int, actions: seq<Action>, i: nat)
    requires setup.resyncEvery > 0 && setup.types.Distinct() && IsRunOf(setup, Start(clock), actions)
    requires Possible(After(setup, Start(clock), actions), FinishPoll)
    requires Resyncs(setup, After(setup, Start(clock), actions))
    requires i < |After(setup, Start(clock), actions).poller.reports|
    ensures var sys := After(setup, Start(clock), actions);
            var r, st := sys.poller.reports[i], setup.types.Of(sys.poller.service);
            && |sys.base| + i < |sys.publisher.published|
            && sys.publisher.published[|sys.base| + i] == Event(Key(st.subject, r.id), Value(st, r.status, r.message))
  {
    PollPublishesItsEvents(setup, clock, actions);
    var sys := After(setup, Start(clock), actions);
    ResyncSaysEverything(setup.types.Of(sys.poller.service), sys.poller.before, sys.poller.reports);
  }

  /** In every run, off resync cycles and with one entry for each id, a poll has published a listed resource once if its
      entry differs from the listing before, and not at all otherwise. */
  lemma PollReportsOnlyChanges(setup: Setup, clock: int, actions: seq<Action>, i: nat)
    requires setup.resyncEvery > 0 && setup.types.Distinct() && IsRunOf(setup, Start(clock), actions)
    requires Possible(After(setup, Start(clock), actions), FinishPoll)
    requires !Resyncs(setup, After(setup, Start(clock), actions))
    requires DistinctIds(After(setup, Start(clock), actions).poller.reports)
    requires i < |After(setup, Start(clock), actions).poller.reports|
    ensures var sys := After(setup, Start(clock), actions);
            var service, r, before := sys.poller.service, sys.poller.reports[i], sys.listed.Get(sys.poller.service);
            && |sys.base| <= |sys.publisher.published|
            && Of(sys.publisher.published[|sys.base|..], setup.types.KeyOf(service, r.id)) ==
               if r.id in before && before[r.id] == Cached(r.status, r.message) then []
               else [Value(setup.types.Of(service), r.status, r.message)]
  {
    RefinesRun(setup, clock, actions);
    PollPublishesItsEvents(setup, clock, actions);
    var sys := After(setup, Start(clock), actions);
    var p := sys.poller;
    var st, id := setup.types.Of(p.service), p.reports[i].id;
    assert sys.publisher.published[|sys.base|..] == PollEvents(st, p.before, Some(p.reports), false, p.gone);
    OnlyChangesAreSaid(st, p.before, p.reports, i);
    assert id in Ids(p.reports) && id !in p.gone;
    GoneEventsOf(st, p.gone, id);
    OfConcat(ItemEvents(st, p.before, p.reports, false), GoneEvents(st, p.gone), Key(st.subject, id));
  }

  /** In every run, between two DELETED events of one resource there is one that says it was alive. */
  lemma DeletionsAreSeparatedInRuns(setup: Setup, clock: int, actions: seq<Action>, i: nat, j: nat) returns (m: nat)
    requires setup.resyncEvery > 0 && setup.types.Distinct() && IsRunOf(setup, Start(clock), actions)
    requires var log := After(setup, Start(clock), actions).publisher.published;
             && i < j < |log| && log[i].key == log[j].key
             && log[i].value.status == DELETED && log[j].value.status == DELETED
    ensures var log := After(setup, Start(clock), actions).publisher.published;
            i < m < j && log[m].key == log[i].key && log[m].value.status != DELETED
  {
    RefinesRun(setup, clock, actions);
    m := DeletionsAreSeparated(After(setup, Start(clock), actions).publisher.published, i, j);
  }

  /** In every run, off resync cycles, each further event changes the table a consumer of all events has. */
  lemma RunsPublishOnlyChanges(setup: Setup, clock: int, actions: seq<Action>, a: Action)
    requires setup.resyncEvery > 0 && setup.types.Distinct() && IsRunOf(setup, Start(clock), actions)
    requires Possible(After(setup, Start(clock), actions), a) && !Resyncs(setup, After(setup, Start(clock), actions))
    ensures var sys := After(setup, Start(clock), actions);
            var next := Act(setup, sys, a);
            next.publisher.published == sys.publisher.published
            || View(next.publisher.published) != View(sys.publisher.published)
  {
    RefinesRun(setup, clock, actions);
    var sys := After(setup, Start(clock), actions);
    if Act(setup, sys, a).publisher.published != sys.publisher.published {
      PublishesOnlyChanges(setup, sys, a);
    }
  }
}
