/** The poller as the program it is: two caches and a cycle counter updated in place, and the sequence of
    Publish calls made so far. */
module PollerObject {
  import opened Basics
  import opened History
  import opened StatusMapping
  import opened PollerModel

  class Poller {
    const types: Types
    const resyncEvery: int
    var caches: Caches
    var cycle: nat
    var events: seq<Event>   // the Publish calls made so far

    /** The replay invariant: folding everything published gives exactly the caches, and nothing was reported
        deleted that was not alive. */
    ghost predicate Valid()
      reads this
    {
      && resyncEvery > 0 && types.Distinct()
      && View(events) == Combined(types, caches)
      && DeletesOnlyLive(events)
    }

    constructor (clusterProvider: string, vmProvider: string, resyncEvery: int)
      ensures Valid() && caches == Caches(map[], map[]) && cycle == 0 && events == []
      ensures types == TypesFor(clusterProvider, vmProvider)
              && this.resyncEvery == if resyncEvery <= 0 then 1 else resyncEvery
    {
      types := TypesFor(clusterProvider, vmProvider);
      this.resyncEvery := if resyncEvery <= 0 then 1 else resyncEvery;
      caches, cycle, events := Caches(map[], map[]), 0, [];
    }

    /** publishClusterIfNeeded and publishVMIfNeeded. */
    method PublishIfNeeded(service: Service, r: Report, resync: bool, ghost from: nat)
      requires Valid() && r.status != DELETED
      requires from <= |events| && (!resync ==> EachChangesFrom(events, from))
      modifies this`caches, this`events
      ensures Valid()
      ensures caches == old(caches).Set(service, old(caches).Get(service)[r.id := Cached(r.status, r.message)])
      ensures events == old(events) + if resync || Changed(old(caches).Get(service), r)
                                      then [EventFor(types.Of(service), r.id, r.status, r.message)] else []
      ensures !resync ==> EachChangesFrom(events, from)
    {
      var cache := caches.Get(service);
      var changed := r.id !in cache || cache[r.id].status != r.status || cache[r.id].message != r.message;
      CombinedAt(types, caches, service, r.id);
      CombinedSet(types, caches, service, r.id, Cached(r.status, r.message));
      if changed || resync {
        var e := EventFor(types.Of(service), r.id, r.status, r.message);
        ViewAppend(events, e);
        DeletesOnlyLiveAppend(events, e);
        if !resync {
          EachChangesAppend(events, e, from);
        }
        events := events + [e];
      }
      caches := caches.Set(service, cache[r.id := Cached(r.status, r.message)]);
    }

    /** A cached resource that the listing no longer has. */
    method ReportGone(service: Service, id: string, ghost resync: bool, ghost from: nat)
      requires Valid() && id in caches.Get(service)
      requires from <= |events| && (!resync ==> EachChangesFrom(events, from))
      modifies this`caches, this`events
      ensures Valid()
      ensures caches == old(caches).Set(service, old(caches).Get(service) - {id})
      ensures events == old(events) + [EventFor(types.Of(service), id, DELETED, DISAPPEARED)]
      ensures !resync ==> EachChangesFrom(events, from)
    {
      var e := EventFor(types.Of(service), id, DELETED, DISAPPEARED);
      CombinedAt(types, caches, service, id);
      CombinedRemove(types, caches, service, id);
      ViewAppend(events, e);
      DeletesOnlyLiveAppend(events, e);
      if !resync {
        EachChangesAppend(events, e, from);
      }
      events := events + [e];
      caches := caches.Set(service, caches.Get(service) - {id});
    }

    /** The first loop of a poll: compare every listed item with the cache. */
    method CompareItems(service: Service, reports: seq<Report>, resync: bool,
                        ghost from: nat) returns (seen: set<string>)
      requires Valid() && Live(reports)
      requires from <= |events| && (!resync ==> EachChangesFrom(events, from))
      modifies this`caches, this`events
      ensures Valid() && seen == Ids(reports)
      ensures caches == old(caches).Set(service, old(caches).Get(service) + Mapped(reports))
      ensures events == old(events) + ItemEvents(types.Of(service), old(caches).Get(service), reports, resync)
      ensures !resync ==> EachChangesFrom(events, from)
    {
      seen := {};
      assert caches.Get(service) + map[] == caches.Get(service);
      for i := 0 to |reports|
        invariant Valid() && (!resync ==> EachChangesFrom(events, from))
        invariant seen == Ids(reports[..i])
        invariant Compared(types.Of(service), service, old(caches), old(events), caches, events, reports[..i], resync)
      {
        NextCompared(types.Of(service), service, old(caches), old(events), caches, events, reports, i, resync);
        PublishIfNeeded(service, reports[i], resync, from);
        seen := seen + {reports[i].id};
      }
      assert reports[..|reports|] == reports;
    }

    /** The second loop: report what is cached but was not seen, in the order in which the map happens to
        yield it. */
    method ReportVanished(service: Service, seen: set<string>, ghost resync: bool,
                          ghost from: nat) returns (gone: seq<string>)
      requires Valid()
      requires from <= |events| && (!resync ==> EachChangesFrom(events, from))
      modifies this`caches, this`events
      ensures Valid() && Distinct(gone)
      ensures forall id :: id in gone <==> id in old(caches).Get(service) && id !in seen
      ensures caches == old(caches).Set(service, old(caches).Get(service) - set id | id in gone)
      ensures events == old(events) + GoneEvents(types.Of(service), gone)
      ensures !resync ==> EachChangesFrom(events, from)
    {
      gone := [];
      ghost var before := caches.Get(service);
      var todo := caches.Get(service).Keys;
      while todo != {}
        invariant Valid() && (!resync ==> EachChangesFrom(events, from))
        invariant todo <= before.Keys && Distinct(gone)
        invariant forall id :: id in gone <==> id in before && id !in seen && id !in todo
        invariant caches == old(caches).Set(service, before - set id | id in gone)
        invariant events == old(events) + GoneEvents(types.Of(service), gone)
        decreases todo
      {
        var id :| id in todo;
        todo := todo - {id};
        if id !in seen {
          ReportGone(service, id, resync, from);
          Associative(old(events), GoneEvents(types.Of(service), gone),
                      [EventFor(types.Of(service), id, DELETED, DISAPPEARED)]);
          NextGone(types.Of(service), before, gone, id);
          gone := gone + [id];
        }
      }
    }

    /** pollClusters and pollVMs: the same code over the two caches. */
    method Poll(service: Service, listing: Option<seq<Report>>, resync: bool,
                ghost from: nat) returns (gone: seq<string>)
      requires from <= |events| && (!resync ==> EachChangesFrom(events, from))
      requires Valid() && (listing.Some? ==> Live(listing.value))
      modifies this`caches, this`events
      ensures Valid()
      ensures listing.None? ==> caches == old(caches) && events == old(events)
      ensures listing.Some? ==>
                && caches == old(caches).Set(service, Mapped(listing.value))
                && Vanished(gone, old(caches).Get(service), listing.value)
      ensures events == old(events) + PollEvents(types.Of(service), old(caches).Get(service), listing, resync, gone)
      ensures !resync ==> EachChangesFrom(events, from)
    {
      gone := [];
      if listing.None? {
        return;
      }
      var reports := listing.value;
      ghost var before := caches.Get(service);
      var seen := CompareItems(service, reports, resync, from);
      gone := ReportVanished(service, seen, resync, from);
      Associative(old(events), ItemEvents(types.Of(service), before, reports, resync),
                  GoneEvents(types.Of(service), gone));
      OnlyListedRemain(before, reports, gone);
    }

    /** One poll cycle over both service types. */
    method RunCycle(clusters: Option<seq<ClusterItem>>, vms: Option<seq<VMItem>>)
      returns (goneClusters: seq<string>, goneVMs: seq<string>)
      requires Valid()
      modifies this
      ensures Valid() && cycle == old(cycle) + 1
      ensures clusters.Some? ==> Vanished(goneClusters, old(caches).clusters, ClusterReports(clusters.value))
      ensures vms.Some? ==> Vanished(goneVMs, old(caches).vms, VMReports(vms.value))
      ensures caches == Caches(
                if clusters.None? then old(caches).clusters else Mapped(ClusterReports(clusters.value)),
                if vms.None? then old(caches).vms else Mapped(VMReports(vms.value)))
      ensures var resync := old(cycle) % resyncEvery == 0;
              events == old(events)
                + PollEvents(types.clusters, old(caches).clusters, ClusterListing(clusters), resync, goneClusters)
                + PollEvents(types.vms, old(caches).vms, VMListing(vms), resync, goneVMs)
      ensures old(cycle) % resyncEvery != 0 ==> EachChangesFrom(events, |old(events)|)
    {
      var resync := cycle % resyncEvery == 0;
      ghost var from := |events|;
      goneClusters := Poll(Clusters, ClusterListing(clusters), resync, from);
      goneVMs := Poll(VMs, VMListing(vms), resync, from);
      cycle := cycle + 1;
    }
  }

  function ClusterReports(items: seq<ClusterItem>): (rs: seq<Report>)
    ensures |rs| == |items| && Live(rs) && forall i :: 0 <= i < |rs| ==> rs[i] == ClusterReport(items[i])
  {
    seq(|items|, i requires 0 <= i < |items| => ClusterReport(items[i]))
  }

  function VMReports(items: seq<VMItem>): (rs: seq<Report>)
    ensures |rs| == |items| && Live(rs) && forall i :: 0 <= i < |rs| ==> rs[i] == VMReport(items[i])
  {
    seq(|items|, i requires 0 <= i < |items| => VMReport(items[i]))
  }

  /** Where the comparison stands after the given items. */
  ghost predicate Compared(st: ServiceType, service: Service, caches0: Caches, events0: seq<Event>,
                           caches: Caches, events: seq<Event>, reports: seq<Report>, resync: bool)
  {
    && caches == caches0.Set(service, caches0.Get(service) + Mapped(reports))
    && events == events0 + ItemEvents(st, caches0.Get(service), reports, resync)
  }

  lemma NextCompared(st: ServiceType, service: Service, caches0: Caches, events0: seq<Event>,
                     caches: Caches, events: seq<Event>, reports: seq<Report>, i: nat, resync: bool)
    requires i < |reports| && Compared(st, service, caches0, events0, caches, events, reports[..i], resync)
    ensures var r := reports[i];
            var said := if resync || Changed(caches.Get(service), r)
                      then [EventFor(st, r.id, r.status, r.message)] else [];
            && Compared(st, service, caches0, events0,
                        caches.Set(service, caches.Get(service)[r.id := Cached(r.status, r.message)]), events + said,
                        reports[..i + 1], resync)
            && Ids(reports[..i + 1]) == Ids(reports[..i]) + {r.id}
  {
    var r, before := reports[i], caches0.Get(service);
    NextItem(st, before, reports, i, resync);
    Associative(events0, ItemEvents(st, before, reports[..i], resync),
                if resync || Changed(caches.Get(service), r) then [EventFor(st, r.id, r.status, r.message)] else []);
  }

  function ClusterListing(items: Option<seq<ClusterItem>>): (l: Option<seq<Report>>)
    ensures l.Some? ==> Live(l.value)
  {
    match items case None => None case Some(s) => Some(ClusterReports(s))
  }

  function VMListing(items: Option<seq<VMItem>>): (l: Option<seq<Report>>)
    ensures l.Some? ==> Live(l.value)
  {
    match items case None => None case Some(s) => Some(VMReports(s))
  }

  /** `gone` lists, once each, the cached ids the listing does not have. */
  ghost predicate Vanished(gone: seq<string>, cache: map<string, Cached>, reports: seq<Report>) {
    Distinct(gone) && forall id :: id in gone <==> id in cache && id !in Ids(reports)
  }

  lemma OnlyListedRemain(cache: map<string, Cached>, reports: seq<Report>, gone: seq<string>)
    requires forall id :: id in gone <==> id in cache + Mapped(reports) && id !in Ids(reports)
    ensures (cache + Mapped(reports)) - (set id | id in gone) == Mapped(reports)
    ensures forall id :: id in gone <==> id in cache && id !in Ids(reports)
  {
    MappedKeys(reports);
  }

  lemma Associative<T>(a: seq<T>, b: seq<T>, c: seq<T>)
    ensures a + b + c == a + (b + c)
  {
  }
}
