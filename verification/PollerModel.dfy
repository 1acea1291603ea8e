/** The poller's cache comparison on values: which events a cycle publishes and what it leaves cached. */
module PollerModel {
  import opened Basics
  import opened History
  import opened StatusMapping

  datatype Service = Clusters | VMs

  /** The two caches, scoped independently per service type. */
  datatype Caches = Caches(clusters: map<string, Cached>, vms: map<string, Cached>) {
    function Get(service: Service): map<string, Cached> {
      if service.Clusters? then clusters else vms
    }

    function Set(service: Service, cache: map<string, Cached>): Caches {
      if service.Clusters? then this.(clusters := cache) else this.(vms := cache)
    }
  }

  const DISAPPEARED := "resource no longer found"

  /** The CloudEvents attributes of the two service types. */
  datatype Types = Types(clusters: ServiceType, vms: ServiceType) {
    function Of(service: Service): ServiceType {
      if service.Clusters? then clusters else vms
    }

    predicate Distinct() {
      clusters.subject != vms.subject
    }

    function KeyOf(service: Service, id: string): Key {
      Key(Of(service).subject, id)
    }
  }

  function TypesFor(clusterProvider: string, vmProvider: string): (types: Types)
    ensures types.Distinct() && types.clusters.subject == "dcm.cluster" && types.vms.subject == "dcm.vm"
    ensures types.clusters.source == "dcm/providers/" + clusterProvider
    ensures types.vms.source == "dcm/providers/" + vmProvider
  {
    var c := ServiceType("dcm.cluster", "dcm.status.cluster", "dcm/providers/" + clusterProvider);
    var v := ServiceType("dcm.vm", "dcm.status.vm", "dcm/providers/" + vmProvider);
    assert c.subject[4] != v.subject[4];
    Types(c, v)
  }

  /** Both caches as one table of reported resources. */
  ghost function Combined(types: Types, caches: Caches): map<Key, Cached> {
    map k: Key |
        k in (set id | id in caches.clusters :: types.KeyOf(Clusters, id))
          + (set id | id in caches.vms :: types.KeyOf(VMs, id))
      :: if k.subject == types.clusters.subject && k.resourceID in caches.clusters
          then caches.clusters[k.resourceID] else caches.vms[k.resourceID]
  }

  lemma CombinedAt(types: Types, caches: Caches, service: Service, id: string)
    requires types.Distinct()
    ensures types.KeyOf(service, id) in Combined(types, caches) <==> id in caches.Get(service)
    ensures id in caches.Get(service) ==> Combined(types, caches)[types.KeyOf(service, id)] == caches.Get(service)[id]
  {
    var k := types.KeyOf(service, id);
    assert k in (set x | x in caches.clusters :: types.KeyOf(Clusters, x))
           <==> service.Clusters? && id in caches.clusters;
    assert k in (set x | x in caches.vms :: types.KeyOf(VMs, x)) <==> service.VMs? && id in caches.vms;
  }

  /** Equal ids of the two service types never meet: changing one entry changes one row. */
  lemma CombinedSet(types: Types, caches: Caches, service: Service, id: string, value: Cached)
    requires types.Distinct()
    ensures Combined(types, caches.Set(service, caches.Get(service)[id := value]))
         == Combined(types, caches)[types.KeyOf(service, id) := value]
  {
    var after := caches.Set(service, caches.Get(service)[id := value]);
    CombinedExtensional(types, after, Combined(types, caches)[types.KeyOf(service, id) := value], caches, service, id);
  }

  lemma CombinedRemove(types: Types, caches: Caches, service: Service, id: string)
    requires types.Distinct()
    ensures Combined(types, caches.Set(service, caches.Get(service) - {id}))
           == Combined(types, caches) - {types.KeyOf(service, id)}
  {
    var after := caches.Set(service, caches.Get(service) - {id});
    CombinedExtensional(types, after, Combined(types, caches) - {types.KeyOf(service, id)}, caches, service, id);
  }

  /** A table equals the combination of `after` if it differs from that of `before` in one row only and agrees
      there. */
  lemma CombinedExtensional(types: Types, after: Caches, table: map<Key, Cached>, before: Caches, service: Service,
                            id: string)
    requires types.Distinct()
    requires forall k :: k != types.KeyOf(service, id) ==> (k in table <==> k in Combined(types, before))
    requires forall k :: k != types.KeyOf(service, id) && k in table ==> table[k] == Combined(types, before)[k]
    requires types.KeyOf(service, id) in table <==> id in after.Get(service)
    requires id in after.Get(service) ==> table[types.KeyOf(service, id)] == after.Get(service)[id]
    requires forall s, x :: (s, x) != (service, id) ==> (x in after.Get(s) <==> x in before.Get(s))
    requires forall s, x :: (s, x) != (service, id) && x in after.Get(s) ==> after.Get(s)[x] == before.Get(s)[x]
    ensures Combined(types, after) == table
  {
    forall k ensures k in Combined(types, after) <==> k in table
             ensures k in table ==> Combined(types, after)[k] == table[k] {
      if k == types.KeyOf(service, id) {
        CombinedAt(types, after, service, id);
      } else if k.subject == types.clusters.subject || k.subject == types.vms.subject {
        var s := if k.subject == types.clusters.subject then Clusters else VMs;
        assert k == types.KeyOf(s, k.resourceID);
        CombinedAt(types, after, s, k.resourceID);
        CombinedAt(types, before, s, k.resourceID);
      } else {
        assert k !in Combined(types, after) && k !in Combined(types, before);
      }
    }
  }

  // ----- one report

  predicate Changed(cache: map<string, Cached>, r: Report) {
    r.id !in cache || cache[r.id].status != r.status || cache[r.id].message != r.message
  }

  function EventFor(st: ServiceType, id: string, status: string, message: string): Event {
    Event(Key(st.subject, id), Value(st, status, message))
  }

  // ----- one listing

  predicate Live(reports: seq<Report>) {
    forall i :: 0 <= i < |reports| ==> reports[i].status != DELETED
  }

  ghost function Ids(reports: seq<Report>): set<string> {
    set i | 0 <= i < |reports| :: reports[i].id
  }

  /** The listing as a table: of several entries with one id the last wins. */
  ghost function Mapped(reports: seq<Report>): map<string, Cached> {
    if reports == [] then map[]
    else Mapped(Front(reports))[Last(reports).id := Cached(Last(reports).status, Last(reports).message)]
  }

  lemma MappedKeys(reports: seq<Report>)
    ensures Mapped(reports).Keys == Ids(reports)
  {
    if reports != [] {
      MappedKeys(Front(reports));
      assert Ids(reports) == Ids(Front(reports)) + {Last(reports).id};
    }
  }

  /** Each id is mapped to what the last entry with that id says. */
  lemma {:induction false} MappedIsLast(reports: seq<Report>, i: nat)
    requires i < |reports|
    requires forall j :: i < j < |reports| ==> reports[j].id != reports[i].id
    ensures reports[i].id in Mapped(reports)
    ensures Mapped(reports)[reports[i].id] == Cached(reports[i].status, reports[i].message)
    decreases |reports|
  {
    if i < |reports| - 1 {
      MappedIsLast(Front(reports), i);
    }
  }

  /** What comparing a listing with the cache publishes, item by item. */
  ghost function ItemEvents(st: ServiceType, cache: map<string, Cached>, reports: seq<Report>,
                            resync: bool): seq<Event> {
    if reports == [] then []
    else
      var r, earlier := Last(reports), ItemEvents(st, cache, Front(reports), resync);
      if resync || Changed(cache + Mapped(Front(reports)), r)
      then earlier + [EventFor(st, r.id, r.status, r.message)]
      else earlier
  }

  /** What the next item of a listing adds. */
  lemma NextItem(st: ServiceType, cache: map<string, Cached>, reports: seq<Report>, i: nat, resync: bool)
    requires i < |reports|
    ensures var r := reports[i];
            && Ids(reports[..i + 1]) == Ids(reports[..i]) + {r.id}
            && cache + Mapped(reports[..i + 1]) == (cache + Mapped(reports[..i]))[r.id := Cached(r.status, r.message)]
            && ItemEvents(st, cache, reports[..i + 1], resync) == ItemEvents(st, cache, reports[..i], resync)
                 + if resync || Changed(cache + Mapped(reports[..i]), r)
                   then [EventFor(st, r.id, r.status, r.message)] else []
  {
    assert Front(reports[..i + 1]) == reports[..i] && Last(reports[..i + 1]) == reports[i];
    forall x ensures x in Ids(reports[..i + 1]) <==> x in Ids(reports[..i]) + {reports[i].id} {
      if x in Ids(reports[..i]) {
        var j :| 0 <= j < i && reports[..i][j].id == x;
        assert reports[..i + 1][j].id == x;
      } else if x == reports[i].id {
        assert reports[..i + 1][i].id == x;
      }
    }
  }

  ghost function GoneEvents(st: ServiceType, gone: seq<string>): seq<Event> {
    if gone == [] then [] else GoneEvents(st, Front(gone)) + [EventFor(st, Last(gone), DELETED, DISAPPEARED)]
  }

  /** What one poll publishes: nothing if the listing failed. */
  ghost function PollEvents(st: ServiceType, cache: map<string, Cached>, listing: Option<seq<Report>>, resync: bool,
                            gone: seq<string>): seq<Event> {
    match listing
    case None => []
    case Some(reports) => ItemEvents(st, cache, reports, resync) + GoneEvents(st, gone)
  }

  lemma NextGone(st: ServiceType, cache: map<string, Cached>, gone: seq<string>, id: string)
    ensures GoneEvents(st, gone + [id]) == GoneEvents(st, gone) + [EventFor(st, id, DELETED, DISAPPEARED)]
    ensures cache - (set x | x in gone + [id]) == (cache - set x | x in gone) - {id}
  {
    assert Front(gone + [id]) == gone;
    assert (set x | x in gone + [id]) == (set x | x in gone) + {id};
  }

  ghost predicate Distinct(ids: seq<string>) {
    forall i, j :: 0 <= i < j < |ids| ==> ids[i] != ids[j]
  }

  lemma {:induction false} OfConcat(a: seq<Event>, b: seq<Event>, k: Key)
    ensures Of(a + b, k) == Of(a, k) + Of(b, k)
  {
    if b == [] {
      assert a + b == a;
    } else {
      OfConcat(a, Front(b), k);
      var e := Last(b);
      assert a + b == (a + Front(b)) + [e];
      OfAppend(a + Front(b), e, k);
      assert Of(a, k) + (Of(Front(b), k) + [e.value]) == (Of(a, k) + Of(Front(b), k)) + [e.value];
    }
  }

  /** None of the values is a deletion. */
  ghost predicate NoDeletion(values: seq<Value>) {
    forall i :: 0 <= i < |values| ==> values[i].status != DELETED
  }

  lemma {:induction false} ItemEventsOf(st: ServiceType, cache: map<string, Cached>, reports: seq<Report>,
                                        resync: bool, id: string)
    requires Live(reports)
    ensures var said := Of(ItemEvents(st, cache, reports, resync), Key(st.subject, id));
            NoDeletion(said) && (id !in Ids(reports) ==> said == [])
  {
    if reports != [] {
      var r := Last(reports);
      ItemEventsOf(st, cache, Front(reports), resync, id);
      OfAppend(ItemEvents(st, cache, Front(reports), resync), EventFor(st, r.id, r.status, r.message),
               Key(st.subject, id));
      if id !in Ids(reports) {
        assert reports[|reports| - 1].id != id;
        assert forall i :: 0 <= i < |Front(reports)| ==> Front(reports)[i] == reports[i];
      }
    }
  }

  /** On a resync cycle every entry of the listing is published, in order. */
  lemma {:induction false} ResyncSaysEverything(st: ServiceType, cache: map<string, Cached>, reports: seq<Report>)
    ensures var said := ItemEvents(st, cache, reports, true);
            && |said| == |reports|
            && forall i :: 0 <= i < |reports| ==>
                 said[i] == Event(Key(st.subject, reports[i].id), Value(st, reports[i].status, reports[i].message))
    decreases |reports|
  {
    if reports != [] {
      ResyncSaysEverything(st, cache, Front(reports));
    }
  }

  predicate DistinctIds(reports: seq<Report>) {
    forall i, j :: 0 <= i < j < |reports| ==> reports[i].id != reports[j].id
  }

  /** What one poll says off resync cycles about the entry `r`. */
  function SaidOffResync(st: ServiceType, cache: map<string, Cached>, r: Report): seq<Value> {
    if r.id in cache && cache[r.id] == Cached(r.status, r.message) then [] else [Value(st, r.status, r.message)]
  }

  lemma LastIsSaid(st: ServiceType, cache: map<string, Cached>, before: seq<Report>, r: Report)
    requires Live(before) && r.id !in Ids(before)
    ensures Of(ItemEvents(st, cache, before + [r], false), Key(st.subject, r.id)) == SaidOffResync(st, cache, r)
  {
    assert Front(before + [r]) == before;
    ItemEventsOf(st, cache, before, false, r.id);
    MappedKeys(before);
    OfAppend(ItemEvents(st, cache, before, false), EventFor(st, r.id, r.status, r.message), Key(st.subject, r.id));
  }

  lemma OthersAreNotSaid(st: ServiceType, cache: map<string, Cached>, before: seq<Report>, r: Report, id: string)
    requires r.id != id
    ensures Of(ItemEvents(st, cache, before + [r], false), Key(st.subject, id))
         == Of(ItemEvents(st, cache, before, false), Key(st.subject, id))
  {
    assert Front(before + [r]) == before;
    OfAppend(ItemEvents(st, cache, before, false), EventFor(st, r.id, r.status, r.message), Key(st.subject, id));
  }

  /** Off resync cycles, with one entry for each id, a resource is published once if its entry differs from the cache,
      and not at all if it does not. */
  lemma {:induction false} OnlyChangesAreSaid(st: ServiceType, cache: map<string, Cached>, reports: seq<Report>, i: nat)
    requires i < |reports| && Live(reports) && DistinctIds(reports)
    ensures Of(ItemEvents(st, cache, reports, false), Key(st.subject, reports[i].id)) ==
            if reports[i].id in cache && cache[reports[i].id] == Cached(reports[i].status, reports[i].message) then []
            else [Value(st, reports[i].status, reports[i].message)]
    decreases |reports|
  {
    var before := Front(reports);
    assert reports == before + [Last(reports)];
    if i < |reports| - 1 {
      OthersAreNotSaid(st, cache, before, Last(reports), reports[i].id);
      OnlyChangesAreSaid(st, cache, before, i);
    } else {
      LastIsSaid(st, cache, before, Last(reports));
    }
  }

  lemma {:induction false} GoneEventsOf(st: ServiceType, gone: seq<string>, id: string)
    requires Distinct(gone)
    ensures Of(GoneEvents(st, gone), Key(st.subject, id)) ==
            if id in gone then [Value(st, DELETED, DISAPPEARED)] else []
  {
    if gone != [] {
      GoneEventsOf(st, Front(gone), id);
      OfAppend(GoneEvents(st, Front(gone)), EventFor(st, Last(gone), DELETED, DISAPPEARED), Key(st.subject, id));
    }
  }

  /** One poll says DELETED once for each cached resource missing from the listing, and nothing else about
      it; about a listed resource it never says DELETED. */
  lemma PollEventsOf(st: ServiceType, cache: map<string, Cached>, reports: seq<Report>, resync: bool,
                     gone: seq<string>, id: string)
    requires Live(reports) && Distinct(gone)
    requires forall x :: x in gone <==> x in cache && x !in Ids(reports)
    ensures var said := Of(PollEvents(st, cache, Some(reports), resync, gone), Key(st.subject, id));
            && (id in cache && id !in Ids(reports) ==> said == [Value(st, DELETED, DISAPPEARED)])
            && (id in Ids(reports) ==> NoDeletion(said))
            && (id !in cache && id !in Ids(reports) ==> said == [])
  {
    ItemEventsOf(st, cache, reports, resync, id);
    GoneEventsOf(st, gone, id);
    OfConcat(ItemEvents(st, cache, reports, resync), GoneEvents(st, gone), Key(st.subject, id));
  }

  // ----- properties of logs

  /** Event `j` changes the table a consumer has folded so far. */
  ghost predicate ChangesAt(log: seq<Event>, j: nat)
    requires j < |log|
  {
    View(log[..j + 1]) != View(log[..j])
  }

  ghost predicate EachChangesFrom(log: seq<Event>, from: nat) {
    forall j :: from <= j < |log| ==> ChangesAt(log, j)
  }

  /** If event `j` is a deletion, the log up to it says the resource is alive. */
  ghost predicate DeletesLiveAt(log: seq<Event>, j: nat)
    requires j < |log|
  {
    log[j].value.status == DELETED ==> log[j].key in View(log[..j])
  }

  ghost predicate DeletesOnlyLive(log: seq<Event>) {
    forall j :: 0 <= j < |log| ==> DeletesLiveAt(log, j)
  }

  lemma EachChangesAppend(log: seq<Event>, e: Event, from: nat)
    requires from <= |log| && EachChangesFrom(log, from)
    requires View(log + [e]) != View(log)
    ensures EachChangesFrom(log + [e], from)
  {
    var longer := log + [e];
    forall j | from <= j < |longer| ensures ChangesAt(longer, j) {
      assert longer[..j] == log[..j];
      if j == |log| {
        assert longer[..j + 1] == longer && log[..j] == log;
      } else {
        assert longer[..j + 1] == log[..j + 1];
        assert ChangesAt(log, j);
      }
    }
  }

  lemma DeletesOnlyLiveAppend(log: seq<Event>, e: Event)
    requires DeletesOnlyLive(log)
    requires e.value.status == DELETED ==> e.key in View(log)
    ensures DeletesOnlyLive(log + [e])
  {
    var longer := log + [e];
    forall j | 0 <= j < |longer| ensures DeletesLiveAt(longer, j) {
      assert longer[..j] == log[..j];
      if j == |log| {
        assert log[..j] == log;
      } else {
        assert DeletesLiveAt(log, j);
      }
    }
  }

  lemma {:induction false} RevivedBetween(log: seq<Event>, k: Key, i: nat, j: nat) returns (m: nat)
    requires i <= j <= |log|
    requires k !in View(log[..i]) && k in View(log[..j])
    ensures i <= m < j && log[m].key == k && log[m].value.status != DELETED
    decreases j - i
  {
    assert i != j;
    var before := log[..j - 1];
    assert log[..j] == before + [log[j - 1]];
    ViewAppend(before, log[j - 1]);
    if k in View(before) {
      m := RevivedBetween(log, k, i, j - 1);
    } else {
      m := j - 1;
    }
  }

  /** Between two deletions of one resource there is a report that it was alive. */
  lemma DeletionsAreSeparated(log: seq<Event>, i: nat, j: nat) returns (m: nat)
    requires DeletesOnlyLive(log)
    requires i < j < |log| && log[i].key == log[j].key
    requires log[i].value.status == DELETED && log[j].value.status == DELETED
    ensures i < m < j && log[m].key == log[i].key && log[m].value.status != DELETED
  {
    assert log[..i + 1] == log[..i] + [log[i]];
    ViewAppend(log[..i], log[i]);
    assert DeletesLiveAt(log, j);
    m := RevivedBetween(log, log[i].key, i + 1, j);
  }
}
