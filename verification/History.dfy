/** Logs of status events: the values logged for one key, their order, and the table a consumer obtains by
    folding a log. */
module History {
  import opened Basics

  /** The CloudEvents attributes of one service type. */
  datatype ServiceType = ServiceType(subject: string, eventType: string, source: string)

  /** A resource's slot in the coalescing queue. */
  datatype Key = Key(subject: string, resourceID: string)

  datatype Value = Value(serviceType: ServiceType, status: string, message: string)

  datatype Event = Event(key: Key, value: Value)

  /** The last reported (status, message) of a resource. */
  datatype Cached = Cached(status: string, message: string)

  const DELETED := "DELETED"

  /** The values logged for `k`, oldest first. */
  ghost function Of(log: seq<Event>, k: Key): seq<Value> {
    if log == [] then []
    else if Last(log).key == k then Of(Front(log), k) + [Last(log).value]
    else Of(Front(log), k)
  }

  lemma OfAppend(log: seq<Event>, e: Event, k: Key)
    ensures Of(log + [e], k) == if e.key == k then Of(log, k) + [e.value] else Of(log, k)
  {
    assert Front(log + [e]) == log;
  }

  /** Last writer wins; DELETED removes. */
  function Step(view: map<Key, Cached>, e: Event): map<Key, Cached> {
    if e.value.status == DELETED then view - {e.key}
    else view[e.key := Cached(e.value.status, e.value.message)]
  }

  function View(log: seq<Event>): map<Key, Cached> {
    if log == [] then map[] else Step(View(Front(log)), Last(log))
  }

  lemma ViewAppend(log: seq<Event>, e: Event)
    ensures View(log + [e]) == Step(View(log), e)
  {
    assert Front(log + [e]) == log;
  }

  /** A folded log keeps, for each key, its last value and nothing else. */
  lemma {:induction false} ViewIsLastValue(log: seq<Event>, k: Key)
    ensures k in View(log) <==> Of(log, k) != [] && Last(Of(log, k)).status != DELETED
    ensures k in View(log) ==>
              View(log)[k] == Cached(Last(Of(log, k)).status, Last(Of(log, k)).message)
  {
    if log != [] {
      ViewIsLastValue(Front(log), k);
    }
  }

  /** Two logs that agree on every key's last value fold to the same table. */
  lemma SameLastSameView(a: seq<Event>, b: seq<Event>)
    requires forall k :: (Of(a, k) == [] <==> Of(b, k) == [])
    requires forall k :: Of(a, k) != [] ==> Last(Of(a, k)) == Last(Of(b, k))
    ensures View(a) == View(b)
  {
    forall k ensures k in View(a) <==> k in View(b)
             ensures k in View(a) ==> View(a)[k] == View(b)[k] {
      ViewIsLastValue(a, k);
      ViewIsLastValue(b, k);
    }
  }

  // ----- order

  /** `s` without the elements that repeat their predecessor. */
  ghost function Destutter<T>(s: seq<T>): seq<T> {
    if |s| <= 1 then s
    else if Last(s) == Last(Front(s)) then Destutter(Front(s))
    else Destutter(Front(s)) + [Last(s)]
  }

  ghost predicate IsSubsequence<T>(a: seq<T>, b: seq<T>) {
    a == [] || (b != [] && ((Last(a) == Last(b) && IsSubsequence(Front(a), Front(b))) || IsSubsequence(a, Front(b))))
  }

  lemma {:induction false} SubsequenceOfLonger<T>(a: seq<T>, b: seq<T>, c: nat, d: nat)
    requires c <= d <= |b|
    requires IsSubsequence(a, b[..c])
    ensures IsSubsequence(a, b[..d])
  {
    if c < d {
      SubsequenceOfLonger(a, b, c, d - 1);
      assert Front(b[..d]) == b[..d - 1];
    }
  }

  /** A subsequence in the usual sense: strictly increasing positions that carry the elements. */
  lemma {:induction false} SubsequencePositions<T>(a: seq<T>, b: seq<T>) returns (at: seq<nat>)
    requires IsSubsequence(a, b)
    ensures |at| == |a|
    ensures forall i :: 0 <= i < |at| ==> at[i] < |b| && b[at[i]] == a[i]
    ensures forall i, j :: 0 <= i < j < |at| ==> at[i] < at[j]
  {
    if a == [] {
      at := [];
    } else if Last(a) == Last(b) && IsSubsequence(Front(a), Front(b)) {
      at := SubsequencePositions(Front(a), Front(b));
      at := at + [|b| - 1];
    } else {
      at := SubsequencePositions(a, Front(b));
    }
  }

  /** What is known of one key's deliveries `d` when its publications are `p` and the last delivery came
      from one of the first `bound` of them. */
  ghost predicate InOrder<T>(p: seq<T>, d: seq<T>, bound: nat) {
    exists c: nat :: InOrderUpTo(p, d, bound, c)
  }

  ghost predicate InOrderUpTo<T>(p: seq<T>, d: seq<T>, bound: nat, c: nat) {
    && c <= bound <= |p|
    && IsSubsequence(Destutter(d), p[..c])
    && (d != [] ==> c > 0 && Last(d) == p[c - 1])
  }

  lemma NothingDeliveredIsInOrder<T>(p: seq<T>)
    ensures InOrder(p, [], |p|)
  {
    assert InOrderUpTo(p, [], |p|, 0);
  }

  lemma InOrderAfterPublish<T>(p: seq<T>, d: seq<T>, bound: nat, v: T)
    requires InOrder(p, d, bound)
    ensures InOrder(p + [v], d, bound)
  {
    var c: nat :| InOrderUpTo(p, d, bound, c);
    assert (p + [v])[..c] == p[..c];
    assert InOrderUpTo(p + [v], d, bound, c);
  }

  lemma InOrderWeaken<T>(p: seq<T>, d: seq<T>, bound: nat, larger: nat)
    requires bound <= larger <= |p|
    requires InOrder(p, d, bound)
    ensures InOrder(p, d, larger)
  {
    var c: nat :| InOrderUpTo(p, d, bound, c);
    assert InOrderUpTo(p, d, larger, c);
  }

  /** Delivering the `bound`-th publication keeps the order. */
  lemma InOrderAfterDelivery<T>(p: seq<T>, d: seq<T>, bound: nat)
    requires 0 < bound <= |p|
    requires InOrder(p, d, bound)
    ensures InOrder(p, d + [p[bound - 1]], bound)
  {
    var c: nat :| InOrderUpTo(p, d, bound, c);
    var v := p[bound - 1];
    assert Front(d + [v]) == d;
    assert Front(p[..bound]) == p[..bound - 1] && Last(p[..bound]) == v;
    if d == [] {
      assert IsSubsequence([v], p[..bound]);
    } else if Last(d) == v {
      SubsequenceOfLonger(Destutter(d), p, c, bound);
    } else {
      SubsequenceOfLonger(Destutter(d), p, c, bound - 1);
      assert Destutter(d + [v]) == Destutter(d) + [v];
      assert Front(Destutter(d) + [v]) == Destutter(d);
    }
    assert InOrderUpTo(p, d + [v], bound, bound);
  }

  /** The order as it is promised: the deliveries without stutter are a subsequence of the publications. */
  lemma InOrderMeansSubsequence<T>(p: seq<T>, d: seq<T>, bound: nat)
    requires InOrder(p, d, bound)
    ensures IsSubsequence(Destutter(d), p)
  {
    var c: nat :| InOrderUpTo(p, d, bound, c);
    SubsequenceOfLonger(Destutter(d), p, c, |p|);
    assert p[..|p|] == p;
  }

  /** Each element of `d` is found in `p` at its position, and later elements at no earlier positions. */
  ghost predicate Traces<T>(p: seq<T>, d: seq<T>, at: seq<nat>) {
    && |at| == |d|
    && (forall i :: 0 <= i < |d| ==> at[i] < |p| && p[at[i]] == d[i])
    && forall i, j :: 0 <= i <= j < |d| ==> at[i] <= at[j]
  }

  /** Where each element of `d` went when repetitions were dropped. */
  lemma {:induction false} DestutterPositions<T>(d: seq<T>) returns (at: seq<nat>)
    ensures Traces(Destutter(d), d, at)
    ensures d != [] ==> Destutter(d) != [] && Last(at) == |Destutter(d)| - 1
  {
    if |d| <= 1 {
      at := seq(|d|, _ => 0);
    } else {
      at := DestutterPositions(Front(d));
      at := at + [if Last(d) == Last(Front(d)) then Last(at) else Last(at) + 1];
    }
  }

  lemma TracesCompose<T>(p: seq<T>, q: seq<T>, d: seq<T>, from: seq<nat>, at: seq<nat>) returns (both: seq<nat>)
    requires Traces(p, q, from) && Traces(q, d, at)
    ensures Traces(p, d, both)
  {
    both := seq(|d|, i requires 0 <= i < |d| => from[at[i]]);
  }

  /** The order without any helper: every delivery can be traced to a publication of the same value so that later
      deliveries never go back to earlier publications. */
  lemma TracedPositions<T>(p: seq<T>, d: seq<T>) returns (at: seq<nat>)
    requires IsSubsequence(Destutter(d), p)
    ensures Traces(p, d, at)
  {
    var kept := DestutterPositions(d);
    var from := SubsequencePositions(Destutter(d), p);
    at := TracesCompose(p, Destutter(d), d, from, kept);
  }
}
