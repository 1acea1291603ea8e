/** How the poller pages through a whole listing, against any server. */
module PageDrain {
  import opened Basics
  import opened Numbers

  const PAGE_LIMIT: nat := 100

  /** One response: the items received and the total the server claims. */
  datatype Page<+T> = Page(items: seq<T>, total: int)

  /** The reply to the n-th call when asked for an offset; None is an error or a timeout. Nothing ties one reply
      to another. */
  type Server<!T> = (nat, int) -> Option<Page<T>>

  // ----- the loop

  /** The offset the loop asks for in its n-th call, in its own 32-bit arithmetic. */
  ghost function Asked<T>(server: Server<T>, n: nat): int {
    if n == 0 then 0
    else
      var offset := Asked(server, n - 1);
      match server(n - 1, offset) case Some(page) => Wrap32(offset + |page.items|) case None => offset
  }

  /** The items of the first `n` replies. */
  ghost function Collected<T>(server: Server<T>, n: nat): seq<T> {
    if n == 0 then []
    else Collected(server, n - 1)
         + match server(n - 1, Asked(server, n - 1)) case Some(page) => page.items case None => []
  }

  /** The n-th reply leads to another call: it is not a failure, not empty, and claims a total beyond the next
      offset. */
  ghost predicate GoesOn<T>(server: Server<T>, n: nat) {
    var reply := server(n, Asked(server, n));
    reply.Some? && reply.value.items != [] && Asked(server, n + 1) < reply.value.total
  }

  /** The loop makes an n-th call. */
  ghost predicate Reaches<T>(server: Server<T>, n: nat) {
    forall m: nat :: m < n ==> GoesOn(server, m)
  }

  ghost predicate NeverEnds<T>(server: Server<T>) {
    forall n: nat :: GoesOn(server, n)
  }

  /** Call `n` is made, and adding what it yields to the offset leaves 32 bits. */
  ghost predicate OverflowsAt<T>(server: Server<T>, n: nat) {
    && Reaches(server, n) && server(n, Asked(server, n)).Some?
    && Asked(server, n) + |server(n, Asked(server, n)).value.items| > MAX_INT32
  }

  ghost predicate Overflows<T>(server: Server<T>) {
    exists n: nat :: OverflowsAt(server, n)
  }

  /** The listing that ends with its `calls`-th call: everything received, or nothing if that reply is a failure. */
  ghost predicate IsListing<T>(server: Server<T>, all: Option<seq<T>>, calls: nat) {
    && calls > 0 && Reaches(server, calls - 1) && !GoesOn(server, calls - 1)
    && all == match server(calls - 1, Asked(server, calls - 1))
              case None => None
              case Some(_) => Some(Collected(server, calls))
  }

  /** listClusters and listComputeInstances, against every server for which they end: the loop stops at the
      first reply that ends a listing and returns everything received, or nothing if that reply is a failure. */
  method ListAll<T(!new)>(server: Server<T>) returns (all: Option<seq<T>>, calls: nat)
    requires !NeverEnds(server)
    ensures IsListing(server, all, calls)
  {
    var items: seq<T> := [];
    var offset := 0;
    calls := 0;
    ghost var last: nat :| !GoesOn(server, last);
    while true
      invariant items == Collected(server, calls) && offset == Asked(server, calls) && Reaches(server, calls)
      decreases last - calls
    {
      var reply := server(calls, offset);
      calls := calls + 1;
      if reply.None? {
        return None, calls;
      }
      items := items + reply.value.items;
      if |reply.value.items| == 0 {
        return Some(items), calls;
      }
      offset := Wrap32(offset + |reply.value.items|);
      if offset >= reply.value.total {
        return Some(items), calls;
      }
    }
  }

  // ----- any server with bounded totals

  /** Pages respect the requested limit, and no claimed total exceeds `bound`. */
  ghost predicate Within<T(!new)>(server: Server<T>, bound: int) {
    forall n, offset :: server(n, offset).Some? ==>
      |server(n, offset).value.items| <= PAGE_LIMIT && server(n, offset).value.total <= bound
  }

  /** The largest total that leaves room for one more page. */
  const LARGEST_TOTAL: int := MAX_INT32 - (PAGE_LIMIT - 1)

  /** With totals that leave room, the offset is the exact number of items received, at every call. */
  lemma {:induction false} OffsetCountsItems<T(!new)>(server: Server<T>, n: nat)
    requires Within(server, LARGEST_TOTAL) && Reaches(server, n)
    ensures n <= Asked(server, n) == |Collected(server, n)| < LARGEST_TOTAL
  {
    if n > 0 {
      OffsetCountsItems(server, n - 1);
      assert GoesOn(server, n - 1);
    }
  }

  lemma RoomIsEnough<T(!new)>(server: Server<T>)
    requires Within(server, LARGEST_TOTAL)
    ensures !NeverEnds(server) && !Overflows(server)
  {
    if NeverEnds(server) {
      OffsetCountsItems(server, MAX_INT32);
      assert false;
    }
    forall n: nat ensures !OverflowsAt(server, n) {
      if Reaches(server, n) {
        OffsetCountsItems(server, n);
      }
    }
  }

  /** A server that leads the offset to exactly LARGEST_TOTAL and then sends a full page. */
  function Adversary<T>(x: T, total: int): Server<T> {
    (n, offset) =>
      var size := if LARGEST_TOTAL - PAGE_LIMIT < offset < LARGEST_TOTAL then LARGEST_TOTAL - offset else PAGE_LIMIT;
      Some(Page(Repeated(x, size), total))
  }

  function Repeated<T>(x: T, n: nat): (s: seq<T>)
    ensures |s| == n
  {
    seq(n, _ => x)
  }

  lemma {:induction false} AdversaryStays<T>(x: T, total: int, n: nat)
    ensures -MAX_INT32 - 1 <= Asked(Adversary(x, total), n) <= LARGEST_TOTAL
  {
    if n > 0 {
      AdversaryStays(x, total, n - 1);
    }
  }

  lemma {:induction false} AdversaryClimbs<T>(x: T, total: int, n: nat)
    requires 100 * n <= LARGEST_TOTAL
    ensures Asked(Adversary(x, total), n) == 100 * n
  {
    if n > 0 {
      AdversaryClimbs(x, total, n - 1);
    }
  }

  lemma AdversaryWins<T(!new)>(x: T, total: int)
    requires LARGEST_TOTAL < total
    ensures Within(Adversary(x, total), total)
    ensures NeverEnds(Adversary(x, total)) && Overflows(Adversary(x, total))
  {
    var server := Adversary(x, total);
    forall n: nat ensures GoesOn(server, n) {
      AdversaryStays(x, total, n + 1);
    }
    var n := (LARGEST_TOTAL) / 100;
    AdversaryClimbs(x, total, n);
    assert Asked(server, n + 1) == LARGEST_TOTAL;
    assert OverflowsAt(server, n + 1);
  }

  /** How large a total a server may claim: against some server that respects the page limit and claims at most
      `bound` the offset overflows, and against some it never ends, if and only if `bound` leaves less than one page of
      room. */
  lemma OverflowExactlyWithoutRoom<T(!new)>(x: T, bound: int)
    ensures (exists server: Server<T> :: Within(server, bound) && Overflows(server)) <==> bound > LARGEST_TOTAL
    ensures (exists server: Server<T> :: Within(server, bound) && NeverEnds(server)) <==> bound > LARGEST_TOTAL
  {
    if bound > LARGEST_TOTAL {
      AdversaryWins(x, bound);
    } else {
      forall server: Server<T> | Within(server, bound) ensures !Overflows(server) && !NeverEnds(server) {
        assert Within(server, LARGEST_TOTAL);
        RoomIsEnough(server);
      }
    }
  }

  lemma {:induction false} FullPagesStayEven<T(!new)>(server: Server<T>, n: nat)
    requires forall m, offset :: server(m, offset).Some? && |server(m, offset).value.items| == PAGE_LIMIT
    ensures Asked(server, n) % 2 == 0 && -MAX_INT32 - 1 <= Asked(server, n) < MAX_INT32
  {
    if n > 0 {
      FullPagesStayEven(server, n - 1);
    }
  }

  /** Against full pages and a claimed total of MaxInt32 the loop never ends: the offset stays even, so it wraps
      without ever reaching the total. */
  lemma FullPagesNeverReachMaxInt32<T(!new)>(server: Server<T>)
    requires forall m, offset :: server(m, offset).Some? && |server(m, offset).value.items| == PAGE_LIMIT
                                 && server(m, offset).value.total == MAX_INT32
    ensures NeverEnds(server)
  {
    forall n: nat ensures GoesOn(server, n) {
      FullPagesStayEven(server, n + 1);
    }
  }

  // ----- an honest server

  /** Whenever it answers, the server reports the size of `xs` and a prefix of what lies beyond the offset, not
      empty unless nothing does. */
  ghost predicate Serves<T(!new)>(server: Server<T>, xs: seq<T>) {
    forall n: nat, offset: int :: 0 <= offset <= |xs| && server(n, offset).Some? ==>
      && server(n, offset).value.total == |xs|
      && server(n, offset).value.items <= xs[offset..]
      && (offset < |xs| ==> server(n, offset).value.items != [])
  }

  lemma {:induction false} CollectedIsPrefix<T(!new)>(server: Server<T>, xs: seq<T>, n: nat)
    requires Serves(server, xs) && |xs| <= MAX_INT32
    ensures Collected(server, n) <= xs && Asked(server, n) == |Collected(server, n)|
  {
    if n > 0 {
      CollectedIsPrefix(server, xs, n - 1);
      var sofar := Collected(server, n - 1);
      assert xs == sofar + xs[|sofar|..];
    }
  }

  /** A listing that does not fail is the whole sequence, in order, once. */
  lemma HonestListingIsComplete<T(!new)>(server: Server<T>, xs: seq<T>, all: seq<T>, calls: nat)
    requires Serves(server, xs) && |xs| <= MAX_INT32
    requires IsListing(server, Some(all), calls)
    ensures all == xs
  {
    CollectedIsPrefix(server, xs, calls - 1);
    CollectedIsPrefix(server, xs, calls);
  }

  lemma {:induction false} HonestProgress<T(!new)>(server: Server<T>, xs: seq<T>, n: nat)
    requires Serves(server, xs) && |xs| <= MAX_INT32 && Reaches(server, n)
    ensures n <= |Collected(server, n)| && (n > 0 ==> n < |xs|)
  {
    if n > 0 {
      HonestProgress(server, xs, n - 1);
      CollectedIsPrefix(server, xs, n - 1);
      CollectedIsPrefix(server, xs, n);
      assert GoesOn(server, n - 1);
    }
  }

  /** Against a stable server the loop ends, whatever page sizes it chooses and however often it fails; a
      listing that did not fail is the whole sequence, after at most one call per item, or one for none. */
  method DrainHonest<T(!new)>(server: Server<T>, ghost xs: seq<T>) returns (all: Option<seq<T>>, calls: nat)
    requires Serves(server, xs) && |xs| <= MAX_INT32
    ensures all.Some? ==> all.value == xs
    ensures (forall n, offset :: server(n, offset).Some?) ==> all == Some(xs)
    ensures calls == 1 || calls <= |xs|
  {
    if NeverEnds(server) {
      HonestProgress(server, xs, |xs| + 1);
      assert false;
    }
    all, calls := ListAll(server);
    HonestProgress(server, xs, calls - 1);
    if all.Some? {
      HonestListingIsComplete(server, xs, all.value, calls);
    }
  }
}
