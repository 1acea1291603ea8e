/** The two loops that share the capped backoff: registration with the environment agent, and the token
    refresh. */
module Registration {
  import opened Backoff
  import opened Basics
  import opened Numbers

  /** The outcome of one registration request. */
  datatype Reply = Status(code: int) | TransportError

  predicate Registered(r: Reply) { r == Status(200) || r == Status(201) }

  predicate Conflict(r: Reply) { r == Status(409) }

  /** A client error other than a conflict ends the loop. */
  predicate Fatal(r: Reply) { r.Status? && 400 <= r.code < 500 && r.code != 409 }

  predicate Retryable(r: Reply) { !Registered(r) && !Conflict(r) && !Fatal(r) }

  /** Retryable failures since the last success; a conflict neither counts nor resets. */
  function FailuresSince(replies: seq<Reply>): nat {
    if replies == [] then 0
    else if Registered(Last(replies)) then 0
    else FailuresSince(Front(replies)) + if Retryable(Last(replies)) then 1 else 0
  }

  datatype Timing = Timing(initial: int, maxBackoff: int, interval: int)

  /** The wait after the i-th reply. */
  function WaitAfter(t: Timing, replies: seq<Reply>, i: nat): int
    requires i < |replies|
  {
    if Retryable(replies[i]) then AfterFailures(t.initial, t.maxBackoff, FailuresSince(replies[..i])) else t.interval
  }

  /** How the backoff in force moves on with one more reply. */
  lemma NextReply(t: Timing, replies: seq<Reply>, i: nat)
    requires i < |replies|
    ensures var backoff := AfterFailures(t.initial, t.maxBackoff, FailuresSince(replies[..i]));
            AfterFailures(t.initial, t.maxBackoff, FailuresSince(replies[..i + 1])) ==
            if Registered(replies[i]) then t.initial
            else if Retryable(replies[i]) then Advance(backoff, t.maxBackoff) else backoff
  {
    assert Front(replies[..i + 1]) == replies[..i];
  }

  /** The four kinds of replies, by status code. */
  lemma ReplyKinds(r: Reply)
    ensures Registered(r) <==> r.Status? && (r.code == 200 || r.code == 201)
    ensures Fatal(r) <==> r.Status? && r.code / 100 == 4 && r.code != 409
    ensures Retryable(r) <==> r.TransportError? || (r.code / 100 != 4 && r.code != 200 && r.code != 201)
    ensures Conflict(r) <==> r.Status? && r.code == 409
  {
  }

  /** Doubling the largest backoff does not wrap. */
  predicate Doubles(initial: int, maxBackoff: int) {
    0 <= initial <= maxBackoff && 2 * maxBackoff <= MAX_INT64
  }

  /** A stretch of replies that starts afresh and brings no success. */
  predicate Afresh(replies: seq<Reply>, start: int, end: int) {
    && 0 <= start <= end <= |replies|
    && (start == 0 || Registered(replies[start - 1]))
    && forall i :: start <= i < end ==> !Registered(replies[i])
  }

  function RetryablesIn(replies: seq<Reply>, start: int, end: int): set<int>
    requires 0 <= start && end <= |replies|
  {
    set i | start <= i < end && Retryable(replies[i])
  }

  lemma OneMoreReply(replies: seq<Reply>, start: int, end: int)
    requires 0 <= start < end <= |replies|
    ensures |RetryablesIn(replies, start, end)|
         == |RetryablesIn(replies, start, end - 1)| + if Retryable(replies[end - 1]) then 1 else 0
  {
    var before := RetryablesIn(replies, start, end - 1);
    assert RetryablesIn(replies, start, end) == before + if Retryable(replies[end - 1]) then {end - 1} else {};
  }

  /** What is counted: the retryable failures since the last success, whatever lies between them. */
  lemma {:induction false} FailuresAreCounted(replies: seq<Reply>, start: nat, end: nat)
    requires Afresh(replies, start, end)
    ensures FailuresSince(replies[..end]) == |RetryablesIn(replies, start, end)|
    decreases end
  {
    if start < end {
      FailuresAreCounted(replies, start, end - 1);
      assert Front(replies[..end]) == replies[..end - 1] && Last(replies[..end]) == replies[end - 1];
      OneMoreReply(replies, start, end);
    } else {
      assert RetryablesIn(replies, start, end) == {};
      assert start > 0 ==> Last(replies[..end]) == replies[start - 1];
    }
  }

  /** runLoop, observed until the context ends in the wait that follows the last of `replies`, or a fatal reply
      ends it. */
  method RunLoop(t: Timing, replies: seq<Reply>) returns (waits: seq<int>, gaveUp: bool)
    ensures |waits| <= |replies|
            && forall i :: 0 <= i < |waits| ==> !Fatal(replies[i]) && waits[i] == WaitAfter(t, replies, i)
    ensures gaveUp <==> |waits| < |replies|
    ensures gaveUp ==> Fatal(replies[|waits|])
    ensures Doubles(t.initial, t.maxBackoff) ==>
              forall start, i :: Afresh(replies, start, i) && i < |waits| && Retryable(replies[i]) ==>
                waits[i] == Min(t.maxBackoff, t.initial * Pow2(|RetryablesIn(replies, start, i)|))
    ensures forall i :: 0 <= i < |waits| && !Retryable(replies[i]) ==> waits[i] == t.interval
  {
    if Doubles(t.initial, t.maxBackoff) {
      DoublingSinceSuccess(t, replies);
    }
    waits, gaveUp := [], false;
    var backoff := t.initial;
    for i := 0 to |replies|
      invariant |waits| == i && !gaveUp
      invariant forall j :: 0 <= j < i ==> !Fatal(replies[j]) && waits[j] == WaitAfter(t, replies, j)
      invariant backoff == AfterFailures(t.initial, t.maxBackoff, FailuresSince(replies[..i]))
    {
      NextReply(t, replies, i);
      var r := replies[i];
      if r.Status? && (r.code == 200 || r.code == 201) {
        backoff := t.initial;
        waits := waits + [t.interval];
        continue;
      } else if r.Status? && r.code == 409 {
        waits := waits + [t.interval];
        continue;
      } else if r.Status? && 400 <= r.code < 500 {
        return waits, true;
      }
      waits := waits + [backoff];
      backoff := Wrap64(2 * backoff);
      if backoff > t.maxBackoff {
        backoff := t.maxBackoff;
      }
    }
  }

  /** Over any history, the wait after a retryable failure preceded by n others since the last success is
      min(max, initial * 2^n), and every other wait is the re-registration interval. */
  lemma RetryWaits(t: Timing, replies: seq<Reply>, i: nat)
    requires i < |replies| && Doubles(t.initial, t.maxBackoff)
    ensures WaitAfter(t, replies, i) == if Retryable(replies[i])
                                        then Min(t.maxBackoff, t.initial * Pow2(FailuresSince(replies[..i])))
                                        else t.interval
  {
    BelowTheCap(t.initial, t.maxBackoff, FailuresSince(replies[..i]));
  }

  /** The wait after a retryable failure doubles with each earlier one since the last success, up to the cap. */
  lemma DoublingSinceSuccess(t: Timing, replies: seq<Reply>)
    requires Doubles(t.initial, t.maxBackoff)
    ensures forall start, i :: Afresh(replies, start, i) && i < |replies| && Retryable(replies[i]) ==>
              WaitAfter(t, replies, i) == Min(t.maxBackoff, t.initial * Pow2(|RetryablesIn(replies, start, i)|))
  {
    forall start, i | Afresh(replies, start, i) && i < |replies| && Retryable(replies[i])
      ensures WaitAfter(t, replies, i) == Min(t.maxBackoff, t.initial * Pow2(|RetryablesIn(replies, start, i)|))
    {
      FailuresAreCounted(replies, start, i);
      RetryWaits(t, replies, i);
    }
  }

  /** A success forgets all failures; a conflict forgets none. */
  lemma {:induction false} WhatResets(before: seq<Reply>, conflicts: seq<Reply>)
    requires forall i :: 0 <= i < |conflicts| ==> Conflict(conflicts[i])
    ensures FailuresSince(before + conflicts) == FailuresSince(before)
    ensures FailuresSince(before + [Status(200)] + conflicts) == 0
    ensures FailuresSince(before + [Status(201)] + conflicts) == 0
  {
    if conflicts == [] {
      assert before + conflicts == before;
      assert before + [Status(200)] + conflicts == before + [Status(200)];
      assert before + [Status(201)] + conflicts == before + [Status(201)];
    } else {
      WhatResets(before, Front(conflicts));
      assert Front(before + conflicts) == before + Front(conflicts);
      assert Front(before + [Status(200)] + conflicts) == before + [Status(200)] + Front(conflicts);
      assert Front(before + [Status(201)] + conflicts) == before + [Status(201)] + Front(conflicts);
      assert Conflict(Last(conflicts));
    }
  }

  // ----- the token loop

  const REFRESH_MARGIN: int := 30_000_000_000

  /** The outcome of one token fetch; `now` is the clock when the next wait is computed. */
  datatype Fetch = Fetched(token: string, expiry: int, now: int) | FetchFailed

  function FailedFetchesSince(fetches: seq<Fetch>): nat {
    if fetches == [] || Last(fetches).Fetched? then 0 else FailedFetchesSince(Front(fetches)) + 1
  }

  function RefreshWait(initial: int, maxBackoff: int, fetches: seq<Fetch>, i: nat): int
    requires i < |fetches|
  {
    match fetches[i]
    case FetchFailed => AfterFailures(initial, maxBackoff, FailedFetchesSince(fetches[..i]))
    case Fetched(_, expiry, now) => if expiry - now - REFRESH_MARGIN < 0 then 0 else expiry - now - REFRESH_MARGIN
  }

  /** Fetches `start` to `end` failed, and a success or nothing came before them. */
  predicate FailedSince(fetches: seq<Fetch>, start: int, end: int) {
    && 0 <= start <= end <= |fetches|
    && (start == 0 || fetches[start - 1].Fetched?)
    && forall i :: start <= i < end ==> fetches[i].FetchFailed?
  }

  lemma {:induction false} FailedFetchesAreCounted(fetches: seq<Fetch>, start: nat, end: nat)
    requires FailedSince(fetches, start, end)
    ensures FailedFetchesSince(fetches[..end]) == end - start
    decreases end
  {
    if start < end {
      FailedFetchesAreCounted(fetches, start, end - 1);
      assert Front(fetches[..end]) == fetches[..end - 1] && Last(fetches[..end]) == fetches[end - 1];
    } else {
      assert start > 0 ==> Last(fetches[..end]) == fetches[start - 1];
    }
  }

  /** The wait after a failed fetch doubles with each failure right before it, up to the cap. */
  lemma DoublingSinceFetch(initial: int, maxBackoff: int, fetches: seq<Fetch>)
    requires Doubles(initial, maxBackoff)
    ensures forall start, i :: FailedSince(fetches, start, i) && i < |fetches| && fetches[i].FetchFailed? ==>
              RefreshWait(initial, maxBackoff, fetches, i) == Min(maxBackoff, initial * Pow2(i - start))
  {
    forall start, i | FailedSince(fetches, start, i) && i < |fetches| && fetches[i].FetchFailed?
      ensures RefreshWait(initial, maxBackoff, fetches, i) == Min(maxBackoff, initial * Pow2(i - start))
    {
      FailedFetchesAreCounted(fetches, start, i);
      RefreshWaits(initial, maxBackoff, fetches, i);
    }
  }

  /** How the backoff in force moves on with one more fetch. */
  lemma NextFetch(initial: int, maxBackoff: int, fetches: seq<Fetch>, i: nat)
    requires i < |fetches|
    ensures var backoff := AfterFailures(initial, maxBackoff, FailedFetchesSince(fetches[..i]));
            AfterFailures(initial, maxBackoff, FailedFetchesSince(fetches[..i + 1])) ==
            if fetches[i].Fetched? then initial else Advance(backoff, maxBackoff)
  {
    assert Front(fetches[..i + 1]) == fetches[..i];
  }

  class Bootstrap {
    const initial: int
    const maxBackoff: int
    var token: string
    var expiresAt: int
    var haveToken: bool

    constructor (initial: int, maxBackoff: int)
      ensures this.initial == initial && this.maxBackoff == maxBackoff && !haveToken
    {
      this.initial, this.maxBackoff := initial, maxBackoff;
      token, expiresAt, haveToken := "", 0, false;
    }

    method SetToken(token: string, expiresAt: int)
      modifies this
      ensures this.token == token && this.expiresAt == expiresAt && haveToken
    {
      this.token, this.expiresAt, haveToken := token, expiresAt, true;
    }

    /** refreshLoop, observed until the context ends in the wait that follows the last of `fetches`. A failed
        fetch leaves the cached token alone. */
    method RefreshLoop(fetches: seq<Fetch>) returns (waits: seq<int>)
      modifies this
      ensures |waits| == |fetches|
              && forall i :: 0 <= i < |waits| ==> waits[i] == RefreshWait(initial, maxBackoff, fetches, i)
      ensures Doubles(initial, maxBackoff) ==>
                forall start, i :: FailedSince(fetches, start, i) && i < |fetches| && fetches[i].FetchFailed? ==>
                  waits[i] == Min(maxBackoff, initial * Pow2(i - start))
      ensures FailedSince(fetches, 0, |fetches|) ==>
                token == old(token) && expiresAt == old(expiresAt) && haveToken == old(haveToken)
      ensures forall start :: 0 < start && FailedSince(fetches, start, |fetches|) ==>
                haveToken && token == fetches[start - 1].token && expiresAt == fetches[start - 1].expiry
    {
      waits := [];
      var backoff := initial;
      ghost var since := 0;
      for i := 0 to |fetches|
        invariant |waits| == i && forall j :: 0 <= j < i ==> waits[j] == RefreshWait(initial, maxBackoff, fetches, j)
        invariant backoff == AfterFailures(initial, maxBackoff, FailedFetchesSince(fetches[..i]))
        invariant 0 <= since <= i && FailedSince(fetches, since, i)
        invariant if since == 0 then token == old(token) && expiresAt == old(expiresAt) && haveToken == old(haveToken)
                  else haveToken && token == fetches[since - 1].token && expiresAt == fetches[since - 1].expiry
      {
        NextFetch(initial, maxBackoff, fetches, i);
        match fetches[i] {
          case FetchFailed =>
            waits := waits + [backoff];
            backoff := Wrap64(2 * backoff);
            if backoff > maxBackoff {
              backoff := maxBackoff;
            }
          case Fetched(newToken, expiry, now) =>
            SetToken(newToken, expiry);
            since := i + 1;
            backoff := initial;
            var wait := expiry - now - REFRESH_MARGIN;
            if wait < 0 {
              wait := 0;
            }
            waits := waits + [wait];
        }
      }
      if Doubles(initial, maxBackoff) {
        DoublingSinceFetch(initial, maxBackoff, fetches);
      }
    }
  }

  /** After n consecutive failures the next failed fetch is followed by a wait of min(max, initial * 2^n); a
      token is refreshed a margin before it expires, at once if that has passed. */
  lemma RefreshWaits(initial: int, maxBackoff: int, fetches: seq<Fetch>, i: nat)
    requires i < |fetches| && Doubles(initial, maxBackoff)
    ensures var wait := RefreshWait(initial, maxBackoff, fetches, i);
            match fetches[i]
            case FetchFailed => wait == Min(maxBackoff, initial * Pow2(FailedFetchesSince(fetches[..i])))
            case Fetched(_, expiry, now) => wait >= 0 && now + wait >= expiry - REFRESH_MARGIN
                                            && (wait > 0 ==> now + wait == expiry - REFRESH_MARGIN)
  {
    BelowTheCap(initial, maxBackoff, FailedFetchesSince(fetches[..i]));
  }
}
