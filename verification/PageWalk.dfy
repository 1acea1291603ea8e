/** The REST listings: one page per request, chained by tokens. Clusters and virtual machines share this
    code. */
module PageWalk {
  import opened Basics
  import opened Numbers
  import opened PageDrain
  import opened PageTokens

  const MAX_PAGE_SIZE: int := 100
  const DEFAULT_PAGE_SIZE: int := 50

  /** None is the InvalidArgument error. */
  function NormalizeMaxPageSize(value: Option<int>, defaultSize: int): (size: Option<int>)
    ensures size.None? <==> value.Some? && value.value < 0
    ensures size.Some? && 0 < defaultSize <= MAX_PAGE_SIZE ==> 0 < size.value <= MAX_PAGE_SIZE
    ensures size.Some? && size != value ==>
              size.value == if value == None || value == Some(0) then defaultSize else MAX_PAGE_SIZE
    ensures value.Some? && 0 < value.value <= MAX_PAGE_SIZE ==> size == value
  {
    if value.None? || value.value == 0 then Some(defaultSize)
    else if value.value < 0 then None
    else if value.value > MAX_PAGE_SIZE then Some(MAX_PAGE_SIZE)
    else value
  }

  /** The reply to the n-th request for `limit` items from `offset`. */
  type Backend<!T> = (nat, int, int) -> Option<Page<T>>

  datatype Listing<+U> =
    | Listed(results: seq<U>, next: Option<string>)
    | InvalidArgument
    | Failed

  function Mapped<T, U>(translate: T -> U, items: seq<T>): seq<U> {
    seq(|items|, i requires 0 <= i < |items| => translate(items[i]))
  }

  function OffsetOf(token: Option<string>): Option<int> {
    if token.None? || token.value == "" then Some(0) else DecodePageToken(token.value)
  }

  function PageAt<T, U>(translate: T -> U, page: Page<T>, offset: int): Listing<U> {
    var following := Wrap32(offset + |page.items|);
    Listed(Mapped(translate, page.items),
           if page.items != [] && following < page.total then Some(EncodePageToken(following)) else None)
  }

  function ListPage<T, U>(backend: Backend<T>, n: nat, translate: T -> U, maxPageSize: Option<int>,
                          token: Option<string>): (r: Listing<U>)
    ensures r.InvalidArgument? <==> (maxPageSize.Some? && maxPageSize.value < 0)
                                    || (token.Some? && token.value != "" && DecodePageToken(token.value).None?)
    ensures r.Listed? && r.next.Some? ==> r.results != []
  {
    match (NormalizeMaxPageSize(maxPageSize, DEFAULT_PAGE_SIZE), OffsetOf(token))
    case (None, _) => InvalidArgument
    case (Some(_), None) => InvalidArgument
    case (Some(limit), Some(offset)) =>
      match backend(n, limit, offset)
      case None => Failed
      case Some(page) => PageAt(translate, page, offset)
  }

  /** The loop of List. */
  method Translate<T, U>(translate: T -> U, items: seq<T>) returns (results: seq<U>)
    ensures results == Mapped(translate, items)
  {
    results := [];
    for i := 0 to |items|
      invariant |results| == i && forall j :: 0 <= j < i ==> results[j] == translate(items[j])
    {
      results := results + [translate(items[i])];
    }
  }

  method List<T, U>(backend: Backend<T>, n: nat, translate: T -> U, maxPageSize: Option<int>, token: Option<string>)
    returns (r: Listing<U>)
    ensures r == ListPage(backend, n, translate, maxPageSize, token)
  {
    var limit := NormalizeMaxPageSize(maxPageSize, DEFAULT_PAGE_SIZE);
    if limit.None? {
      return InvalidArgument;
    }
    var offset := 0;
    if token.Some? && token.value != "" {
      var decoded := DecodePageToken(token.value);
      if decoded.None? {
        return InvalidArgument;
      }
      offset := decoded.value;
    }
    var reply := backend(n, limit.value, offset);
    if reply.None? {
      return Failed;
    }
    r := Answer(translate, reply.value, offset);
  }

  /** The second half of List. */
  method Answer<T, U>(translate: T -> U, page: Page<T>, offset: int) returns (r: Listing<U>)
    ensures r == PageAt(translate, page, offset)
  {
    var results := Translate(translate, page.items);
    var next := None;
    if |results| > 0 {
      var following := Wrap32(offset + |results|);
      if following < page.total {
        next := Some(EncodePageToken(following));
      }
    }
    r := Listed(results, next);
  }

  // ----- the size of a page

  /** No reply is longer than what was asked for. */
  ghost predicate RespectsLimit<T(!new)>(backend: Backend<T>) {
    forall n, limit, offset :: limit > 0 && backend(n, limit, offset).Some? ==>
      |backend(n, limit, offset).value.items| <= limit
  }

  /** A page holds at most what the client asked for, at most 100, and at most 50 if it did not ask. */
  lemma PageIsNoLongerThanAsked<T(!new), U(!new)>(backend: Backend<T>, n: nat, translate: T -> U,
                                                  maxPageSize: Option<int>, token: Option<string>)
    requires RespectsLimit(backend) && ListPage(backend, n, translate, maxPageSize, token).Listed?
    ensures var got := |ListPage(backend, n, translate, maxPageSize, token).results|;
            && got <= 100
            && (maxPageSize.Some? && maxPageSize.value > 0 ==> got <= maxPageSize.value)
            && (maxPageSize.None? || maxPageSize == Some(0) ==> got <= 50)
  {
  }

  /** The backend holds `xs` and fills its pages. */
  ghost predicate Fills<T(!new)>(backend: Backend<T>, xs: seq<T>) {
    forall n: nat, limit: int, offset: int :: limit > 0 && 0 <= offset <= |xs| ==>
      backend(n, limit, offset) ==
      Some(Page(xs[offset..if offset + limit <= |xs| then offset + limit else |xs|], |xs|))
  }

  /** From a backend that fills its pages a request gets exactly the requested number of items that follow its
      offset, or all that are left, translated one by one; and a token exactly if more are left. */
  lemma FullPage<T(!new), U(!new)>(backend: Backend<T>, xs: seq<T>, n: nat, translate: T -> U, maxPageSize: Option<int>,
                                   token: Option<string>, offset: nat)
    requires Fills(backend, xs) && |xs| <= MAX_INT32
    requires OffsetOf(token) == Some(offset) && offset <= |xs|
    requires maxPageSize.None? || maxPageSize.value >= 0
    ensures var page := ListPage(backend, n, translate, maxPageSize, token);
            var asked := if maxPageSize.None? || maxPageSize.value == 0 then 50
                         else if maxPageSize.value > 100 then 100 else maxPageSize.value;
            && page.Listed?
            && |page.results| == (if asked <= |xs| - offset then asked else |xs| - offset)
            && (forall j :: 0 <= j < |page.results| ==> page.results[j] == translate(xs[offset + j]))
            && (page.next.Some? <==> asked < |xs| - offset)
  {
    var limit := NormalizeMaxPageSize(maxPageSize, DEFAULT_PAGE_SIZE).value;
    var end := if offset + limit <= |xs| then offset + limit else |xs|;
    assert ListPage(backend, n, translate, maxPageSize, token)
        == PageAt(translate, Page(xs[offset..end], |xs|), offset);
    PageOfSlice(translate, xs, offset, end);
  }

  lemma PageOfSlice<T, U>(translate: T -> U, xs: seq<T>, offset: nat, end: nat)
    requires offset <= end <= |xs| <= MAX_INT32
    ensures var page := PageAt(translate, Page(xs[offset..end], |xs|), offset);
            && page.Listed? && |page.results| == end - offset
            && (forall j :: 0 <= j < |page.results| ==> page.results[j] == translate(xs[offset + j]))
            && (page.next.Some? <==> offset < end < |xs|)
  {
  }

  // ----- following the tokens

  /** A stable backend: it always answers with the true total and a prefix of what lies beyond the offset, no
      longer than the limit, and not empty unless nothing does. */
  ghost predicate Stable<T(!new)>(backend: Backend<T>, xs: seq<T>) {
    forall n: nat, limit: int, offset: int :: limit > 0 && 0 <= offset <= |xs| ==>
      && backend(n, limit, offset).Some?
      && backend(n, limit, offset).value.total == |xs|
      && backend(n, limit, offset).value.items <= xs[offset..]
      && |backend(n, limit, offset).value.items| <= limit
      && (offset < |xs| ==> backend(n, limit, offset).value.items != [])
  }

  /** The token a client sends with its i-th request: none at first, then the one of the page before. */
  function TokenAt<U>(pages: seq<Listing<U>>, i: nat): Option<string>
    requires i <= |pages|
  {
    if i == 0 || !pages[i - 1].Listed? then None else pages[i - 1].next
  }

  ghost predicate IsRequest<T, U>(backend: Backend<T>, translate: T -> U, sizes: nat -> Option<int>,
                                  pages: seq<Listing<U>>, i: nat)
    requires i < |pages|
  {
    && (i > 0 ==> TokenAt(pages, i).Some?)
    && pages[i] == ListPage(backend, i, translate, sizes(i), TokenAt(pages, i))
  }

  /** A client's requests, following the tokens, with any acceptable page size each time. */
  ghost predicate IsWalk<T, U>(backend: Backend<T>, translate: T -> U, sizes: nat -> Option<int>,
                               pages: seq<Listing<U>>) {
    forall i :: 0 <= i < |pages| ==> IsRequest(backend, translate, sizes, pages, i)
  }

  lemma WalkFront<T, U>(backend: Backend<T>, translate: T -> U, sizes: nat -> Option<int>, pages: seq<Listing<U>>)
    requires IsWalk(backend, translate, sizes, pages) && pages != []
    ensures IsWalk(backend, translate, sizes, Front(pages))
  {
    forall j | 0 <= j < |pages| - 1 ensures IsRequest(backend, translate, sizes, Front(pages), j) {
      assert IsRequest(backend, translate, sizes, pages, j);
    }
  }

  ghost function Results<U>(pages: seq<Listing<U>>): seq<U> {
    if pages == [] then []
    else Results(Front(pages)) + if Last(pages).Listed? then Last(pages).results else []
  }

  ghost predicate Acceptable(sizes: nat -> Option<int>) {
    forall i :: sizes(i).Some? ==> sizes(i).value >= 0
  }

  lemma MappedPrefix<T, U>(translate: T -> U, xs: seq<T>, start: nat, items: seq<T>)
    requires start <= |xs| && items <= xs[start..]
    ensures start + |items| <= |xs|
    ensures Mapped(translate, xs[..start + |items|]) == Mapped(translate, xs[..start]) + Mapped(translate, items)
  {
    assert forall j :: 0 <= j < |items| ==> items[j] == xs[start + j];
  }

  /** One page continues where its token points. */
  lemma OnePage<T(!new), U(!new)>(backend: Backend<T>, xs: seq<T>, translate: T -> U, sizes: nat -> Option<int>,
                  i: nat, token: Option<string>, start: nat)
    requires Stable(backend, xs) && |xs| <= MAX_INT32 && Acceptable(sizes)
    requires OffsetOf(token) == Some(start) && start <= |xs|
    ensures var page := ListPage(backend, i, translate, sizes(i), token);
            && page.Listed?
            && var got := start + |page.results|;
               && got <= |xs| && Mapped(translate, xs[..got]) == Mapped(translate, xs[..start]) + page.results
               && (start < |xs| ==> start < got)
               && page.next == (if got < |xs| then Some(EncodePageToken(got)) else None)
  {
    var limit := NormalizeMaxPageSize(sizes(i), DEFAULT_PAGE_SIZE).value;
    var page := backend(i, limit, start).value;
    MappedPrefix(translate, xs, start, page.items);
    assert ListPage(backend, i, translate, sizes(i), token).results == Mapped(translate, page.items);
  }

  /** What the client has after a page `last`: a prefix, translated, item by item and in order; and a token,
      standing for the number of items received, exactly while something is missing. */
  ghost predicate HasPrefix<T, U>(xs: seq<T>, translate: T -> U, results: seq<U>, last: Listing<U>) {
    && |results| <= |xs| && results == Mapped(translate, xs[..|results|])
    && last.Listed?
    && last.next == (if |results| < |xs| then Some(EncodePageToken(|results|)) else None)
  }

  /** One more page: it continues where the token of the page before points, and brings something unless there is
      nothing. */
  lemma NextPage<T(!new), U(!new)>(backend: Backend<T>, xs: seq<T>, translate: T -> U, sizes: nat -> Option<int>,
                                   i: nat, sofar: seq<U>, last: Listing<U>)
    requires Stable(backend, xs) && |xs| <= MAX_INT32 && Acceptable(sizes)
    requires HasPrefix(xs, translate, sofar, last) && last.next.Some?
    ensures var page := ListPage(backend, i, translate, sizes(i), last.next);
            page.Listed? && HasPrefix(xs, translate, sofar + page.results, page) && page.results != []
  {
    TokenRoundTrip(|sofar|);
    OnePage(backend, xs, translate, sizes, i, last.next, |sofar|);
  }

  lemma FirstPage<T(!new), U(!new)>(backend: Backend<T>, xs: seq<T>, translate: T -> U, sizes: nat -> Option<int>)
    requires Stable(backend, xs) && |xs| <= MAX_INT32 && Acceptable(sizes)
    ensures var page := ListPage(backend, 0, translate, sizes(0), None);
            page.Listed? && HasPrefix(xs, translate, page.results, page) && (xs != [] ==> page.results != [])
  {
    OnePage(backend, xs, translate, sizes, 0, None, 0);
  }

  /** After any number of pages the client has a prefix; every page increases it, unless there is nothing and
      one empty page says so. */
  lemma {:induction false} WalkSoFar<T(!new), U(!new)>(backend: Backend<T>, xs: seq<T>, translate: T -> U,
                                                       sizes: nat -> Option<int>, pages: seq<Listing<U>>)
    requires Stable(backend, xs) && |xs| <= MAX_INT32 && Acceptable(sizes)
    requires IsWalk(backend, translate, sizes, pages) && pages != []
    ensures HasPrefix(xs, translate, Results(pages), Last(pages))
    ensures xs != [] ==> |Results(Front(pages))| < |Results(pages)| && |pages| <= |Results(pages)|
    ensures xs == [] ==> |pages| == 1
    decreases |pages|
  {
    var i := |pages| - 1;
    assert IsRequest(backend, translate, sizes, pages, i);
    if i == 0 {
      FirstPage(backend, xs, translate, sizes);
    } else {
      WalkFront(backend, translate, sizes, pages);
      WalkSoFar(backend, xs, translate, sizes, Front(pages));
      assert TokenAt(pages, i) == Last(Front(pages)).next;
      NextPage(backend, xs, translate, sizes, i, Results(Front(pages)), Last(Front(pages)));
    }
  }

  /** A walk that has come to a page without a token has yielded every item once, in order. */
  lemma FinishedWalkIsComplete<T(!new), U(!new)>(backend: Backend<T>, xs: seq<T>, translate: T -> U,
                                 sizes: nat -> Option<int>, pages: seq<Listing<U>>)
    requires Stable(backend, xs) && |xs| <= MAX_INT32 && Acceptable(sizes)
    requires IsWalk(backend, translate, sizes, pages) && pages != []
    requires Last(pages).Listed? && Last(pages).next.None?
    ensures Results(pages) == Mapped(translate, xs)
    ensures |pages| <= if xs == [] then 1 else |xs|
  {
    WalkSoFar(backend, xs, translate, sizes, pages);
    assert xs[..|xs|] == xs;
  }

  /** A walk that has a token can go on, and each page's token stands for a larger offset than the last; so
      every walk finishes. */
  lemma UnfinishedWalkGoesOn<T(!new), U(!new)>(backend: Backend<T>, xs: seq<T>, translate: T -> U,
                               sizes: nat -> Option<int>, pages: seq<Listing<U>>)
    requires Stable(backend, xs) && |xs| <= MAX_INT32 && Acceptable(sizes)
    requires IsWalk(backend, translate, sizes, pages) && pages != []
    requires Last(pages).Listed? && Last(pages).next.Some?
    ensures var longer := pages + [ListPage(backend, |pages|, translate, sizes(|pages|), Last(pages).next)];
            && IsWalk(backend, translate, sizes, longer) && Last(longer).Listed?
            && |Results(pages)| < |Results(longer)| <= |xs|
            && DecodePageToken(Last(pages).next.value) == Some(|Results(pages)|)
            && (Last(longer).next.Some? ==> DecodePageToken(Last(longer).next.value) == Some(|Results(longer)|))
  {
    WalkSoFar(backend, xs, translate, sizes, pages);
    var i := |pages|;
    var longer := pages + [ListPage(backend, i, translate, sizes(i), Last(pages).next)];
    WalkLonger(backend, translate, sizes, pages);
    assert Front(longer) == pages;
    WalkSoFar(backend, xs, translate, sizes, longer);
    TokenRoundTrip(|Results(pages)|);
    TokenRoundTrip(|Results(longer)|);
  }

  lemma WalkLonger<T, U>(backend: Backend<T>, translate: T -> U, sizes: nat -> Option<int>, pages: seq<Listing<U>>)
    requires IsWalk(backend, translate, sizes, pages) && pages != []
    requires Last(pages).Listed? && Last(pages).next.Some?
    ensures IsWalk(backend, translate, sizes,
              pages + [ListPage(backend, |pages|, translate, sizes(|pages|), Last(pages).next)])
  {
    var longer := pages + [ListPage(backend, |pages|, translate, sizes(|pages|), Last(pages).next)];
    forall j | 0 <= j < |longer| ensures IsRequest(backend, translate, sizes, longer, j) {
      if j < |pages| {
        assert IsRequest(backend, translate, sizes, pages, j);
      }
    }
  }
}
