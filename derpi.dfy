/** Search of derpi/derpi.go: requests successive pages of search results
    and emits the images of each page, one by one, until a request fails, a
    page is empty, decoding fails six times in a row or the context is
    cancelled.

    The server is a stream of responses: rs[j] is what the j-th request
    (0-based) gets back. The channel is an event log recording, in order,
    every request (with its page number) and every image sent. Cancellation
    is a point in that log: ctx.Done() is checked before each request and
    before each send, and a context cancelled from check k on lets exactly
    the first k checks pass. */
module Derpi {
  import opened GoStrings

  /** What one request yields: http.Get fails, the body does not decode, or
      a page of raw image records (possibly empty). */
  datatype Response<T> = TransportError | DecodeError | Page(items: seq<T>)

  /** The context: never cancelled, or cancelled so that the check numbered
      `checks` (0-based) and every later one sees ctx.Done(). */
  datatype Context = Background | CancelledAfter(checks: nat)

  /** What the goroutine does that the caller can observe. */
  datatype Event<T> = Request(page: nat) | Send(item: T)

  const MaxDecodeRetries: nat := 5

  /** Check number `n` sees ctx.Done(). */
  predicate Observed(ctx: Context, n: nat) {
    ctx.CancelledAfter? && n >= ctx.checks
  }

  // ------------------------------------------------ the uncancelled run

  function PageItems<T>(r: Response<T>): seq<T> {
    if r.Page? then r.items else []
  }

  predicate NonEmpty<T>(r: Response<T>) {
    r.Page? && |r.items| > 0
  }

  /** How many of the first `n` responses are non-empty pages: each one moves
      `page` on by one. */
  function NonEmptyPages<T>(rs: seq<Response<T>>, n: nat): nat
    requires n <= |rs|
  {
    if n == 0 then 0 else NonEmptyPages(rs, n - 1) + (if NonEmpty(rs[n - 1]) then 1 else 0)
  }

  /** The number of decode failures that end the first `n` responses. */
  function Streak<T>(rs: seq<Response<T>>, n: nat): nat
    requires n <= |rs|
  {
    if n == 0 || !rs[n - 1].DecodeError? then 0 else Streak(rs, n - 1) + 1
  }

  /** After the j-th response the loop goes on to another request: the page
      was not empty, or the body did not decode and fewer than five retries
      had been used before. */
  predicate Continues<T>(rs: seq<Response<T>>, j: nat)
    requires j < |rs|
  {
    match rs[j]
    case TransportError => false
    case DecodeError => Streak(rs, j + 1) <= MaxDecodeRetries
    case Page(items) => |items| > 0
  }

  /** Some response in `rs` ends the run, so `rs` covers every request. */
  predicate Stops<T>(rs: seq<Response<T>>) {
    exists j :: 0 <= j < |rs| && !Continues(rs, j)
  }

  /** The first response from `from` on that ends the run. */
  function FirstStop<T>(rs: seq<Response<T>>, from: nat): (k: nat)
    requires from <= |rs| && exists j :: from <= j < |rs| && !Continues(rs, j)
    ensures from <= k < |rs| && !Continues(rs, k)
    ensures forall j :: from <= j < k ==> Continues(rs, j)
    decreases |rs| - from
  {
    if !Continues(rs, from) then from else FirstStop(rs, from + 1)
  }

  function Sends<T>(items: seq<T>): seq<Event<T>> {
    seq(|items|, i requires 0 <= i < |items| => Send(items[i]))
  }

  /** The events of an uncancelled run over the first `n` responses: each
      request asks for the page after the non-empty pages so far and is
      followed by the items of its response. */
  function Render<T>(rs: seq<Response<T>>, n: nat): seq<Event<T>>
    requires n <= |rs|
  {
    if n == 0 then []
    else Render(rs, n - 1) + [Request(1 + NonEmptyPages(rs, n - 1))] + Sends(PageItems(rs[n - 1]))
  }

  /** Everything an uncancelled Search does: the responses up to and
      including the first one that ends the run. */
  function Full<T>(rs: seq<Response<T>>): seq<Event<T>>
    requires Stops(rs)
  {
    Render(rs, FirstStop(rs, 0) + 1)
  }

  /** What a run under `ctx` lets through of the uncancelled events. */
  function Cut<T>(events: seq<Event<T>>, ctx: Context): seq<Event<T>> {
    if ctx.CancelledAfter? && ctx.checks < |events| then events[..ctx.checks] else events
  }

  /** The items sent, in order. */
  function Sent<T>(events: seq<Event<T>>): seq<T> {
    if events == [] then []
    else
      var last := events[|events| - 1];
      Sent(events[..|events| - 1]) + (if last.Send? then [last.item] else [])
  }

  /** The pages requested, in order. */
  function Requests<T>(events: seq<Event<T>>): seq<nat> {
    if events == [] then []
    else
      var last := events[|events| - 1];
      Requests(events[..|events| - 1]) + (if last.Request? then [last.page] else [])
  }

  /** The items of the first `n` responses, in order. */
  function Items<T>(rs: seq<Response<T>>, n: nat): seq<T>
    requires n <= |rs|
  {
    if n == 0 then [] else Items(rs, n - 1) + PageItems(rs[n - 1])
  }

  // ------------------------------------------------------------ Search

  /** Search: the goroutine's loop, with the channel replaced by the event
      log; `closes` counts the deferred close(ch). `requests` is the number
      of http.Get calls so far, which is also the index of the next response
      in `rs`. */
  method Search<T>(rs: seq<Response<T>>, ctx: Context)
    returns (events: seq<Event<T>>, closes: nat)
    requires Stops(rs)
    ensures events == Cut(Full(rs), ctx)
    ensures closes == 1
  {
    var page: nat := 1;
    var retries: nat := 0;
    var requests: nat := 0;
    events, closes := [], 0;
    ghost var stop := FirstStop(rs, 0);
    while true
      invariant requests <= stop
      invariant page == 1 + NonEmptyPages(rs, requests)
      invariant retries == Streak(rs, requests)
      invariant events == Render(rs, requests)
      invariant ctx.CancelledAfter? ==> |events| <= ctx.checks
      decreases stop - requests
    {
      if Observed(ctx, |events|) {
        Interrupted(rs, requests, events, ctx);
        break;
      }
      var r := rs[requests];
      RenderStep(rs, requests);
      events := events + [Request(page)];
      requests := requests + 1;
      match r {
        case TransportError =>
          Finished(rs, requests - 1, events, ctx);
          break;
        case DecodeError =>
          if retries < MaxDecodeRetries {
            retries := retries + 1;
            NotYetStopped(rs, requests - 1);
            continue;
          }
          Finished(rs, requests - 1, events, ctx);
          break;
        case Page(items) =>
          retries := 0;
          if |items| == 0 {
            Finished(rs, requests - 1, events, ctx);
            break;
          }
          page := page + 1;
          NotYetStopped(rs, requests - 1);
          assert Render(rs, requests) == events + Sends(items);
          var cancelled;
          events, cancelled := SendItems(events, items, ctx);
          if cancelled {
            Interrupted(rs, requests, events, ctx);
            break;
          }
      }
    }
    closes := closes + 1;
  }

  /** The inner `for` loop of Search: before each item ctx.Done() is checked,
      and a check that sees cancellation stops the goroutine. Without it the
      whole page is sent, in order. */
  method SendItems<T>(head: seq<Event<T>>, items: seq<T>, ctx: Context)
    returns (events: seq<Event<T>>, cancelled: bool)
    requires ctx.CancelledAfter? ==> |head| <= ctx.checks
    ensures !cancelled ==> events == head + Sends(items)
    ensures cancelled ==> IsPrefix(events, head + Sends(items)) && Observed(ctx, |events|)
    ensures ctx.CancelledAfter? ==> |events| <= ctx.checks
  {
    events, cancelled := head, false;
    for i := 0 to |items|
      invariant events == head + Sends(items[..i])
      invariant ctx.CancelledAfter? ==> |events| <= ctx.checks
    {
      if Observed(ctx, |events|) {
        SendsPrefix(head, items, i);
        return events, true;
      }
      SendsAppend(items, i);
      events := events + [Send(items[i])];
    }
    assert items[..|items|] == items;
  }

  /** What one more response adds to the page count, the retry streak and
      the events. */
  lemma RenderStep<T>(rs: seq<Response<T>>, n: nat)
    requires n < |rs|
    ensures NonEmptyPages(rs, n + 1) == NonEmptyPages(rs, n) + (if NonEmpty(rs[n]) then 1 else 0)
    ensures Streak(rs, n + 1) == (if rs[n].DecodeError? then Streak(rs, n) + 1 else 0)
    ensures Render(rs, n + 1) == Render(rs, n) + [Request(1 + NonEmptyPages(rs, n))] + Sends(PageItems(rs[n]))
  {
  }

  lemma RequestsAppend<T>(events: seq<Event<T>>, e: Event<T>)
    ensures Requests(events + [e]) == Requests(events) + (if e.Request? then [e.page] else [])
  {
    assert (events + [e])[..|events|] == events;
  }

  lemma SendsAppend<T>(items: seq<T>, i: nat)
    requires i < |items|
    ensures Sends(items[..i + 1]) == Sends(items[..i]) + [Send(items[i])]
  {
  }

  lemma SendsPrefix<T>(head: seq<Event<T>>, items: seq<T>, i: nat)
    requires i <= |items|
    ensures IsPrefix(head + Sends(items[..i]), head + Sends(items))
  {
    assert (head + Sends(items))[..|head| + i] == head + Sends(items[..i]);
  }

  /** A response after which the loop goes on is not the one that ends it. */
  lemma NotYetStopped<T>(rs: seq<Response<T>>, n: nat)
    requires Stops(rs) && n <= FirstStop(rs, 0) && n < |rs| && Continues(rs, n)
    ensures n < FirstStop(rs, 0)
  {
  }

  /** The run ended at response n without cancellation: those are all the
      events of the uncancelled run, and `ctx` cuts none of them. */
  lemma Finished<T>(rs: seq<Response<T>>, n: nat, events: seq<Event<T>>, ctx: Context)
    requires Stops(rs) && n <= FirstStop(rs, 0) && n < |rs| && !Continues(rs, n)
    requires events == Render(rs, n + 1)
    requires ctx.CancelledAfter? ==> |events| <= ctx.checks
    ensures events == Cut(Full(rs), ctx)
  {
  }

  /** The run was cut off by a check that saw cancellation, with the events
      so far a prefix of those for the first n responses. */
  lemma Interrupted<T>(rs: seq<Response<T>>, n: nat, events: seq<Event<T>>, ctx: Context)
    requires Stops(rs) && n <= FirstStop(rs, 0) + 1
    requires IsPrefix(events, Render(rs, n))
    requires Observed(ctx, |events|) && |events| <= ctx.checks
    ensures events == Cut(Full(rs), ctx)
  {
    RenderPrefix(rs, n, FirstStop(rs, 0) + 1);
    PrefixTransitive(events, Render(rs, n), Full(rs));
  }

  lemma PrefixTransitive<T>(a: seq<T>, b: seq<T>, c: seq<T>)
    requires IsPrefix(a, b) && IsPrefix(b, c)
    ensures IsPrefix(a, c)
  {
    assert c[..|a|] == c[..|b|][..|a|];
  }

  /** The events for fewer responses are a prefix of those for more. */
  lemma {:induction false} RenderPrefix<T>(rs: seq<Response<T>>, n: nat, m: nat)
    requires n <= m <= |rs|
    ensures IsPrefix(Render(rs, n), Render(rs, m))
    decreases m - n
  {
    if n < m {
      RenderPrefix(rs, n, m - 1);
      PrefixTransitive(Render(rs, n), Render(rs, m - 1), Render(rs, m));
    }
  }

  // ------------------------------------------------------------ properties

  lemma {:induction false} RequestsConcat<T>(a: seq<Event<T>>, b: seq<Event<T>>)
    ensures Requests(a + b) == Requests(a) + Requests(b)
    decreases |b|
  {
    if b != [] {
      var b' := b[..|b| - 1];
      assert (a + b)[..|a + b| - 1] == a + b';
      assert (a + b)[|a + b| - 1] == b[|b| - 1];
      RequestsConcat(a, b');
      assert Requests(a + b) == Requests(a + b') + Requests([b[|b| - 1]]);
      assert Requests(b) == Requests(b') + Requests([b[|b| - 1]]);
    } else {
      assert a + b == a;
    }
  }

  lemma {:induction false} SentConcat<T>(a: seq<Event<T>>, b: seq<Event<T>>)
    ensures Sent(a + b) == Sent(a) + Sent(b)
    decreases |b|
  {
    if b != [] {
      var b' := b[..|b| - 1];
      assert (a + b)[..|a + b| - 1] == a + b';
      assert (a + b)[|a + b| - 1] == b[|b| - 1];
      SentConcat(a, b');
      assert Sent(a + b) == Sent(a + b') + Sent([b[|b| - 1]]);
      assert Sent(b) == Sent(b') + Sent([b[|b| - 1]]);
    } else {
      assert a + b == a;
    }
  }

  /** A page's items are sent as they are, and request nothing. */
  lemma {:induction false} SendsContents<T>(items: seq<T>)
    ensures Sent(Sends(items)) == items
    ensures Requests(Sends(items)) == []
    decreases |items|
  {
    if items != [] {
      var init := items[..|items| - 1];
      assert Sends(items)[..|items| - 1] == Sends(init);
      SendsContents(init);
    }
  }

  /** One request and its page add the page number to the requests and the
      page's items to the items sent. */
  lemma EventsStep<T>(e: seq<Event<T>>, p: nat, items: seq<T>)
    ensures Requests(e + [Request(p)] + Sends(items)) == Requests(e) + [p]
    ensures Sent(e + [Request(p)] + Sends(items)) == Sent(e) + items
  {
    RequestsConcat(e + [Request(p)], Sends(items));
    SentConcat(e + [Request(p)], Sends(items));
    RequestsAppend(e, Request(p));
    var req: seq<Event<T>> := [Request(p)];
    assert Sent(req) == [] by {
      assert req[..0] == [];
    }
    SentConcat(e, req);
    SendsContents(items);
  }

  /** Request j asks for page 1 + (the number of non-empty pages before it). */
  lemma {:induction false} RequestedPages<T>(rs: seq<Response<T>>, n: nat)
    requires n <= |rs|
    ensures |Requests(Render(rs, n))| == n
    ensures forall j :: 0 <= j < n ==> Requests(Render(rs, n))[j] == 1 + NonEmptyPages(rs, j)
  {
    if n > 0 {
      RequestedPages(rs, n - 1);
      EventsStep(Render(rs, n - 1), 1 + NonEmptyPages(rs, n - 1), PageItems(rs[n - 1]));
    }
  }

  /** The first request is for page 1, a non-empty page moves the next
      request on by one page, and anything else (in particular a decode
      failure that is retried) requests the same page again. */
  lemma PageProgression<T>(rs: seq<Response<T>>, n: nat)
    requires n <= |rs|
    ensures |Requests(Render(rs, n))| == n
    ensures n > 0 ==> Requests(Render(rs, n))[0] == 1
    ensures forall j :: 0 < j < n ==>
      Requests(Render(rs, n))[j] == Requests(Render(rs, n))[j - 1] + (if NonEmpty(rs[j - 1]) then 1 else 0)
  {
    RequestedPages(rs, n);
  }

  /** Without cancellation, the items sent are those of all pages, in order,
      each once. */
  lemma {:induction false} SentItems<T>(rs: seq<Response<T>>, n: nat)
    requires n <= |rs|
    ensures Sent(Render(rs, n)) == Items(rs, n)
  {
    if n > 0 {
      SentItems(rs, n - 1);
      EventsStep(Render(rs, n - 1), 1 + NonEmptyPages(rs, n - 1), PageItems(rs[n - 1]));
    }
  }

  /** Under any context, the items sent are a prefix of the items of the
      pages the uncancelled run fetches, and all of them when the context is
      never cancelled. */
  lemma SentUnderCancellation<T>(rs: seq<Response<T>>, ctx: Context)
    requires Stops(rs)
    ensures IsPrefix(Sent(Cut(Full(rs), ctx)), Items(rs, FirstStop(rs, 0) + 1))
    ensures ctx.Background? ==> Sent(Cut(Full(rs), ctx)) == Items(rs, FirstStop(rs, 0) + 1)
  {
    var full := Full(rs);
    var cut := Cut(full, ctx);
    SentItems(rs, FirstStop(rs, 0) + 1);
    assert full == cut + full[|cut|..];
    SentConcat(cut, full[|cut|..]);
  }

  /** The run ends at a transport failure, at an empty page, or at a sixth
      decode failure in a row; no decode failure before it is a sixth one. */
  lemma StopReasons<T>(rs: seq<Response<T>>)
    requires Stops(rs)
    ensures var k := FirstStop(rs, 0);
      || rs[k].TransportError?
      || (rs[k].Page? && rs[k].items == [])
      || (rs[k].DecodeError? && Streak(rs, k + 1) == MaxDecodeRetries + 1)
    ensures forall j :: 0 < j <= FirstStop(rs, 0) ==> Streak(rs, j) <= MaxDecodeRetries
  {
    var k := FirstStop(rs, 0);
    forall j | 0 < j <= k ensures Streak(rs, j) <= MaxDecodeRetries {
      assert Continues(rs, j - 1);
    }
    if rs[k].DecodeError? && k > 0 && rs[k - 1].DecodeError? {
      assert Continues(rs, k - 1);
    }
  }

  /** `k` decode failures in a row before position n make a streak of at
      least `k`. */
  lemma {:induction false} StreakOfFailures<T>(rs: seq<Response<T>>, n: nat, k: nat)
    requires k <= n <= |rs|
    requires forall i :: n - k <= i < n ==> rs[i].DecodeError?
    ensures Streak(rs, n) >= k
  {
    if k > 0 {
      StreakOfFailures(rs, n - 1, k - 1);
    }
  }

  /** Six decode failures in a row end the run at the latest with the sixth:
      no seventh request follows. */
  lemma SixthDecodeFailureStops<T>(rs: seq<Response<T>>, j: nat)
    requires Stops(rs) && j + MaxDecodeRetries + 1 <= |rs|
    requires forall i :: j <= i <= j + MaxDecodeRetries ==> rs[i].DecodeError?
    ensures FirstStop(rs, 0) <= j + MaxDecodeRetries
  {
    StreakOfFailures(rs, j + MaxDecodeRetries + 1, MaxDecodeRetries + 1);
    assert !Continues(rs, j + MaxDecodeRetries);
  }

  /** Pages of 50, 50 and 20 items followed by an empty page: four requests,
      for pages 1 to 4, and 120 items. */
  lemma ThreePagesThenEmpty<T>(a: seq<T>, b: seq<T>, c: seq<T>)
    requires |a| == 50 && |b| == 50 && |c| == 20
    ensures var rs := [Page(a), Page(b), Page(c), Page([])];
      && Stops(rs)
      && FirstStop(rs, 0) == 3
      && Requests(Full(rs)) == [1, 2, 3, 4]
      && Sent(Full(rs)) == a + b + c
      && |Sent(Full(rs))| == 120
  {
    var rs := [Page(a), Page(b), Page(c), Page([])];
    assert !Continues(rs, 3);
    assert Continues(rs, 0) && Continues(rs, 1) && Continues(rs, 2);
    assert FirstStop(rs, 0) == 3;
    RequestedPages(rs, 4);
    SentItems(rs, 4);
    assert Items(rs, 1) == a;
    assert Items(rs, 2) == a + b;
    assert Items(rs, 3) == a + b + c;
    assert Items(rs, 4) == a + b + c;
    var pages := Requests(Full(rs));
    assert pages[0] == 1 && pages[1] == 2 && pages[2] == 3 && pages[3] == 4;
  }
}
