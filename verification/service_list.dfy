/**
 `Service._list_messages` of inboxcourier/service.py: pagination bounded by
 `max_messages` whose follow-up calls repeat the first request and never pass
 the page token on.
 */
module ServiceList {
  import opened Values
  import opened Listing

  /** `max_messages` is truthy: neither None nor 0. */
  predicate Bounded(maxMessages: Option<int>) {
    maxMessages.Some? && maxMessages.value != 0
  }

  /** The one request this function ever sends: the query, and `maxResults` when bounded. */
  function Request(q: string, maxMessages: Option<int>): ListRequest {
    ListRequest(q, if Bounded(maxMessages) then Some(maxMessages.value) else None, None)
  }

  /**
   The loop condition after `n` responses: the latest one has a page token,
   the bound is set, and fewer messages than the bound have been collected.
   */
  predicate Continues(script: seq<Response>, maxMessages: Option<int>, n: nat)
    requires 1 <= n <= |script|
  {
    && script[n - 1].nextPageToken.Some?
    && Bounded(maxMessages)
    && |Collected(script, n)| < maxMessages.value
  }

  /** Every request in the log is the same as the first one. */
  predicate Repeated(requests: seq<ListRequest>, q: string, maxMessages: Option<int>) {
    forall k | 0 <= k < |requests| :: requests[k] == Request(q, maxMessages)
  }

  /** The loop, entered after `n` responses have been received and their messages collected in `acc`. */
  function Follow(script: seq<Response>, q: string, maxMessages: Option<int>,
                  n: nat, acc: seq<MessageId>, log: seq<ListRequest>): (r: ListRun)
    requires 1 <= n <= |script|
    requires acc == Collected(script, n)
    requires |log| == n && Repeated(log, q, maxMessages)
    requires forall k | 1 <= k < n :: Continues(script, maxMessages, k)
    ensures n <= |r.requests| <= |script| + 1
    ensures Repeated(r.requests, q, maxMessages)
    ensures forall k | 1 <= k < |r.requests| && k <= |script| :: Continues(script, maxMessages, k)
    ensures r.outcome.Returned?
    ensures r.outcome.ids.None? <==> |r.requests| == |script| + 1
    ensures r.outcome.ids.Some? ==>
      && r.outcome.ids.value == Collected(script, |r.requests|)
      && !Continues(script, maxMessages, |r.requests|)
    decreases |script| - n
  {
    var latest := script[n - 1];
    if latest.nextPageToken.Some? && Bounded(maxMessages) && |acc| < maxMessages.value then
      var log' := log + [Request(q, maxMessages)];
      if n == |script| then
        ListRun(Returned(None), log')
      else
        Follow(script, q, maxMessages, n + 1, acc + PageOf(script[n]), log')
    else
      ListRun(Returned(Some(acc)), log)
  }

  /**
   `_list_messages(query_string, max_messages)`. Every exception is caught and
   turns into None, so nothing escapes.
   */
  function ListMessages(script: seq<Response>, q: string, maxMessages: Option<int>): (r: ListRun)
    ensures 1 <= |r.requests| <= |script| + 1
    ensures Repeated(r.requests, q, maxMessages)
    ensures forall k | 1 <= k < |r.requests| && k <= |script| :: Continues(script, maxMessages, k)
    ensures r.outcome.Returned?
    ensures r.outcome.ids.None? <==> |r.requests| == |script| + 1
    ensures r.outcome.ids.Some? ==>
      && r.outcome.ids.value == Collected(script, |r.requests|)
      && !Continues(script, maxMessages, |r.requests|)
    ensures !Bounded(maxMessages) ==> |r.requests| == 1
    ensures !Bounded(maxMessages) && |script| != 0 ==> r.outcome == Returned(Some(PageOf(script[0])))
  {
    var first := [Request(q, maxMessages)];
    if |script| == 0 then ListRun(Returned(None), first)
    else Follow(script, q, maxMessages, 1, PageOf(script[0]), first)
  }

  /**
   On return the loop condition has failed: the latest response has no page
   token, or the bound is unset, or at least `max_messages` ids were collected.
   */
  lemma StopsAtBoundOrLastPage(script: seq<Response>, q: string, maxMessages: Option<int>)
    requires ListMessages(script, q, maxMessages).outcome.ids.Some?
    ensures var r := ListMessages(script, q, maxMessages);
      var n := |r.requests|;
      || script[n - 1].nextPageToken.None?
      || !Bounded(maxMessages)
      || |r.outcome.ids.value| >= maxMessages.value
  {
  }

  /** `max_messages == 0` behaves exactly like None: one call, no bound, no `maxResults`. */
  lemma ZeroMaxIsUnbounded(script: seq<Response>, q: string)
    ensures ListMessages(script, q, Some(0)) == ListMessages(script, q, None)
  {
  }

  /** The result is never cut back to the bound: one page of three ids under a bound of two yields all three. */
  lemma ResultMayExceedBound()
    ensures ListMessages([Response(Some(["a", "b", "c"]), Some("t"))], "q", Some(2))
      == ListRun(Returned(Some(["a", "b", "c"])), [ListRequest("q", Some(2), None)])
  {
    var script := [Response(Some(["a", "b", "c"]), Some("t"))];
    assert Collected(script, 1) == Collected(script, 0) + ["a", "b", "c"];
  }

  /**
   The page token is never sent, so an endpoint that answers the same request
   the same way serves the first page again and its ids are collected twice.
   */
  lemma RepeatsFirstPage()
    ensures var page := Response(Some(["a"]), Some("t"));
      ListMessages([page, page], "q", Some(2))
        == ListRun(Returned(Some(["a", "a"])), [ListRequest("q", Some(2), None), ListRequest("q", Some(2), None)])
  {
    var page := Response(Some(["a"]), Some("t"));
    var script := [page, page];
    assert Collected(script, 1) == ["a"] by {
      assert Collected(script, 1) == Collected(script, 0) + ["a"];
    }
    assert Collected(script, 2) == ["a", "a"];
  }

  lemma {:induction false} NothingCollected(script: seq<Response>, n: nat)
    requires n <= |script|
    requires forall j | 0 <= j < |script| :: PageOf(script[j]) == []
    ensures Collected(script, n) == []
    decreases n
  {
    if n != 0 {
      NothingCollected(script, n - 1);
      assert PageOf(script[n - 1]) == [];
      assert Collected(script, n) == Collected(script, n - 1) + PageOf(script[n - 1]);
    }
  }

  /**
   Pages that carry a token but no ids never bring the count up to a positive
   bound, and the same request is sent each time. A real endpoint that keeps
   answering it the same way is called forever. Against `k` such pages the run
   makes k + 1 identical calls, and the last one fails.
   */
  lemma TokenOnlyPagesNeverStop(k: nat, q: string, bound: int)
    requires bound > 0
    ensures var script := seq(k, _ => Response(None, Some("t")));
      ListMessages(script, q, Some(bound)) == ListRun(Returned(None), seq(k + 1, _ => Request(q, Some(bound))))
  {
    var script := seq(k, _ => Response(None, Some("t")));
    var r := ListMessages(script, q, Some(bound));
    forall n | 0 <= n <= k
      ensures Collected(script, n) == []
    {
      NothingCollected(script, n);
    }
    assert r.outcome.ids.None?;
    assert r.requests == seq(k + 1, _ => Request(q, Some(bound)));
  }
}
