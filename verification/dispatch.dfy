/**
 `Dispatcher._list_messages` and `Dispatcher.check_inbox` of
 inboxcourier/dispatch.py: pagination that passes each page token on and has
 no bound, and a check that hands the listed ids to the message handler.
 */
module Dispatch {
  import opened Values
  import opened Listing

  /** The first request: the query alone. */
  function FirstRequest(q: string): ListRequest {
    ListRequest(q, None, None)
  }

  /** A follow-up request: the query and the token of the response before it. */
  function FollowUp(q: string, previous: Response): ListRequest {
    ListRequest(q, None, previous.nextPageToken)
  }

  /**
   The requests thread the page tokens: the first carries none, and each later
   one carries the token of the response immediately before it, which had one.
   */
  predicate Threaded(script: seq<Response>, q: string, requests: seq<ListRequest>) {
    && |requests| >= 1
    && requests[0] == FirstRequest(q)
    && forall k | 1 <= k < |requests| ::
         && k - 1 < |script|
         && script[k - 1].nextPageToken.Some?
         && requests[k] == FollowUp(q, script[k - 1])
  }

  /** Every follow-up response among the first `n` carried the 'messages' key. */
  predicate PagesPresent(script: seq<Response>, n: nat)
    requires n <= |script|
  {
    forall k | 1 <= k < n :: script[k].messages.Some?
  }

  /** A request carrying the latest response's token keeps the log threaded. */
  lemma ThreadedExtend(script: seq<Response>, q: string, log: seq<ListRequest>)
    requires Threaded(script, q, log) && |log| <= |script|
    requires script[|log| - 1].nextPageToken.Some?
    ensures Threaded(script, q, log + [FollowUp(q, script[|log| - 1])])
  {
    var log' := log + [FollowUp(q, script[|log| - 1])];
    assert log'[0] == log[0];
    forall k | 1 <= k < |log'|
      ensures k - 1 < |script| && script[k - 1].nextPageToken.Some? && log'[k] == FollowUp(q, script[k - 1])
    {
      if k < |log| {
        assert log'[k] == log[k];
        assert log[k] == FollowUp(q, script[k - 1]);
      } else {
        assert log'[k] == FollowUp(q, script[|log| - 1]);
      }
    }
    assert |log'| >= 1 && log'[0] == FirstRequest(q);
    assert Threaded(script, q, log');
  }

  /** The loop, entered after `n` responses have been received and their messages collected in `acc`. */
  function Follow(script: seq<Response>, q: string, n: nat, acc: seq<MessageId>, log: seq<ListRequest>): (r: ListRun)
    requires 1 <= n <= |script|
    requires acc == Collected(script, n)
    requires |log| == n && Threaded(script, q, log)
    requires PagesPresent(script, n)
    ensures n <= |r.requests| <= |script| + 1
    ensures Threaded(script, q, r.requests)
    ensures r.outcome == Returned(None) <==> |r.requests| == |script| + 1
    ensures r.outcome == Returned(None) ==> PagesPresent(script, |script|)
    ensures r.outcome.Returned? && r.outcome.ids.Some? ==>
      && script[|r.requests| - 1].nextPageToken.None?
      && PagesPresent(script, |r.requests|)
      && r.outcome.ids.value == Collected(script, |r.requests|)
    ensures r.outcome.Raised? ==>
      && r.outcome.error == KeyError
      && 2 <= |r.requests| <= |script|
      && PagesPresent(script, |r.requests| - 1)
      && script[|r.requests| - 1].messages.None?
    decreases |script| - n
  {
    var latest := script[n - 1];
    if latest.nextPageToken.None? then
      ListRun(Returned(Some(acc)), log)
    else
      var log' := log + [FollowUp(q, latest)];
      ThreadedExtend(script, q, log);
      if n == |script| then
        ListRun(Returned(None), log')            // HttpError, caught and printed
      else if script[n].messages.None? then
        ListRun(Raised(KeyError), log')          // response['messages'] on a page without it
      else
        Follow(script, q, n + 1, acc + script[n].messages.value, log')
  }

  /** `_list_messages(query)`: only HttpError is caught; a KeyError escapes. */
  function ListMessages(script: seq<Response>, q: string): (r: ListRun)
    ensures 1 <= |r.requests| <= |script| + 1
    ensures Threaded(script, q, r.requests)
    ensures r.outcome == Returned(None) <==> |r.requests| == |script| + 1
    ensures r.outcome == Returned(None) ==> PagesPresent(script, |script|)
    ensures r.outcome.Returned? && r.outcome.ids.Some? ==>
      && script[|r.requests| - 1].nextPageToken.None?
      && PagesPresent(script, |r.requests|)
      && r.outcome.ids.value == Collected(script, |r.requests|)
    ensures r.outcome.Raised? ==>
      && r.outcome.error == KeyError
      && 2 <= |r.requests| <= |script|
      && PagesPresent(script, |r.requests| - 1)
      && script[|r.requests| - 1].messages.None?
  {
    if |script| == 0 then
      ListRun(Returned(None), [FirstRequest(q)])
    else
      Follow(script, q, 1, PageOf(script[0]), [FirstRequest(q)])
  }

  /**
   A follow-up request at position `k` means response `k - 1` carried a page
   token. Stated apart so that the stopping proof can use it in a branch that
   is then closed by `assert false` alone.
   */
  lemma TokenBeforeEachFollowUp(script: seq<Response>, q: string, requests: seq<ListRequest>, k: int)
    requires Threaded(script, q, requests) && 1 <= k < |requests|
    ensures k - 1 < |script| && script[k - 1].nextPageToken.Some?
  {
    assert requests[k] in requests;
  }

  /** The listing stops at response `n`: it is the first response without a page token. */
  predicate StopsAt(script: seq<Response>, n: nat) {
    && 1 <= n <= |script|
    && script[n - 1].nextPageToken.None?
    && forall k | 0 <= k < n - 1 :: script[k].nextPageToken.Some?
  }

  /** Without a page token on the first response exactly one call is made, returning its messages or []. */
  lemma SinglePage(script: seq<Response>, q: string)
    requires |script| != 0 && script[0].nextPageToken.None?
    ensures ListMessages(script, q) == ListRun(Returned(Some(PageOf(script[0]))), [FirstRequest(q)])
  {
    assert Collected(script, 1) == Collected(script, 0) + PageOf(script[0]);
  }

  /**
   When response `n` is the first without a page token, the listing makes
   exactly `n` calls and returns every page's messages concatenated in order,
   if and only if every follow-up page has the 'messages' key; otherwise the
   KeyError escapes.
   */
  lemma {:induction false} ListingStopsAtFirstTokenlessPage(script: seq<Response>, q: string, n: nat)
    requires StopsAt(script, n)
    ensures var r := ListMessages(script, q);
      PagesPresent(script, n) <==> r == ListRun(Returned(Some(Collected(script, n))), r.requests)
    ensures var r := ListMessages(script, q);
      PagesPresent(script, n) ==> |r.requests| == n
    ensures var r := ListMessages(script, q);
      !PagesPresent(script, n) ==> r.outcome == Raised(KeyError) && |r.requests| <= n
  {
    var r := ListMessages(script, q);
    var m := |r.requests|;
    // Every call but the last answered with a page token, so at most n calls are made.
    if m > n {
      TokenBeforeEachFollowUp(script, q, r.requests, n);
      assert false;
    }
    if r.outcome.Returned? && r.outcome.ids.Some? && m < n {
      assert false;
    }
    if r.outcome.Raised? && PagesPresent(script, n) {
      assert false;
    }
  }

  /** When every response carries a page token the script runs out: no list is returned. */
  lemma NoTokenlessPage(script: seq<Response>, q: string)
    requires forall k | 0 <= k < |script| :: script[k].nextPageToken.Some?
    ensures ListMessages(script, q).outcome.Raised? || ListMessages(script, q).outcome == Returned(None)
  {
  }

  /**
   `check_inbox(query, has_attachments)`: the listed ids (or None) go unchanged
   to the handler, whose result is returned; an escaped exception becomes None.
   */
  function CheckInbox<R>(script: seq<Response>, q: string, hasAttachments: bool,
                         process: (Option<seq<MessageId>>, bool) -> Option<R>): (r: Option<R>)
    ensures ListMessages(script, q).outcome.Raised? ==> r == None
    ensures ListMessages(script, q).outcome.Returned? ==>
      r == process(ListMessages(script, q).outcome.ids, hasAttachments)
  {
    match ListMessages(script, q).outcome
    case Raised(_) => None
    case Returned(ids) => process(ids, hasAttachments)
  }

  /**
   For a listing that stops at response `n`, the handler receives exactly the
   concatenated pages when they are all present, and a missing follow-up page
   makes the check return None.
   */
  lemma CheckInboxPassesPagesThrough<R>(script: seq<Response>, q: string, n: nat, hasAttachments: bool,
                                        process: (Option<seq<MessageId>>, bool) -> Option<R>)
    requires StopsAt(script, n)
    ensures PagesPresent(script, n) ==>
      CheckInbox(script, q, hasAttachments, process) == process(Some(Collected(script, n)), hasAttachments)
    ensures !PagesPresent(script, n) ==> CheckInbox(script, q, hasAttachments, process) == None
  {
    ListingStopsAtFirstTokenlessPage(script, q, n);
  }
}
