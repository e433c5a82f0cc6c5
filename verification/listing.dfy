/**
 The message-listing endpoint as both pagination loops see it. The endpoint
 is scripted: call number k (counting from 0) is answered by `script[k]`, and
 a call beyond the end of the script fails with HttpError, which stands for
 every failure of the remote call. Each run also records the arguments of
 every call it made, in order, including a call that failed.
 */
module Listing {
  import opened Values

  /** A message reference as listed (the `{'id': ...}` entries); the model keeps it opaque. */
  type MessageId = string

  /** One listing response: the optional 'messages' and 'nextPageToken' keys. */
  datatype Response = Response(messages: Option<seq<MessageId>>, nextPageToken: Option<string>)

  /** The arguments of one list call besides the fixed user id. */
  datatype ListRequest = ListRequest(q: string, maxResults: Option<int>, pageToken: Option<string>)

  /** How a listing function ended: it returned a list or None, or an exception escaped it. */
  datatype Outcome = Returned(ids: Option<seq<MessageId>>) | Raised(error: Error)

  /** The outcome of a listing run with the log of the list calls it made. */
  datatype ListRun = ListRun(outcome: Outcome, requests: seq<ListRequest>)

  /** The messages of a response, or none if the key is absent. */
  function PageOf(r: Response): seq<MessageId> {
    if r.messages.Some? then r.messages.value else []
  }

  /** The messages of the first `n` responses of the script, concatenated in order. */
  function Collected(script: seq<Response>, n: nat): seq<MessageId>
    requires n <= |script|
  {
    if n == 0 then [] else Collected(script, n - 1) + PageOf(script[n - 1])
  }
}
