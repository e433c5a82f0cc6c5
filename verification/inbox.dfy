/**
 `Service.check_inbox` of inboxcourier/service.py: list the matching ids,
 then for each id in order append its contents and mark it read by removing
 the UNREAD label.
 */
module Inbox {
  import opened Values
  import opened Listing
  import opened Mime
  import ServiceList
  import Extract

  /** A label update object: the labels to remove and the labels to add. */
  datatype LabelUpdate = LabelUpdate(removeLabelIds: seq<string>, addLabelIds: seq<string>)

  const Unread := "UNREAD"

  /** The update `MessageHandler._mark_as_read` sends: remove UNREAD, add nothing. */
  const MarkRead := LabelUpdate([Unread], [])

  /** `_create_message_labels`: an update that changes nothing. */
  function CreateMessageLabels(): LabelUpdate {
    LabelUpdate([], [])
  }

  /** `_remove_unread_label`: UNREAD appended to the labels to remove; the labels to add untouched. */
  function RemoveUnreadLabel(labels: LabelUpdate): (r: LabelUpdate)
    ensures r.removeLabelIds == labels.removeLabelIds + [Unread]
    ensures r.addLabelIds == labels.addLabelIds
  {
    labels.(removeLabelIds := labels.removeLabelIds + [Unread])
  }

  /** Both implementations mark a message read with the same update. */
  lemma ServiceUpdateIsMarkRead()
    ensures RemoveUnreadLabel(CreateMessageLabels()) == MarkRead
  {
  }

  /** What the batch did, in order: appended the contents for an id, or sent a label update for it. */
  datatype Event = Appended(id: MessageId) | Modified(id: MessageId, labels: LabelUpdate)

  /** Every label update comes right after the contents of the same id were appended. */
  predicate ModifiedAfterAppended(events: seq<Event>) {
    forall j | 0 <= j < |events| && events[j].Modified? :: j >= 1 && events[j - 1] == Appended(events[j].id)
  }

  /** What `_get_message` yields for one id. */
  datatype Fetch =
    | Raw(root: Part)        // the raw message, decoded and parsed into its part tree
    | Missing                // HttpError, caught: `_get_message` returns None
    | Escaped(error: Error)  // any other exception, e.g. a response without 'raw'

  /** How handling one id ended: the contents to append, or the exception that escaped. */
  datatype Handled = Contents(body: Option<string>) | Aborted(error: Error)

  /**
   `_get_message` followed by `_get_message_contents(has_attachments, message)`.
   In attachment mode the contents look up `self._get_filename`, which the
   service does not define, so AttributeError escapes whatever was fetched.
   In body mode `_get_body` catches the failure on a missing message itself
   and gives None.
   */
  function Handle(hasAttachments: bool, fetched: Fetch): Handled {
    match fetched
    case Escaped(e) => Aborted(e)
    case Missing => if hasAttachments then Aborted(AttributeError) else Contents(None)
    case Raw(root) => if hasAttachments then Aborted(AttributeError) else Contents(Some(TreeText(root, "text")))
  }

  /** The handling of one fetched message, computing the body with the service's `_get_body`. */
  method GetMessageContents(hasAttachments: bool, fetched: Fetch) returns (r: Handled)
    ensures r == Handle(hasAttachments, fetched)
    ensures hasAttachments ==> r.Aborted?
  {
    match fetched {
      case Escaped(e) =>
        r := Aborted(e);
      case Missing =>
        r := if hasAttachments then Aborted(AttributeError) else Contents(None);
      case Raw(root) =>
        if hasAttachments {
          r := Aborted(AttributeError);
        } else {
          var body := Extract.GetBody(root);
          r := Contents(Some(body));
        }
    }
  }

  /** The first `n` ids were each appended and then marked read, in order, and nothing else happened. */
  predicate MarkedInOrder(ids: seq<MessageId>, events: seq<Event>, n: nat) {
    && n <= |ids|
    && |events| == 2 * n
    && forall k | 0 <= k < n ::
         events[2 * k] == Appended(ids[k]) && events[2 * k + 1] == Modified(ids[k], MarkRead)
  }

  /**
   `check_inbox(query_string, has_attachments, max_messages)`. Fetching an id
   is the parameter `fetch`. When the listing returns None, iterating it
   raises TypeError, which is caught: the result is None and no message is
   touched. An exception while handling an id is caught the same way: the
   result is None, and the `handled` ids before it have already been marked
   read.
   */
  method CheckInbox(script: seq<Response>, q: string, hasAttachments: bool, maxMessages: Option<int>,
                    fetch: MessageId -> Fetch)
    returns (messages: Option<seq<Option<string>>>, events: seq<Event>, handled: nat)
    ensures var listed := ServiceList.ListMessages(script, q, maxMessages).outcome.ids;
      listed.None? ==> messages.None? && events == [] && handled == 0
    ensures var listed := ServiceList.ListMessages(script, q, maxMessages).outcome.ids;
      listed.Some? ==>
        && MarkedInOrder(listed.value, events, handled)
        && forall k | 0 <= k < handled :: Handle(hasAttachments, fetch(listed.value[k])).Contents?
    ensures var listed := ServiceList.ListMessages(script, q, maxMessages).outcome.ids;
      listed.Some? && handled < |listed.value| ==>
        Handle(hasAttachments, fetch(listed.value[handled])).Aborted? && messages.None?
    ensures var listed := ServiceList.ListMessages(script, q, maxMessages).outcome.ids;
      listed.Some? && handled == |listed.value| ==>
        && messages.Some?
        && |messages.value| == |listed.value|
        && forall k | 0 <= k < |listed.value| :: messages.value[k] == Handle(hasAttachments, fetch(listed.value[k])).body
    ensures hasAttachments ==> handled == 0 && events == []
    ensures ModifiedAfterAppended(events)
  {
    var listed := ServiceList.ListMessages(script, q, maxMessages).outcome.ids;
    if listed.None? {
      return None, [], 0;
    }
    var ids := listed.value;
    var acc: seq<Option<string>> := [];
    events, handled := [], 0;
    while handled < |ids|
      invariant MarkedInOrder(ids, events, handled)
      invariant |acc| == handled
      invariant forall k | 0 <= k < handled ::
        && Handle(hasAttachments, fetch(ids[k])).Contents?
        && acc[k] == Handle(hasAttachments, fetch(ids[k])).body
      invariant ModifiedAfterAppended(events)
      invariant hasAttachments ==> handled == 0
    {
      var contents := GetMessageContents(hasAttachments, fetch(ids[handled]));
      if contents.Aborted? {
        return None, events, handled;
      }
      acc := acc + [contents.body];
      events := events + [Appended(ids[handled])];
      var labels := RemoveUnreadLabel(CreateMessageLabels());
      events := events + [Modified(ids[handled], labels)];
      handled := handled + 1;
    }
    messages := Some(acc);
  }
}
