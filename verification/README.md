# inboxcourier core in Dafny

inboxcourier polls a Gmail inbox. It lists the message ids matching a search
query, fetches each raw message, extracts its text body or its attachments,
marks it read by removing the `UNREAD` label, and hands the result to the
caller. The result is either a list of per-message contents or a delivery
dictionary built by a `Payload` record. This project models the logic of
that pipeline. The data it works on comes from the Gmail API and the Python
email parser, so it enters the model as parameters.

- `values.dfy` (`Values`): the Python values the record accepts, with Python
  truthiness; an `Option`; the exceptions the core raises; bytes.
- `payload.dfy` (`Payloads`): `AttachmentPart.load`, `Payload`'s setters and
  `deliver`. A setter that raises is a `Step` with the exception and the
  record left as it was.
- `mime.dfy` (`Mime`): the parsed message as a tree of MIME parts, its
  depth-first `walk()`, and the text and attachment filters over it.
- `handler.dfy` (`Handler`): `MessageHandler._get_body` and
  `MessageHandler._get_attachments`.
- `extract.dfy` (`Extract`): `Service._get_body`, `Service._get_attachments`
  and `Service.get_filename`.
- `listing.dfy` (`Listing`): list responses and requests.
  - The list endpoint is a scripted sequence of responses. Call `k` is
    answered by response `k`.
  - A call past the end of the script raises `HttpError`.
- `service_list.dfy` (`ServiceList`): `Service._list_messages`. Its pagination
  is bounded by `max_messages` and never passes the page token on.
- `dispatch.dfy` (`Dispatch`): `Dispatcher._list_messages`, which threads the
  page token and has no bound, and `Dispatcher.check_inbox`.
- `inbox.dfy` (`Inbox`): `Service.check_inbox`, the contents it computes for
  each id, and the label update that marks a message read. In attachment
  mode `_get_message_contents` looks up `self._get_filename`, which does not
  exist. So `check_inbox` with `has_attachments` true returns None for every
  non-empty listing, before marking anything read.
- `scenario.dfy` (`Scenario`): a two-part message traced through both
  extractors and through delivery.

The model follows the code as written. In particular:

- `Service._list_messages`:
  - never sends the page token: every follow-up request repeats the first one;
  - never cuts the result back to `max_messages`;
  - treats `max_messages == 0` like None, making one unbounded call and
    returning the first page.
- `MessageHandler._get_body` sets `text_body` to `''` when the text parts are
  all empty. `deliver` then leaves `text_body` out.
- The `data` of an attachment built by `MessageHandler._get_attachments` is
  the byte count returned by `BytesIO.write`, not the bytes.
- Both filename-based attachment tests accept any part that has a
  `Content-Disposition` header and a non-empty filename. They also accept
  `inline` parts.

## Model

| member | source | states |
|---|---|---|
| Payloads.WithField | inboxcourier/message.py:49-71 | a plain setter replaces exactly the named field and keeps every other field and the attachment list |
| Payloads.AddSender | inboxcourier/message.py:49-50 | add_sender overwrites the sender with any value and changes nothing else |
| Payloads.AddSubject | inboxcourier/message.py:64-65 | add_subject overwrites the subject with any value and changes nothing else |
| Payloads.AddTextBody | inboxcourier/message.py:67-68 | add_text_body overwrites the text body with any value and changes nothing else |
| Payloads.AddHtmlBody | inboxcourier/message.py:70-71 | add_html_body overwrites the html body with any value and changes nothing else |
| Payloads.AddCc | inboxcourier/message.py:52-56 | a list value is stored as cc; for any other value TypeError is raised and the record is unchanged |
| Payloads.AddBcc | inboxcourier/message.py:58-62 | a list value is stored as bcc; for any other value TypeError is raised and the record is unchanged |
| Payloads.AddAttachment | inboxcourier/message.py:73-77 | an AttachmentPart is appended at the end of the attachment list; for any other value TypeError is raised and the record is unchanged |
| Payloads.Load | inboxcourier/message.py:13-17 | the loaded form is a dictionary with exactly the keys filename and data |
| Payloads.LoadRoundTrip | inboxcourier/message.py:13-17 | the loaded dictionary holds the attachment's filename and data: reading it back gives the same attachment |
| Payloads.LoadAll | inboxcourier/message.py:44-46 | loading a list keeps its length and loads each element in place |
| Payloads.LoadAllRoundTrip | inboxcourier/message.py:44-46 | the loaded list reads back as the original attachment list, in order |
| Payloads.Deliver | inboxcourier/message.py:30-47 | each of from, cc, bcc, subject, text_body and html_body is present exactly when its field is truthy, with that field's value; attachments is present exactly when the list is non-empty, holding the loaded attachments; no other key appears |
| Payloads.DeliverFresh | inboxcourier/message.py:20-47 | a freshly made record delivers the empty dictionary |
| Payloads.DeliveredAttachments | inboxcourier/message.py:44-46 | the delivered attachments value is a list that reads back as exactly the record's attachment list |
| Payloads.DeliverAfterSet | inboxcourier/message.py:30-71 | after setting a field, delivery is the previous delivery with that key reporting the new value, or removed when the value is falsy; every other key is as before |
| Payloads.LastSetWins | inboxcourier/message.py:49-71 | setting a field twice is the same as setting it once to the second value |
| Payloads.SettersCommute | inboxcourier/message.py:49-71 | setters of two different fields can be applied in either order |
| Payloads.CcExample | inboxcourier/message.py:52-56 | add_cc with a one-address list on a fresh record delivers just that cc; add_cc with a string raises TypeError and leaves the record alone |
| Mime.Walk | inboxcourier/message.py:121 | the walk starts with the part itself |
| Mime.WalkVisitsTree | inboxcourier/service.py:169 | a part is visited by the walk exactly when it is the root or lies somewhere below it |
| Mime.OfType | inboxcourier/message.py:121-124 | a part is selected exactly when it is a walked part of the given main type |
| Mime.OfTypeCounts | inboxcourier/message.py:121-124 | each walked part of the given main type is selected as many times as it occurs in the walk; no other part is selected |
| Mime.OfTypeAppend | inboxcourier/message.py:121-124 | selecting from two runs of parts, one after the other, is the two selections one after the other, so the selection keeps walk order |
| Mime.Attachments | inboxcourier/message.py:148-155 | a part is selected exactly when it is a walked part that is not multipart, has a Content-Disposition and has a non-empty filename |
| Mime.AttachmentsCounts | inboxcourier/message.py:148-155 | each qualifying part is selected as many times as it occurs in the walk, so a file attached twice yields two attachments |
| Mime.AttachmentsAppend | inboxcourier/message.py:148-155 | selecting attachments from two runs of parts is the two selections one after the other, so attachments keep walk order |
| Mime.WalkTextIsTreeText | inboxcourier/message.py:117-126 | concatenating the payloads of the walked parts of a type equals folding the tree in pre-order: the part's own payload, then its children's texts |
| Mime.TextsStep | inboxcourier/message.py:121-124 | one more walked part extends the text by its own payload when it has the type, and otherwise leaves it as it was |
| Mime.CollectText | inboxcourier/message.py:117-137 | the scanning loop reports a part of the type exactly when one exists, returns the concatenation of their payloads, and returns the empty string when none exists |
| Handler.Extracted | inboxcourier/message.py:148-157 | one attachment per qualifying part, in walk order, named by the part's filename, with the decoded payload's byte count as data |
| Handler.GetBody | inboxcourier/message.py:114-137 | text_body is replaced by the concatenated text payloads exactly when some text part exists, and html_body likewise for html parts; sender, cc, bcc, subject and attachments are unchanged |
| Handler.GetAttachments | inboxcourier/message.py:143-157 | the extracted attachments are appended to the record's attachment list in walk order; every other field is unchanged |
| Handler.ExtractedAreNamed | inboxcourier/message.py:154-157 | every extracted attachment has a non-empty string filename |
| Handler.NoBodyPartsNoBodies | inboxcourier/message.py:117-137 | a message with no text and no html parts puts neither body into a fresh record's delivery |
| Handler.TextOnlyDelivery | inboxcourier/message.py:117-137 | with text parts and no html parts, text_body is delivered exactly when the tree's concatenated text is non-empty, and then with that text; html_body is not delivered |
| Extract.GetBody | inboxcourier/service.py:164-172 | the body is the tree-order concatenation of the text parts' payloads, and empty when there is no text part |
| Extract.GetAttachments | inboxcourier/service.py:177-194 | the buffer holds the decoded payloads of the qualifying parts concatenated in walk order |
| Extract.BufferMatchesRecordedSizes | inboxcourier/service.py:186-193 | the service's buffer is as long as the sum of the byte counts the handler records for the same message |
| Extract.FirstFilename | inboxcourier/service.py:203-210 | None exactly when no walked part qualifies; otherwise the filename of the first qualifying part |
| Extract.GetFilename | inboxcourier/service.py:199-210 | a returned filename is never empty |
| Extract.FilenameIsFirstExtracted | inboxcourier/service.py:199-210 | get_filename returns None exactly when the handler would add no attachment, and otherwise the filename of the first attachment it would add |
| ServiceList.Follow | inboxcourier/service.py:111-126 | the loop sends one repeated request per iteration, runs only while the latest response has a token, the bound is set and fewer ids than the bound were collected, and returns all ids collected so far when that condition fails; running past the end of the script gives None |
| ServiceList.ListMessages | inboxcourier/service.py:95-130 | every request is the same query with maxResults when bounded; the loop condition held before each follow-up and fails at the end; the result is the concatenation of all pages received, None exactly when a call failed, and never an escaped exception; without a bound exactly one call is made and its page is returned |
| ServiceList.StopsAtBoundOrLastPage | inboxcourier/service.py:111 | a returned list ends at a response without a page token, with no bound, or with at least max_messages ids |
| ServiceList.ZeroMaxIsUnbounded | inboxcourier/service.py:96-111 | max_messages 0 behaves exactly like None |
| ServiceList.ResultMayExceedBound | inboxcourier/service.py:107-127 | one page of three ids under a bound of two is returned whole |
| ServiceList.RepeatsFirstPage | inboxcourier/service.py:111-126 | the follow-up request equals the first, so an endpoint serving the same page again has its ids collected twice |
| ServiceList.TokenOnlyPagesNeverStop | inboxcourier/service.py:111-126 | under a positive bound, pages that carry a token but no ids never stop the loop: k such pages lead to k + 1 identical calls and the last one fails; a live endpoint answering the same way would be called forever |
| Dispatch.Follow | inboxcourier/dispatch.py:51-59 | each follow-up request carries the previous response's page token; the loop returns all collected ids when a response has no token, None when a call fails, and lets KeyError escape when a follow-up response has no messages key |
| Dispatch.ListMessages | inboxcourier/dispatch.py:41-61 | the first request has no token and each later one has the token of the response before it; a returned list is the concatenation of all pages up to the first response without a token; None exactly when a call fails; KeyError exactly at a follow-up page without messages |
| Dispatch.SinglePage | inboxcourier/dispatch.py:43-51 | a first response without a token gives exactly one call and its messages, or the empty list |
| Dispatch.ListingStopsAtFirstTokenlessPage | inboxcourier/dispatch.py:47-59 | when response n is the first without a token, exactly n calls are made and every page is returned if and only if all follow-up pages have messages; otherwise KeyError escapes |
| Dispatch.NoTokenlessPage | inboxcourier/dispatch.py:51-61 | if every response has a token, no list is returned |
| Dispatch.CheckInbox | inboxcourier/dispatch.py:30-39 | the listed ids or None go unchanged to the handler and its result is returned; an escaped exception gives None |
| Dispatch.CheckInboxPassesPagesThrough | inboxcourier/dispatch.py:30-39 | the handler receives exactly the concatenated pages when they are all present; a missing follow-up page makes the check return None |
| Inbox.RemoveUnreadLabel | inboxcourier/service.py:238-245 | UNREAD is appended to the labels to remove and the labels to add are unchanged |
| Inbox.ServiceUpdateIsMarkRead | inboxcourier/service.py:223-236 | the update the service builds equals the handler's mark-read update: remove UNREAD, add nothing |
| Inbox.GetMessageContents | inboxcourier/service.py:155-162 | in attachment mode AttributeError escapes whatever was fetched; in body mode a fetched message gives its text body and a missing one gives None; an exception from the fetch escapes |
| Inbox.CheckInbox | inboxcourier/service.py:66-79 | a None listing gives None and touches no message; otherwise ids are handled in listing order, each one's contents appended and then the id marked read; the first id whose handling raises ends the batch with None, leaving the earlier ids marked read; if none raises, the result has one contents entry per id; in attachment mode nothing is marked read |
| Scenario.MessageWalk | inboxcourier/message.py:121 | the walk of a multipart message is the root, then its text part, then its attachment |
| Scenario.BodyModeDelivery | inboxcourier/message.py:117-126 | body extraction into a fresh record delivers text_body "Hello" and nothing else |
| Scenario.AttachmentModeDelivery | inboxcourier/message.py:148-157 | attachment extraction into a fresh record delivers one attachment, report.pdf, with data 4 and nothing else |
| Scenario.ServiceViewOfMessage | inboxcourier/service.py:186-210 | the service names report.pdf and buffers its four decoded bytes |

## Left out

- Credentials and the OAuth flow (service.py:22-46) are left out. They are I/O against Google's servers.
- `watch_inbox` (service.py:48-56, dispatch.py:13-21) is left out. It schedules a daily watch request, sends it once, and then polls the scheduler every second forever. That is timing and I/O. Its helper `_watch_inbox_helper` is a single remote call.
- courier.py is left out. It builds a dispatcher, and `run` starts `watch_inbox` on a daemon thread. That is threading and I/O. `deliver_mail` calls `Dispatcher.check_inbox(query)` without its `has_attachments` argument, so as written it raises TypeError.
- Parsing raw bytes into a message and base64url-decoding the `raw` field (`_get_raw_message`, `_get_message`, `email.message_from_bytes`) are left out. The model takes the parsed part tree as given, with each part's payload and decoded bytes. The exceptions those steps can raise, and the prints in the `except` blocks they trigger, are not modelled.
- `MessageHandler.process_messages` and `_parse_message_contents` are left out. They call `_get_attachments()` without its `message` argument and read `self.service`, which is never set. Only the extraction steps they call are modelled.
- The remote call and base64url decoding in `Service._get_message` are left out. Inbox.CheckInbox takes its outcome per id as the parameter `fetch`: a parsed message, None after a caught HttpError, or an exception that escaped.
- Sending the label update (`_modify_message`, `_mark_as_read`) is left out. It is a remote call whose failures are caught and only printed. Inbox.CheckInbox records it as a `Modified` event carrying the update that would be sent.
- Logging and `print` output are left out.
- ServiceList.ListMessages: the scripted endpoint has a finite number of responses, so a run that a live endpoint would never end ends with a failed call (see ServiceList.TokenOnlyPagesNeverStop).
- Inbox.CheckInbox: an exception raised while sending a label update, other than the HttpError that `_modify_message` catches, is not modelled.
- Mime.Walk: the parser's treatment of `message/rfc822` parts and of malformed MIME is not modelled. A part's children are taken as given.
- Extract.GetAttachments: the result is the buffer's contents, not a `BytesIO` object with its position.
