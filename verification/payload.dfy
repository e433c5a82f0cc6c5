/**
 The payload record of inboxcourier/message.py: seven optional fields, setters
 that overwrite them (attachments accumulate), and the delivery form that
 keeps exactly the truthy fields.
 */
module Payloads {
  import opened Values

  // The keys of the delivery mapping.
  const FromKey := "from"
  const CcKey := "cc"
  const BccKey := "bcc"
  const SubjectKey := "subject"
  const TextBodyKey := "text_body"
  const HtmlBodyKey := "html_body"
  const AttachmentsKey := "attachments"

  // The keys of a loaded attachment.
  const FilenameKey := "filename"
  const DataKey := "data"

  /** The six keys whose value is a single field of the record. */
  const ScalarKeys: set<string> := {FromKey, CcKey, BccKey, SubjectKey, TextBodyKey, HtmlBodyKey}

  datatype Payload = Payload(
    sender: Value,
    cc: Value,
    bcc: Value,
    subject: Value,
    textBody: Value,
    htmlBody: Value,
    attachments: seq<AttachmentPart>)

  /** The result of a setter that may raise: the record afterwards, and the exception raised, if any. */
  datatype Step = Step(after: Payload, raised: Option<Error>)

  /** A freshly constructed record: every scalar field None, no attachments. */
  function Fresh(): Payload {
    Payload(Nil, Nil, Nil, Nil, Nil, Nil, [])
  }

  /** The field that the delivery key `key` reports. */
  function Field(p: Payload, key: string): Value
    requires key in ScalarKeys
  {
    if key == FromKey then p.sender
    else if key == CcKey then p.cc
    else if key == BccKey then p.bcc
    else if key == SubjectKey then p.subject
    else if key == TextBodyKey then p.textBody
    else p.htmlBody
  }

  /** `q` is `p` with the field behind `key` set to `v` and nothing else changed. */
  predicate Overwrote(p: Payload, q: Payload, key: string, v: Value)
    requires key in ScalarKeys
  {
    && Field(q, key) == v
    && (forall k | k in ScalarKeys && k != key :: Field(q, k) == Field(p, k))
    && q.attachments == p.attachments
  }

  /** Assignment of one scalar field, the shared step of every scalar setter. */
  function WithField(p: Payload, key: string, v: Value): (r: Payload)
    requires key in ScalarKeys
    ensures Overwrote(p, r, key, v)
  {
    if key == FromKey then p.(sender := v)
    else if key == CcKey then p.(cc := v)
    else if key == BccKey then p.(bcc := v)
    else if key == SubjectKey then p.(subject := v)
    else if key == TextBodyKey then p.(textBody := v)
    else p.(htmlBody := v)
  }

  // The unchecked setters: each overwrites its field with whatever it is given.

  function AddSender(p: Payload, sender: Value): (r: Payload)
    ensures Overwrote(p, r, FromKey, sender)
  {
    WithField(p, FromKey, sender)
  }

  function AddSubject(p: Payload, subject: Value): (r: Payload)
    ensures Overwrote(p, r, SubjectKey, subject)
  {
    WithField(p, SubjectKey, subject)
  }

  function AddTextBody(p: Payload, textBody: Value): (r: Payload)
    ensures Overwrote(p, r, TextBodyKey, textBody)
  {
    WithField(p, TextBodyKey, textBody)
  }

  function AddHtmlBody(p: Payload, htmlBody: Value): (r: Payload)
    ensures Overwrote(p, r, HtmlBodyKey, htmlBody)
  {
    WithField(p, HtmlBodyKey, htmlBody)
  }

  /** `add_cc`: a list overwrites the cc field; anything else raises TypeError and changes nothing. */
  function AddCc(p: Payload, ccList: Value): (r: Step)
    ensures r.raised.None? <==> ccList.List?
    ensures r.raised.Some? ==> r.raised.value == TypeError && r.after == p
    ensures r.raised.None? ==> Overwrote(p, r.after, CcKey, ccList)
  {
    if ccList.List? then Step(WithField(p, CcKey, ccList), None)
    else Step(p, Some(TypeError))
  }

  /** `add_bcc`: a list overwrites the bcc field; anything else raises TypeError and changes nothing. */
  function AddBcc(p: Payload, bccList: Value): (r: Step)
    ensures r.raised.None? <==> bccList.List?
    ensures r.raised.Some? ==> r.raised.value == TypeError && r.after == p
    ensures r.raised.None? ==> Overwrote(p, r.after, BccKey, bccList)
  {
    if bccList.List? then Step(WithField(p, BccKey, bccList), None)
    else Step(p, Some(TypeError))
  }

  /** `add_attachment`: an AttachmentPart is appended; anything else raises TypeError and changes nothing. */
  function AddAttachment(p: Payload, attachment: Value): (r: Step)
    ensures r.raised.None? <==> attachment.Instance?
    ensures r.raised.Some? ==> r.raised.value == TypeError && r.after == p
    ensures r.raised.None? ==> r.after == p.(attachments := p.attachments + [attachment.part])
  {
    if attachment.Instance? then Step(p.(attachments := p.attachments + [attachment.part]), None)
    else Step(p, Some(TypeError))
  }

  /** `AttachmentPart.load`: a mapping with exactly the keys filename and data. */
  function Load(a: AttachmentPart): (r: Value)
    ensures r.Dict? && r.entries.Keys == {FilenameKey, DataKey}
  {
    Dict(map[FilenameKey := a.filename, DataKey := a.data])
  }

  /** Reads an attachment back from its loaded form; None if `v` is not such a mapping. */
  function Unload(v: Value): Option<AttachmentPart> {
    if v.Dict? && FilenameKey in v.entries && DataKey in v.entries
    then Some(AttachmentPart(v.entries[FilenameKey], v.entries[DataKey]))
    else None
  }

  /** The list comprehension `[att.load() for att in attachments]`. */
  function LoadAll(xs: seq<AttachmentPart>): (r: seq<Value>)
    ensures |r| == |xs|
    ensures forall i | 0 <= i < |xs| :: r[i] == Load(xs[i])
  {
    if |xs| == 0 then [] else [Load(xs[0])] + LoadAll(xs[1..])
  }

  /** Reads a delivered attachment list back; None if some element is not a loaded attachment. */
  function UnloadAll(vs: seq<Value>): Option<seq<AttachmentPart>> {
    if |vs| == 0 then Some([])
    else match (Unload(vs[0]), UnloadAll(vs[1..]))
      case (Some(a), Some(rest)) => Some([a] + rest)
      case _ => None
  }

  /** The delivery form reports `v` under `key` exactly when `v` is truthy. */
  predicate Emits(d: map<string, Value>, key: string, v: Value) {
    && (key in d <==> Truthy(v))
    && (key in d ==> d[key] == v)
  }

  /** `deliver`: the mapping of the truthy fields, plus the loaded attachments if there are any. */
  function Deliver(p: Payload): (d: map<string, Value>)
    ensures forall k | k in ScalarKeys :: Emits(d, k, Field(p, k))
    ensures AttachmentsKey in d <==> |p.attachments| != 0
    ensures AttachmentsKey in d ==> d[AttachmentsKey] == List(LoadAll(p.attachments))
    ensures d.Keys <= ScalarKeys + {AttachmentsKey}
  {
    var scalars := map k | k in ScalarKeys && Truthy(Field(p, k)) :: Field(p, k);
    if |p.attachments| != 0 then scalars[AttachmentsKey := List(LoadAll(p.attachments))] else scalars
  }

  /** A fresh record delivers the empty mapping. */
  lemma DeliverFresh()
    ensures Deliver(Fresh()) == map[]
  {
    var d := Deliver(Fresh());
    forall k | k in ScalarKeys
      ensures k !in d
    {
      assert Emits(d, k, Field(Fresh(), k));
    }
    assert d.Keys == {};
  }

  /** Loading an attachment loses nothing: it can be read back exactly. */
  lemma LoadRoundTrip(a: AttachmentPart)
    ensures Unload(Load(a)) == Some(a)
  {
  }

  /** The delivered attachment list reads back as the attachments added, in the same order. */
  lemma {:induction false} LoadAllRoundTrip(xs: seq<AttachmentPart>)
    ensures UnloadAll(LoadAll(xs)) == Some(xs)
    decreases |xs|
  {
    if |xs| != 0 {
      LoadAllRoundTrip(xs[1..]);
      LoadRoundTrip(xs[0]);
      assert LoadAll(xs)[1..] == LoadAll(xs[1..]);
      assert [xs[0]] + xs[1..] == xs;
    }
  }

  /** What delivery reports under "attachments" is exactly the record's attachment list. */
  lemma DeliveredAttachments(p: Payload)
    ensures AttachmentsKey in Deliver(p) ==>
      && Deliver(p)[AttachmentsKey].List?
      && UnloadAll(Deliver(p)[AttachmentsKey].items) == Some(p.attachments)
  {
    LoadAllRoundTrip(p.attachments);
  }

  /** The delivery form `d` with `key` reporting `v`: set if `v` is truthy, removed otherwise. */
  function Reporting(d: map<string, Value>, key: string, v: Value): map<string, Value> {
    if Truthy(v) then d[key := v] else d - {key}
  }

  /** At any one key, setting a field changes delivery as `Reporting` says. */
  lemma DeliverAfterSetAt(p: Payload, key: string, v: Value, k: string)
    requires key in ScalarKeys
    ensures var d, expected := Deliver(WithField(p, key, v)), Reporting(Deliver(p), key, v);
      && (k in d <==> k in expected)
      && (k in d ==> d[k] == expected[k])
  {
    var q := WithField(p, key, v);
    if k == key {
      assert Emits(Deliver(q), k, Field(q, k));
    } else if k in ScalarKeys {
      assert Emits(Deliver(q), k, Field(q, k));
      assert Emits(Deliver(p), k, Field(p, k));
    }
  }

  /**
   Setting one scalar field changes the delivery form at that key only: the
   key appears with the new value if it is truthy, and disappears otherwise.
   */
  lemma DeliverAfterSet(p: Payload, key: string, v: Value)
    requires key in ScalarKeys
    ensures Deliver(WithField(p, key, v)) == Reporting(Deliver(p), key, v)
  {
    var d, expected := Deliver(WithField(p, key, v)), Reporting(Deliver(p), key, v);
    forall k
      ensures (k in d <==> k in expected) && (k in d ==> d[k] == expected[k])
    {
      DeliverAfterSetAt(p, key, v, k);
    }
    assert d.Keys == expected.Keys;
  }

  /** Setters overwrite rather than accumulate: of two calls on the same field, the last one wins. */
  lemma LastSetWins(p: Payload, key: string, first: Value, second: Value)
    requires key in ScalarKeys
    ensures WithField(WithField(p, key, first), key, second) == WithField(p, key, second)
  {
  }

  /** Setters of different fields do not interfere: their order does not matter. */
  lemma SettersCommute(p: Payload, key1: string, v1: Value, key2: string, v2: Value)
    requires key1 in ScalarKeys && key2 in ScalarKeys && key1 != key2
    ensures WithField(WithField(p, key1, v1), key2, v2) == WithField(WithField(p, key2, v2), key1, v1)
  {
  }

  /** `add_cc(["a@x.com"])` on a fresh record delivers exactly that cc list; a string is refused. */
  lemma CcExample(p: Payload)
    ensures AddCc(Fresh(), List([Str("a@x.com")])).raised == None
    ensures Deliver(AddCc(Fresh(), List([Str("a@x.com")])).after) == map[CcKey := List([Str("a@x.com")])]
    ensures AddCc(p, Str("not-a-list")) == Step(p, Some(TypeError))
  {
    var q := AddCc(Fresh(), List([Str("a@x.com")])).after;
    DeliverFresh();
    DeliverAfterSet(Fresh(), CcKey, List([Str("a@x.com")]));
  }
}
