/**
 The extraction helpers of `MessageHandler` in inboxcourier/message.py:
 `_get_body` fills the text and HTML bodies of the payload record from the
 walked parts, `_get_attachments` appends one attachment per qualifying part.
 */
module Handler {
  import opened Values
  import opened Payloads
  import opened Mime

  /**
   The attachment `_get_attachments` builds for a qualifying part. Its data is
   the return value of `BytesIO.write`, the number of bytes written, and not
   the bytes themselves.
   */
  function Record(p: Part): AttachmentPart
    requires IsAttachment(p)
  {
    AttachmentPart(Str(p.filename.value), Int(|p.decoded|))
  }

  /** The attachments built from a run of walked parts, one per qualifying part. */
  function Extracted(parts: seq<Part>): (r: seq<AttachmentPart>)
    ensures |r| == |Attachments(parts)|
    ensures forall i | 0 <= i < |r| :: r[i] == Record(Attachments(parts)[i])
  {
    if |parts| == 0 then []
    else (if IsAttachment(parts[0]) then [Record(parts[0])] else []) + Extracted(parts[1..])
  }

  lemma {:induction false} ExtractedAppend(a: seq<Part>, b: seq<Part>)
    ensures Extracted(a + b) == Extracted(a) + Extracted(b)
    decreases |a|
  {
    if |a| != 0 {
      var head := if IsAttachment(a[0]) then [Record(a[0])] else [];
      assert (a + b)[0] == a[0];
      assert (a + b)[1..] == a[1..] + b;
      ExtractedAppend(a[1..], b);
      assert Extracted(a + b) == head + Extracted(a[1..] + b);
      assert Extracted(a) == head + Extracted(a[1..]);
    } else {
      assert a + b == b;
    }
  }

  /** One more part adds at most its own attachment. */
  lemma ExtractStep(parts: seq<Part>, i: int)
    requires 0 <= i < |parts|
    ensures Extracted(parts[..i + 1]) == Extracted(parts[..i]) + (if IsAttachment(parts[i]) then [Record(parts[i])] else [])
  {
    assert parts[..i + 1] == parts[..i] + [parts[i]];
    ExtractedAppend(parts[..i], [parts[i]]);
    assert Extracted([parts[i]]) == (if IsAttachment(parts[i]) then [Record(parts[i])] else []) + Extracted([]);
  }

  /** The record after `_get_body`: each body is replaced only if some part of its main type exists. */
  function BodyOf(p: Payload, root: Part): Payload {
    var parts := Walk(root);
    var withText := if HasType(parts, "text") then AddTextBody(p, Str(Texts(parts, "text"))) else p;
    if HasType(parts, "html") then AddHtmlBody(withText, Str(Texts(parts, "html"))) else withText
  }

  /** The record after `_get_attachments`: the extracted attachments appended in walk order. */
  function AttachmentsOf(p: Payload, root: Part): Payload {
    p.(attachments := p.attachments + Extracted(Walk(root)))
  }

  /**
   `_get_body`: one pass over the walk for main type "text", one for main type
   "html" (compared literally, so a text/html part counts as text).
   */
  method GetBody(p: Payload, root: Part) returns (r: Payload)
    ensures r == BodyOf(p, root)
    ensures HasType(Walk(root), "text") ==> r.textBody == Str(Texts(Walk(root), "text"))
    ensures !HasType(Walk(root), "text") ==> r.textBody == p.textBody
    ensures HasType(Walk(root), "html") ==> r.htmlBody == Str(Texts(Walk(root), "html"))
    ensures !HasType(Walk(root), "html") ==> r.htmlBody == p.htmlBody
    ensures r.sender == p.sender && r.cc == p.cc && r.bcc == p.bcc && r.subject == p.subject
    ensures r.attachments == p.attachments
  {
    var parts := Walk(root);
    r := p;
    var hasTextBody, textBody := CollectText(parts, "text");
    if hasTextBody {
      r := AddTextBody(r, Str(textBody));
    }
    var hasHtmlBody, htmlBody := CollectText(parts, "html");
    if hasHtmlBody {
      r := AddHtmlBody(r, Str(htmlBody));
    }
  }

  /**
   `_get_attachments`: skips multipart parts and parts without a
   Content-Disposition, and adds an attachment for each remaining part with a
   truthy filename.
   */
  method GetAttachments(p: Payload, root: Part) returns (r: Payload)
    ensures r == AttachmentsOf(p, root)
    ensures r.attachments == p.attachments + Extracted(Walk(root))
    ensures r.sender == p.sender && r.cc == p.cc && r.bcc == p.bcc && r.subject == p.subject
    ensures r.textBody == p.textBody && r.htmlBody == p.htmlBody
  {
    var parts := Walk(root);
    r := p;
    for i := 0 to |parts|
      invariant r == p.(attachments := p.attachments + Extracted(parts[..i]))
    {
      ExtractStep(parts, i);
      var part := parts[i];
      // not multipart, has a Content-Disposition, truthy filename
      if IsAttachment(part) {
        var step := AddAttachment(r, Instance(Record(part)));
        r := step.after;
      }
    }
    assert parts[..|parts|] == parts;
  }

  /** A part with a Content-Disposition but an empty or missing filename never becomes an attachment. */
  lemma ExtractedAreNamed(parts: seq<Part>)
    ensures forall a | a in Extracted(parts) :: a.filename.Str? && a.filename.s != ""
  {
    var r := Extracted(parts);
    forall a | a in r
      ensures a.filename.Str? && a.filename.s != ""
    {
      var i :| 0 <= i < |r| && r[i] == a;
      assert Attachments(parts)[i] in Attachments(parts);
    }
  }

  /** A message with neither text nor html parts leaves both bodies out of a fresh record's delivery. */
  lemma NoBodyPartsNoBodies(root: Part)
    requires !HasType(Walk(root), "text") && !HasType(Walk(root), "html")
    ensures TextBodyKey !in Deliver(BodyOf(Fresh(), root))
    ensures HtmlBodyKey !in Deliver(BodyOf(Fresh(), root))
  {
    var d := Deliver(BodyOf(Fresh(), root));
    assert Emits(d, TextBodyKey, Field(BodyOf(Fresh(), root), TextBodyKey));
    assert Emits(d, HtmlBodyKey, Field(BodyOf(Fresh(), root), HtmlBodyKey));
  }

  /**
   With text parts and no html parts, a fresh record delivers the text parts'
   payloads concatenated in tree order, if that text is non-empty, and no
   html body.
   */
  lemma TextOnlyDelivery(root: Part)
    requires HasType(Walk(root), "text") && !HasType(Walk(root), "html")
    ensures HtmlBodyKey !in Deliver(BodyOf(Fresh(), root))
    ensures TextBodyKey in Deliver(BodyOf(Fresh(), root)) <==> TreeText(root, "text") != ""
    ensures TextBodyKey in Deliver(BodyOf(Fresh(), root)) ==>
      Deliver(BodyOf(Fresh(), root))[TextBodyKey] == Str(TreeText(root, "text"))
  {
    var q := BodyOf(Fresh(), root);
    var d := Deliver(q);
    WalkTextIsTreeText(root, "text");
    assert Emits(d, TextBodyKey, Field(q, TextBodyKey));
    assert Emits(d, HtmlBodyKey, Field(q, HtmlBodyKey));
  }
}
