/**
 A two-part message worked through both extractors: a multipart root with a
 plain-text part "Hello" and an attached "report.pdf".
 */
module Scenario {
  import opened Values
  import opened Payloads
  import opened Mime
  import Handler
  import Extract

  const Report: seq<byte> := [37, 80, 68, 70]

  const HelloPart := Part("text", None, None, "Hello", [], [])
  const ReportPart := Part("application", Some("attachment"), Some("report.pdf"), "JVBERg==", Report, [])
  const Message := Part("multipart", None, None, "", [], [HelloPart, ReportPart])

  /** The walk visits the root, then the text part, then the attachment. */
  lemma MessageWalk()
    ensures Walk(Message) == [Message, HelloPart, ReportPart]
  {
    assert WalkAll([ReportPart]) == [ReportPart] + WalkAll([]);
    assert WalkAll(Message.children) == Walk(HelloPart) + WalkAll([ReportPart]);
  }

  /** The message has text parts whose text is "Hello", and no html parts. */
  lemma MessageText()
    ensures HasType(Walk(Message), "text") && !HasType(Walk(Message), "html")
    ensures Texts(Walk(Message), "text") == "Hello"
  {
    MessageWalk();
    var parts := Walk(Message);
    assert parts[1].mainType == "text";
    assert !HasType(parts, "html");
    assert OfType(parts, "text") == [HelloPart] by {
      assert parts[1..] == [HelloPart, ReportPart];
      assert OfType([ReportPart], "text") == [] + OfType([], "text");
      assert OfType([HelloPart, ReportPart], "text") == [HelloPart] + OfType([ReportPart], "text");
      assert OfType(parts, "text") == [] + OfType([HelloPart, ReportPart], "text");
    }
    assert Texts(parts, "text") == "Hello" by {
      assert Join([HelloPart]) == "Hello" + Join([]);
    }
  }

  /** Body extraction into a fresh record delivers text_body "Hello" and nothing else. */
  lemma BodyModeDelivery()
    ensures Deliver(Handler.BodyOf(Fresh(), Message)) == map[TextBodyKey := Str("Hello")]
  {
    MessageText();
    var withBody := Handler.BodyOf(Fresh(), Message);
    var d := Deliver(withBody);
    forall k | k in ScalarKeys
      ensures k in d <==> k == TextBodyKey
    {
      assert Emits(d, k, Field(withBody, k));
    }
    assert d.Keys == {TextBodyKey};
  }

  /** The handler extracts one attachment, report.pdf, whose data is its byte count. */
  lemma MessageAttachments()
    ensures Handler.Extracted(Walk(Message)) == [AttachmentPart(Str("report.pdf"), Int(4))]
  {
    MessageWalk();
    assert Handler.Extracted([ReportPart]) == [Handler.Record(ReportPart)] + Handler.Extracted([]);
    assert Handler.Extracted([HelloPart, ReportPart]) == [] + Handler.Extracted([ReportPart]);
    assert Handler.Extracted(Walk(Message)) == [] + Handler.Extracted([HelloPart, ReportPart]);
  }

  /** Attachment extraction into a fresh record delivers that one attachment and no text body. */
  lemma AttachmentModeDelivery()
    ensures Deliver(Handler.AttachmentsOf(Fresh(), Message))
      == map[AttachmentsKey := List([Load(AttachmentPart(Str("report.pdf"), Int(4)))])]
  {
    MessageAttachments();
    var withAttachments := Handler.AttachmentsOf(Fresh(), Message);
    var e := Deliver(withAttachments);
    forall k | k in ScalarKeys
      ensures k !in e
    {
      assert Emits(e, k, Field(withAttachments, k));
    }
    assert withAttachments.attachments == [AttachmentPart(Str("report.pdf"), Int(4))];
    assert e[AttachmentsKey] == List([Load(AttachmentPart(Str("report.pdf"), Int(4)))]);
    assert e.Keys == {AttachmentsKey};
  }

  /** The service reports report.pdf as the filename and buffers its bytes. */
  lemma ServiceViewOfMessage()
    ensures Extract.GetFilename(Message) == Some("report.pdf")
    ensures Extract.AttachmentBytes(Walk(Message)) == Report
  {
    MessageWalk();
    var parts := Walk(Message);
    assert Extract.AttachmentBytes([ReportPart]) == Report + Extract.AttachmentBytes([]);
    assert Extract.AttachmentBytes([HelloPart, ReportPart]) == [] + Extract.AttachmentBytes([ReportPart]);
    assert Extract.AttachmentBytes(parts) == [] + Extract.AttachmentBytes([HelloPart, ReportPart]);
    assert Extract.FirstAttachmentAt(parts, 2);
  }
}
