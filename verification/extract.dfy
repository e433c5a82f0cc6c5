/**
 The extraction helpers of `Service` in inboxcourier/service.py: the body
 string, the attachment buffer and the attachment filename of one message.
 */
module Extract {
  import opened Values
  import opened Mime
  import Handler

  /** `_get_body`: the payloads of the walked parts of main type "text", concatenated. */
  method GetBody(root: Part) returns (body: string)
    ensures body == TreeText(root, "text")
    ensures !HasType(Walk(root), "text") ==> body == ""
  {
    var _, text := CollectText(Walk(root), "text");
    body := text;
    WalkTextIsTreeText(root, "text");
  }

  /** The decoded payloads of the parts that qualify as attachments, concatenated. */
  function AttachmentBytes(parts: seq<Part>): seq<byte> {
    if |parts| == 0 then []
    else (if IsAttachment(parts[0]) then parts[0].decoded else []) + AttachmentBytes(parts[1..])
  }

  lemma {:induction false} AttachmentBytesAppend(a: seq<Part>, b: seq<Part>)
    ensures AttachmentBytes(a + b) == AttachmentBytes(a) + AttachmentBytes(b)
    decreases |a|
  {
    if |a| != 0 {
      assert (a + b)[1..] == a[1..] + b;
      AttachmentBytesAppend(a[1..], b);
    } else {
      assert a + b == b;
    }
  }

  /**
   `_get_attachments`: writes the decoded payload of every non-multipart part
   with a Content-Disposition and a truthy filename into one buffer.
   */
  method GetAttachments(root: Part) returns (buffer: seq<byte>)
    ensures buffer == AttachmentBytes(Walk(root))
  {
    var parts := Walk(root);
    buffer := [];
    for i := 0 to |parts|
      invariant buffer == AttachmentBytes(parts[..i])
    {
      assert parts[..i + 1] == parts[..i] + [parts[i]];
      AttachmentBytesAppend(parts[..i], [parts[i]]);
      var part := parts[i];
      if part.mainType == "multipart" {
        continue;
      }
      if part.disposition.None? {
        continue;
      }
      if part.filename.Some? && part.filename.value != "" {
        buffer := buffer + part.decoded;
      }
    }
    assert parts[..|parts|] == parts;
  }

  /** The sum of the byte counts the handler stores as attachment data. */
  function TotalData(xs: seq<AttachmentPart>): int {
    if |xs| == 0 then 0
    else (if xs[0].data.Int? then xs[0].data.i else 0) + TotalData(xs[1..])
  }

  /**
   The service's buffer holds exactly as many bytes as the handler's
   attachments record as their data: the two extractors select the same parts.
   */
  lemma {:induction false} BufferMatchesRecordedSizes(parts: seq<Part>)
    ensures |AttachmentBytes(parts)| == TotalData(Handler.Extracted(parts))
    decreases |parts|
  {
    if |parts| != 0 {
      BufferMatchesRecordedSizes(parts[1..]);
      var rest := Handler.Extracted(parts[1..]);
      if IsAttachment(parts[0]) {
        var xs := [Handler.Record(parts[0])] + rest;
        assert Handler.Extracted(parts) == xs;
        assert xs[1..] == rest;
      } else {
        assert Handler.Extracted(parts) == rest;
      }
    }
  }

  /** Part `i` is the first of `parts` that qualifies as an attachment. */
  predicate FirstAttachmentAt(parts: seq<Part>, i: int) {
    && 0 <= i < |parts|
    && IsAttachment(parts[i])
    && forall j | 0 <= j < i :: !IsAttachment(parts[j])
  }

  /** The filename of the first qualifying part, or None if no part qualifies. */
  function FirstFilename(parts: seq<Part>): (r: Option<string>)
    ensures r.None? <==> forall i | 0 <= i < |parts| :: !IsAttachment(parts[i])
    ensures r.Some? ==> exists i :: FirstAttachmentAt(parts, i) && parts[i].filename == Some(r.value)
  {
    if |parts| == 0 then None
    else if IsAttachment(parts[0]) then
      assert FirstAttachmentAt(parts, 0);
      Some(parts[0].filename.value)
    else
      var r := FirstFilename(parts[1..]);
      if r.Some? then
        var i :| FirstAttachmentAt(parts[1..], i) && parts[1..][i].filename == Some(r.value);
        assert FirstAttachmentAt(parts, i + 1) by {
          forall j | 0 <= j < i + 1
            ensures !IsAttachment(parts[j])
          {
            if j > 0 {
              assert parts[j] == parts[1..][j - 1];
            }
          }
        }
        r
      else
        assert forall i | 0 <= i < |parts| :: !IsAttachment(parts[i]) by {
          forall i | 0 <= i < |parts|
            ensures !IsAttachment(parts[i])
          {
            if i > 0 {
              assert parts[i] == parts[1..][i - 1];
            }
          }
        }
        r
  }

  /** `get_filename`: the filename of the first qualifying part of the walk. */
  function GetFilename(root: Part): (r: Option<string>)
    ensures r.Some? ==> r.value != ""
  {
    FirstFilename(Walk(root))
  }

  /** A run with no qualifying part has no attachments. */
  lemma NoneQualifies(parts: seq<Part>)
    requires forall j | 0 <= j < |parts| :: !IsAttachment(parts[j])
    ensures Attachments(parts) == []
  {
  }

  /** When part `i` is the first qualifying one, it heads the qualifying parts. */
  lemma FirstAttachmentHeads(parts: seq<Part>, i: int)
    requires FirstAttachmentAt(parts, i)
    ensures |Attachments(parts)| != 0 && Attachments(parts)[0] == parts[i]
  {
    var before, after := parts[..i], parts[i..];
    assert parts == before + after;
    AttachmentsAppend(before, after);
    NoneQualifies(before);
    assert after == [parts[i]] + after[1..];
    assert Attachments(after) == [parts[i]] + Attachments(after[1..]);
  }

  /**
   `get_filename` names the first attachment the handler would add: none
   exactly when the handler adds none, and otherwise the first one's filename.
   */
  lemma FilenameIsFirstExtracted(parts: seq<Part>)
    ensures FirstFilename(parts).None? <==> Handler.Extracted(parts) == []
    ensures FirstFilename(parts).Some? ==>
      Handler.Extracted(parts)[0].filename == Str(FirstFilename(parts).value)
  {
    var r := FirstFilename(parts);
    if r.None? {
      NoneQualifies(parts);
    } else {
      var i :| FirstAttachmentAt(parts, i) && parts[i].filename == Some(r.value);
      FirstAttachmentHeads(parts, i);
      var xs := Handler.Extracted(parts);
      assert xs[0] == Handler.Record(parts[i]);
    }
  }
}
