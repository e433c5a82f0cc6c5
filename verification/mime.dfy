/**
 A parsed message as a tree of MIME parts (RFC 2045 and RFC 2046 structure,
 RFC 2183 Content-Disposition), the depth-first pre-order walk over it, and
 the filters and folds over that walk shared by inboxcourier/message.py and
 inboxcourier/service.py.
 */
module Mime {
  import opened Values

  /**
   One node of the part tree. `payload` is what `get_payload()` returns for a
   leaf and `decoded` what `get_payload(decode=True)` returns; both come from
   the parsing library and are taken as given.
   */
  datatype Part = Part(
    mainType: string,             // get_content_maintype(), e.g. "text", "multipart"
    disposition: Option<string>,  // the Content-Disposition header, if present
    filename: Option<string>,     // get_filename()
    payload: string,
    decoded: seq<byte>,
    children: seq<Part>)

  /** `walk()`: the part itself, then the walks of its children in order. */
  function Walk(p: Part): (r: seq<Part>)
    ensures |r| >= 1 && r[0] == p
    decreases p, 1
  {
    [p] + WalkAll(p.children)
  }

  /** The walks of a sequence of sibling parts, one after the other. */
  function WalkAll(cs: seq<Part>): seq<Part>
    decreases cs, 0
  {
    if |cs| == 0 then [] else Walk(cs[0]) + WalkAll(cs[1..])
  }

  /** `x` is `p` or a part somewhere below it. */
  predicate Within(x: Part, p: Part)
    decreases p
  {
    x == p || exists i | 0 <= i < |p.children| :: Within(x, p.children[i])
  }

  /** The walk visits every part of the tree and nothing else. */
  lemma {:induction false} WalkVisitsTree(p: Part, x: Part)
    ensures x in Walk(p) <==> Within(x, p)
    decreases p, 1
  {
    WalkAllVisitsForest(p.children, x);
  }

  lemma {:induction false} WalkAllVisitsForest(cs: seq<Part>, x: Part)
    ensures x in WalkAll(cs) <==> exists i | 0 <= i < |cs| :: Within(x, cs[i])
    decreases cs, 0
  {
    if |cs| != 0 {
      WalkVisitsTree(cs[0], x);
      WalkAllVisitsForest(cs[1..], x);
      if x in WalkAll(cs[1..]) {
        var j :| 0 <= j < |cs[1..]| && Within(x, cs[1..][j]);
        assert Within(x, cs[j + 1]);
      }
      if i :| 0 <= i < |cs| && Within(x, cs[i]) {
        if i != 0 {
          assert Within(x, cs[1..][i - 1]);
        }
      }
    }
  }

  /** The attachment test of both extractors: not multipart, has a Content-Disposition, truthy filename. */
  predicate IsAttachment(p: Part) {
    && p.mainType != "multipart"
    && p.disposition.Some?
    && p.filename.Some? && p.filename.value != ""
  }

  /** Some part has main type `t`. */
  predicate HasType(parts: seq<Part>, t: string) {
    exists i | 0 <= i < |parts| :: parts[i].mainType == t
  }

  /** The parts of main type `t`, in order. */
  function OfType(parts: seq<Part>, t: string): (r: seq<Part>)
    ensures |r| <= |parts|
    ensures forall x | x in r :: x in parts && x.mainType == t
    ensures forall i | 0 <= i < |parts| && parts[i].mainType == t :: parts[i] in r
  {
    if |parts| == 0 then []
    else (if parts[0].mainType == t then [parts[0]] else []) + OfType(parts[1..], t)
  }

  /** The payloads of `parts`, concatenated in order. */
  function Join(parts: seq<Part>): string {
    if |parts| == 0 then "" else parts[0].payload + Join(parts[1..])
  }

  /** The concatenated payloads of the parts of main type `t`. */
  function Texts(parts: seq<Part>, t: string): string {
    Join(OfType(parts, t))
  }

  /** The parts that qualify as attachments, in order. */
  function Attachments(parts: seq<Part>): (r: seq<Part>)
    ensures |r| <= |parts|
    ensures forall x | x in r :: x in parts && IsAttachment(x)
    ensures forall i | 0 <= i < |parts| && IsAttachment(parts[i]) :: parts[i] in r
  {
    if |parts| == 0 then []
    else (if IsAttachment(parts[0]) then [parts[0]] else []) + Attachments(parts[1..])
  }

  lemma {:induction false} OfTypeAppend(a: seq<Part>, b: seq<Part>, t: string)
    ensures OfType(a + b, t) == OfType(a, t) + OfType(b, t)
    decreases |a|
  {
    if |a| != 0 {
      assert (a + b)[1..] == a[1..] + b;
      OfTypeAppend(a[1..], b, t);
    } else {
      assert a + b == b;
    }
  }

  lemma {:induction false} JoinAppend(a: seq<Part>, b: seq<Part>)
    ensures Join(a + b) == Join(a) + Join(b)
    decreases |a|
  {
    if |a| != 0 {
      assert (a + b)[1..] == a[1..] + b;
      JoinAppend(a[1..], b);
    } else {
      assert a + b == b;
    }
  }

  /** Concatenating the texts of two runs of parts is the text of the joined run. */
  lemma TextsAppend(a: seq<Part>, b: seq<Part>, t: string)
    ensures Texts(a + b, t) == Texts(a, t) + Texts(b, t)
  {
    OfTypeAppend(a, b, t);
    JoinAppend(OfType(a, t), OfType(b, t));
  }

  lemma {:induction false} AttachmentsAppend(a: seq<Part>, b: seq<Part>)
    ensures Attachments(a + b) == Attachments(a) + Attachments(b)
    decreases |a|
  {
    if |a| != 0 {
      assert (a + b)[1..] == a[1..] + b;
      AttachmentsAppend(a[1..], b);
    } else {
      assert a + b == b;
    }
  }

  /** Each part of main type `t` is selected as often as it occurs; no other part is selected. */
  lemma {:induction false} OfTypeCounts(parts: seq<Part>, t: string, x: Part)
    ensures multiset(OfType(parts, t))[x] == if x.mainType == t then multiset(parts)[x] else 0
    decreases |parts|
  {
    if |parts| != 0 {
      assert parts == [parts[0]] + parts[1..];
      OfTypeCounts(parts[1..], t, x);
    }
  }

  /** Each qualifying part is selected as often as it occurs, so a twice-attached file counts twice. */
  lemma {:induction false} AttachmentsCounts(parts: seq<Part>, x: Part)
    ensures multiset(Attachments(parts))[x] == if IsAttachment(x) then multiset(parts)[x] else 0
    decreases |parts|
  {
    if |parts| != 0 {
      assert parts == [parts[0]] + parts[1..];
      AttachmentsCounts(parts[1..], x);
    }
  }

  /** With no part of main type `t` there is nothing to concatenate. */
  lemma NoTypeNoText(parts: seq<Part>, t: string)
    ensures !HasType(parts, t) ==> Texts(parts, t) == ""
  {
    var r := OfType(parts, t);
    if |r| != 0 {
      assert r[0] in parts;
      var i :| 0 <= i < |parts| && parts[i] == r[0];
      assert HasType(parts, t);
    }
  }

  /**
   The text of main type `t` computed directly on the tree: the part's own
   payload if it has that type, then the texts of its children in order.
   */
  function TreeText(p: Part, t: string): string
    decreases p, 1
  {
    (if p.mainType == t then p.payload else "") + ForestText(p.children, t)
  }

  function ForestText(cs: seq<Part>, t: string): string
    decreases cs, 0
  {
    if |cs| == 0 then "" else TreeText(cs[0], t) + ForestText(cs[1..], t)
  }

  /** Filtering and concatenating the walk gives the same text as folding the tree. */
  lemma {:induction false} WalkTextIsTreeText(p: Part, t: string)
    ensures Texts(Walk(p), t) == TreeText(p, t)
    decreases p, 1
  {
    TextsAppend([p], WalkAll(p.children), t);
    WalkAllTextIsForestText(p.children, t);
  }

  lemma {:induction false} WalkAllTextIsForestText(cs: seq<Part>, t: string)
    ensures Texts(WalkAll(cs), t) == ForestText(cs, t)
    decreases cs, 0
  {
    if |cs| != 0 {
      TextsAppend(Walk(cs[0]), WalkAll(cs[1..]), t);
      WalkTextIsTreeText(cs[0], t);
      WalkAllTextIsForestText(cs[1..], t);
    }
  }

  /** The text of a single part is its payload if it has main type `t`, and empty otherwise. */
  lemma TextsOfOne(x: Part, t: string)
    ensures Texts([x], t) == if x.mainType == t then x.payload else ""
  {
    assert [x][1..] == [];
    if x.mainType == t {
      assert OfType([x], t) == [x];
      assert Join([x]) == x.payload + Join([]);
    } else {
      assert OfType([x], t) == [];
    }
  }

  /** One more part has the type exactly when the earlier ones did or it does. */
  lemma HasTypeStep(parts: seq<Part>, i: int, t: string)
    requires 0 <= i < |parts|
    ensures HasType(parts[..i + 1], t) <==> HasType(parts[..i], t) || parts[i].mainType == t
  {
    var prefix, next := parts[..i], parts[..i + 1];
    if HasType(next, t) && parts[i].mainType != t {
      var j :| 0 <= j < |next| && next[j].mainType == t;
      assert next[i] == parts[i];
      assert prefix[j] == next[j];
    }
    if HasType(prefix, t) {
      var j :| 0 <= j < |prefix| && prefix[j].mainType == t;
      assert next[j] == prefix[j];
    }
    if parts[i].mainType == t {
      assert next[i] == parts[i];
    }
  }

  /** One more part extends the text by its own payload if it has the type. */
  lemma TextsStep(parts: seq<Part>, i: int, t: string)
    requires 0 <= i < |parts|
    ensures Texts(parts[..i + 1], t) == Texts(parts[..i], t) + (if parts[i].mainType == t then parts[i].payload else "")
  {
    assert parts[..i + 1] == parts[..i] + [parts[i]];
    TextsAppend(parts[..i], [parts[i]], t);
    TextsOfOne(parts[i], t);
  }

  /**
   The scanning loop both `_get_body` implementations run over a walk:
   whether some part has main type `t`, and the concatenation of their payloads.
   */
  method CollectText(parts: seq<Part>, t: string) returns (found: bool, text: string)
    ensures found <==> HasType(parts, t)
    ensures text == Texts(parts, t)
    ensures !found ==> text == ""
  {
    found, text := false, "";
    for i := 0 to |parts|
      invariant found <==> HasType(parts[..i], t)
      invariant text == Texts(parts[..i], t)
    {
      HasTypeStep(parts, i, t);
      TextsStep(parts, i, t);
      if parts[i].mainType == t {
        found := true;
        text := text + parts[i].payload;
      }
    }
    assert parts[..|parts|] == parts;
    NoTypeNoText(parts, t);
  }
}
