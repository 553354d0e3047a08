/** `get_attachments_from_message`: the attachment references of a message,
    one per part that has a file name, a non-empty body and an attachment id. */
module AttachmentExtraction {
  import opened Wrappers
  import opened Messages

  /** What the condition on line 97 makes of one part. */
  datatype Verdict = Skip | Take(fileName: string, attachmentId: string) | Raise(key: string)

  /** The condition `part["filename"] and part["body"] and part["body"]["attachmentId"]`,
      evaluated left to right with Python's short-circuit and truthiness: a
      key is only looked up once the conjuncts before it are truthy, and a
      missing key raises `KeyError`. */
  function Classify(part: Part): (v: Verdict)
    ensures v.Take? <==>
      part.filename.Some? && part.filename.value != "" &&
      part.body.Some? && part.body.value.IsTruthy() &&
      part.body.value.attachmentId.Some? && part.body.value.attachmentId.value != ""
    ensures v.Take? ==>
      v.fileName == part.filename.value && v.attachmentId == part.body.value.attachmentId.value
    ensures v == Raise("filename") <==> part.filename.None?
    ensures v == Raise("body") <==>
      part.filename.Some? && part.filename.value != "" && part.body.None?
    ensures v == Raise("attachmentId") <==>
      part.filename.Some? && part.filename.value != "" &&
      part.body.Some? && part.body.value.IsTruthy() && part.body.value.attachmentId.None?
    ensures v.Raise? ==> v.key in {"filename", "body", "attachmentId"}
  {
    match part.filename
    case None => Raise("filename")
    case Some(name) =>
      if name == "" then Skip
      else match part.body
        case None => Raise("body")
        case Some(body) =>
          if !body.IsTruthy() then Skip
          else match body.attachmentId
            case None => Raise("attachmentId")
            case Some(id) => if id == "" then Skip else Take(name, id)
  }

  /** The reference one part contributes: none, one, or the `KeyError` it raises. */
  function PartResult(part: Part, messageId: string, userId: string, service: Resource)
    : (r: Result<seq<Attachment>, KeyError>)
  {
    match Classify(part)
    case Raise(key) => Err(KeyError(key))
    case Skip => Ok([])
    case Take(fileName, attachmentId) => Ok([Attachment(attachmentId, messageId, userId, fileName, service)])
  }

  /** Sequencing two steps of the loop: the first error wins, otherwise the
      references are concatenated. */
  function Then(first: Result<seq<Attachment>, KeyError>, second: Result<seq<Attachment>, KeyError>)
    : (r: Result<seq<Attachment>, KeyError>)
  {
    match first
    case Err(error) => Err(error)
    case Ok(xs) =>
      match second
      case Err(error) => Err(error)
      case Ok(ys) => Ok(xs + ys)
  }

  /** The attachment references of `parts`, in part order, or the `KeyError`
      of the first part whose check raises. */
  function Extracted(parts: seq<Part>, messageId: string, userId: string, service: Resource)
    : (r: Result<seq<Attachment>, KeyError>)
  {
    if parts == [] then Ok([])
    else Then(PartResult(parts[0], messageId, userId, service), Extracted(parts[1..], messageId, userId, service))
  }

  /** Extraction over `a + b` is extraction over `a`, then over `b`. */
  lemma {:induction false} ExtractedAppend(a: seq<Part>, b: seq<Part>, messageId: string, userId: string, service: Resource)
    ensures Extracted(a + b, messageId, userId, service) ==
      Then(Extracted(a, messageId, userId, service), Extracted(b, messageId, userId, service))
  {
    if a == [] {
      assert a + b == b;
      match Extracted(b, messageId, userId, service)
      case Err(_) =>
      case Ok(ys) => assert [] + ys == ys;
    } else {
      assert (a + b)[0] == a[0];
      assert (a + b)[1..] == a[1..] + b;
      ExtractedAppend(a[1..], b, messageId, userId, service);
      match PartResult(a[0], messageId, userId, service)
      case Err(_) =>
      case Ok(head) =>
        match Extracted(a[1..], messageId, userId, service)
        case Err(_) =>
        case Ok(xs) =>
          match Extracted(b, messageId, userId, service)
          case Err(_) =>
          case Ok(ys) => assert head + (xs + ys) == (head + xs) + ys;
    }
  }

  /** The loop of lines 93-107: a message without `parts` has no attachments;
      otherwise the parts are checked in order and the result is `Extracted`. */
  method GetAttachmentsFromMessage(message: Message, service: Resource, userId: string)
    returns (r: Result<seq<Attachment>, KeyError>)
    ensures message.payload.parts.None? ==> r == Ok([])
    ensures message.payload.parts.Some? ==>
      r == Extracted(message.payload.parts.value, message.id, userId, service)
  {
    var msgId := message.id;
    var attachments: seq<Attachment> := [];
    if message.payload.parts.None? {
      return Ok(attachments);
    }
    var parts := message.payload.parts.value;
    for i := 0 to |parts|
      invariant Extracted(parts[..i], msgId, userId, service) == Ok(attachments)
    {
      var part := parts[i];
      ExtractedAppend(parts[..i], [part], msgId, userId, service);
      ExtractedAppend(parts[..i + 1], parts[i + 1..], msgId, userId, service);
      assert parts[..i] + [part] == parts[..i + 1];
      assert parts[..i + 1] + parts[i + 1..] == parts;
      assert Extracted([part], msgId, userId, service) == PartResult(part, msgId, userId, service) by {
        assert [part][1..] == [];
        match PartResult(part, msgId, userId, service)
        case Err(_) =>
        case Ok(xs) => assert xs + [] == xs;
      }
      assert attachments + [] == attachments;
      if part.filename.None? {
        return Err(KeyError("filename"));
      }
      if part.filename.value != "" {
        if part.body.None? {
          return Err(KeyError("body"));
        }
        var body := part.body.value;
        if body.IsTruthy() {
          if body.attachmentId.None? {
            return Err(KeyError("attachmentId"));
          }
          if body.attachmentId.value != "" {
            var attachment := Attachment(body.attachmentId.value, msgId, userId, part.filename.value, service);
            attachments := attachments + [attachment];
          }
        }
      }
    }
    assert parts[..|parts|] == parts;
    r := Ok(attachments);
  }

  /** Extraction fails exactly when some part's check raises. */
  lemma {:induction false} ExtractedOkIff(parts: seq<Part>, messageId: string, userId: string, service: Resource)
    ensures Extracted(parts, messageId, userId, service).Ok? <==>
      forall i :: 0 <= i < |parts| ==> !Classify(parts[i]).Raise?
  {
    if parts != [] {
      ExtractedOkIff(parts[1..], messageId, userId, service);
      assert forall i :: 1 <= i < |parts| ==> parts[i] == parts[1..][i - 1];
    }
  }

  /** A failed extraction reports the `KeyError` of the first part whose check raises. */
  lemma {:induction false} ExtractedFirstError(parts: seq<Part>, messageId: string, userId: string, service: Resource)
    returns (i: nat)
    requires Extracted(parts, messageId, userId, service).Err?
    ensures i < |parts| && Classify(parts[i]).Raise?
    ensures forall j :: 0 <= j < i ==> !Classify(parts[j]).Raise?
    ensures Extracted(parts, messageId, userId, service).error == KeyError(Classify(parts[i]).key)
  {
    if Classify(parts[0]).Raise? {
      i := 0;
    } else {
      var j := ExtractedFirstError(parts[1..], messageId, userId, service);
      i := j + 1;
      assert forall k :: 1 <= k <= i ==> parts[k] == parts[1..][k - 1];
    }
  }

  /** The reference the source builds from a part it takes (lines 99-105). */
  function Reference(part: Part, messageId: string, userId: string, service: Resource): (a: Attachment)
    requires Classify(part).Take?
  {
    Attachment(Classify(part).attachmentId, messageId, userId, Classify(part).fileName, service)
  }

  ghost predicate Increasing(idx: seq<nat>)
  {
    forall k, l :: 0 <= k < l < |idx| ==> idx[k] < idx[l]
  }

  /** `refs[k]` is the reference built from part `idx[k]`, which is taken. */
  ghost predicate BuiltFrom(parts: seq<Part>, refs: seq<Attachment>, idx: seq<nat>,
                            messageId: string, userId: string, service: Resource)
  {
    |idx| == |refs| &&
    forall k :: 0 <= k < |idx| ==>
      idx[k] < |parts| && Classify(parts[idx[k]]).Take? &&
      refs[k] == Reference(parts[idx[k]], messageId, userId, service)
  }

  /** Every taken part is listed in `idx`. */
  ghost predicate Covers(parts: seq<Part>, idx: seq<nat>)
  {
    forall i :: 0 <= i < |parts| && Classify(parts[i]).Take? ==> i in idx
  }

  /** `idx` lists, in increasing order, exactly the parts whose check takes
      them, and `refs[k]` is the reference built from part `idx[k]`. */
  ghost predicate SelectsParts(parts: seq<Part>, refs: seq<Attachment>, idx: seq<nat>,
                               messageId: string, userId: string, service: Resource)
  {
    BuiltFrom(parts, refs, idx, messageId, userId, service) && Increasing(idx) && Covers(parts, idx)
  }

  /** Each index moved one part to the right, with index 0 in front when `first`. */
  function Shift(idx: seq<nat>, first: bool): (r: seq<nat>)
    ensures |r| == |idx| + (if first then 1 else 0)
    ensures first ==> r[0] == 0 && forall k :: 1 <= k < |r| ==> r[k] == idx[k - 1] + 1
    ensures !first ==> forall k :: 0 <= k < |r| ==> r[k] == idx[k] + 1
  {
    var moved := seq(|idx|, k requires 0 <= k < |idx| => idx[k] + 1);
    if first then [0] + moved else moved
  }

  lemma ShiftIncreasing(idx: seq<nat>, first: bool)
    requires Increasing(idx)
    ensures Increasing(Shift(idx, first))
  {
  }

  lemma ShiftCovers(parts: seq<Part>, idx: seq<nat>, first: bool)
    requires parts != [] && Covers(parts[1..], idx)
    requires first == Classify(parts[0]).Take?
    ensures Covers(parts, Shift(idx, first))
  {
    var r := Shift(idx, first);
    var d := if first then 1 else 0;
    forall i | 0 <= i < |parts| && Classify(parts[i]).Take? ensures i in r {
      if i > 0 {
        assert parts[1..][i - 1] == parts[i];
        var k :| 0 <= k < |idx| && idx[k] == i - 1;
        assert r[k + d] == i by {
          if first { assert r[(k + 1)] == idx[(k + 1) - 1] + 1; }
        }
      }
    }
  }

  lemma ShiftBuiltFrom(parts: seq<Part>, refs: seq<Attachment>, idx: seq<nat>, first: bool,
                       messageId: string, userId: string, service: Resource)
    requires parts != [] && BuiltFrom(parts[1..], refs, idx, messageId, userId, service)
    requires !Classify(parts[0]).Raise? && first == Classify(parts[0]).Take?
    ensures BuiltFrom(parts, PartResult(parts[0], messageId, userId, service).value + refs,
                      Shift(idx, first), messageId, userId, service)
  {
    var r := Shift(idx, first);
    var d := if first then 1 else 0;
    var head := PartResult(parts[0], messageId, userId, service).value;
    var all := head + refs;
    assert |head| == d;
    forall k | 0 <= k < |r|
      ensures r[k] < |parts| && Classify(parts[r[k]]).Take? &&
              all[k] == Reference(parts[r[k]], messageId, userId, service)
    {
      if k >= d {
        assert r[k] == idx[k - d] + 1;
        assert parts[r[k]] == parts[1..][idx[k - d]];
        assert all[k] == refs[k - d];
      }
    }
  }

  /** A successful extraction is, in part order, exactly one reference per
      taken part, stamped with the message id, the user id and the service. */
  lemma {:induction false} ExtractedIsSubsequence(parts: seq<Part>, messageId: string, userId: string, service: Resource)
    returns (idx: seq<nat>)
    requires Extracted(parts, messageId, userId, service).Ok?
    ensures SelectsParts(parts, Extracted(parts, messageId, userId, service).value, idx, messageId, userId, service)
  {
    if parts == [] {
      idx := [];
    } else {
      var tail := ExtractedIsSubsequence(parts[1..], messageId, userId, service);
      var refs := Extracted(parts[1..], messageId, userId, service).value;
      var first := Classify(parts[0]).Take?;
      ShiftIncreasing(tail, first);
      ShiftCovers(parts, tail, first);
      ShiftBuiltFrom(parts, refs, tail, first, messageId, userId, service);
      idx := Shift(tail, first);
    }
  }

  /** A successful extraction holds no more references than there are parts. */
  lemma {:induction false} ExtractedBound(parts: seq<Part>, messageId: string, userId: string, service: Resource)
    requires Extracted(parts, messageId, userId, service).Ok?
    ensures |Extracted(parts, messageId, userId, service).value| <= |parts|
  {
    var idx := ExtractedIsSubsequence(parts, messageId, userId, service);
    IncreasingBound(idx, |parts|);
  }

  lemma {:induction false} IncreasingBound(idx: seq<nat>, n: nat)
    requires forall k :: 0 <= k < |idx| ==> idx[k] < n
    requires Increasing(idx)
    ensures |idx| <= n
  {
    if idx != [] {
      var last := idx[|idx| - 1];
      IncreasingBound(idx[..|idx| - 1], last);
    }
  }

  /** Every reference carries the message's id and the caller's user id, and
      its file name and attachment id are those of a part of the message. */
  lemma {:induction false} ExtractedStamped(parts: seq<Part>, messageId: string, userId: string, service: Resource)
    requires Extracted(parts, messageId, userId, service).Ok?
    ensures forall a :: a in Extracted(parts, messageId, userId, service).value ==>
      a.messageId == messageId && a.userId == userId &&
      (exists i :: 0 <= i < |parts| && parts[i].filename == Some(a.fileName) &&
         parts[i].body.Some? && parts[i].body.value.attachmentId == Some(a.attachmentId))
  {
    var refs := Extracted(parts, messageId, userId, service).value;
    var idx := ExtractedIsSubsequence(parts, messageId, userId, service);
    forall a | a in refs
      ensures a.messageId == messageId && a.userId == userId
      ensures exists i :: (0 <= i < |parts| && parts[i].filename == Some(a.fileName) &&
                           parts[i].body.Some? && parts[i].body.value.attachmentId == Some(a.attachmentId))
    {
      var k :| 0 <= k < |refs| && refs[k] == a;
      var i := idx[k];
      assert parts[i].filename == Some(a.fileName);
    }
  }
}
