/** The records of `gmail.py`: the provider's message dictionaries, read as
    datatypes whose optional keys are `Option` fields, and the two
    `NamedTuple`s the module builds from them (`Attachment`, `Email`). */
module Messages {
  import opened Wrappers
  import ForwardedFrom

  /** The Gmail service handle (`googleapiclient` `Resource`); only carried around. */
  type Resource

  /** A parsed timestamp (`datetime`); produced by a third-party parser. */
  type DateTime

  /** One entry of `payload["headers"]`: a `{"name": ..., "value": ...}` dictionary. */
  datatype Header = Header(name: string, value: string)

  /** `part["body"]`: a MessagePartBody dictionary; each of its keys may be absent. */
  datatype Body = Body(attachmentId: Option<string>, size: Option<int>, data: Option<string>)
  {
    /** Python truthiness of the dictionary: it has at least one key. */
    predicate IsTruthy() {
      attachmentId.Some? || size.Some? || data.Some?
    }
  }

  /** One entry of `payload["parts"]`; `filename` and `body` may be absent. */
  datatype Part = Part(filename: Option<string>, body: Option<Body>)

  /** `message["payload"]`; the `parts` key is absent for single-part messages. */
  datatype Payload = Payload(headers: seq<Header>, parts: Option<seq<Part>>)

  /** A message as returned by `messages().get(...)`. */
  datatype Message = Message(id: string, snippet: string, payload: Payload)

  /** The exception the source raises on a missing dictionary key. */
  datatype KeyError = KeyError(key: string)

  /** A reference to one attachment of one message; the payload bytes are
      fetched only when the attachment is saved. */
  datatype Attachment = Attachment(
    attachmentId: string,
    messageId: string,
    userId: string,
    fileName: string,
    service: Resource)

  /** The normalised message record. */
  datatype Email = Email(
    fromAddress: string,
    toAddress: string,
    ccAddresses: seq<string>,
    subject: string,
    snippet: string,
    body: string,
    dateReceived: DateTime,
    rawMessage: Message,
    gmailMessageId: string,
    attachments: seq<Attachment>)
  {
    /** The address of a `From: <...@...>` marker forwarded inside the snippet,
        or "" exactly when the snippet has no such match. */
    function ForwardedFromAddress(): (r: string)
      ensures r == "" <==> !ForwardedFrom.HasMatch(snippet)
      ensures r != "" ==> exists p, e :: ForwardedFrom.IsFirstCapture(snippet, 0, p, e) &&
                                         r == snippet[p + |ForwardedFrom.Marker|..e]
    {
      ForwardedFrom.FirstForwardedAddress(snippet)
    }
  }
}
