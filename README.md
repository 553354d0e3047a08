# gmail-api message helpers, in Dafny

This project models the pure message-normalisation helpers of `gmail.py`, a
small script that lists Gmail messages through the Gmail API and turns each
one into an `Email` record with its `Attachment` references. The modelled
helpers are the following:

- `get_from_headers` reads a header value. It scans the `payload["headers"]`
  list in order and returns the value of the first header whose name is
  exactly the requested one, or `""` when there is none.
- `get_attachments_from_message` collects the attachment references. It walks
  `payload["parts"]` and keeps, in part order, each part that has a non-empty
  `filename`, a non-empty `body` dictionary and a non-empty
  `body["attachmentId"]`. Each kept part is stamped with the message id, the
  user id and the service handle. A payload without `parts` gives an empty
  list.
- The CC split inside `get_emails` turns the raw `Cc` header value into the
  tuple of its comma-separated pieces, without trimming. An empty or missing
  header gives the empty tuple.
- `Email.forwarded_from_address` returns the group of the first match of
  `From: <(\S+@\S+)>` in the snippet, or `""`.

Files and modules:

- `wrappers.dfy` (`Wrappers`): `Option` and `Result`.
- `messages.dfy` (`Messages`): the records. The provider's dictionaries become
  datatypes, and keys that may be absent become `Option` fields: `Part.filename`,
  `Part.body`, `Body.attachmentId`/`size`/`data` and `Payload.parts`. The
  `Attachment` and `Email` named tuples also live here, and so does the
  `KeyError` the source raises. The service handle (`Resource`) and the parsed
  date (`DateTime`) are abstract types.
- `headers.dfy` (`HeaderLookup`): `get_from_headers` as a recursive function.
- `cc_split.dfy` (`CcSplit`): Python's `str.split(",")`, its inverse
  `",".join`, and the CC field.
- `attachments.dfy` (`AttachmentExtraction`): the source's `for` loop as a
  method. The method is proved equal to `Extracted`, a recursive
  specification function, and the lemmas about `Extracted` say what the result
  is.
- `forwarded.dfy` (`ForwardedFrom`): the regular-expression search, stated as
  a search and not as backtracking. A match starts where the literal
  `From: <` stands. Its group is a run of non-whitespace characters that holds
  an `@` with text on both sides, and the run is followed directly by `>`. The
  engine reports the leftmost start. Both `\S+` are greedy, so at that start
  it takes the longest group, which ends at the last `>` of the whitespace-free
  run. `\s` is the set of characters Python's `str.isspace()` accepts, because
  the pattern is a `str` pattern.

Points where the code decides and the model follows it:

- A part with a non-empty file name and a truthy body but no `attachmentId`
  key raises `KeyError` (gmail.py:97). So does a part with no `filename` key,
  and a part with a non-empty file name but no `body` key. Each of these is an
  `Err(KeyError(key))` result, and the first part that raises decides the
  error. An empty `body` dictionary or an empty file name skips the part
  without raising, because of Python's short-circuit `and`.
- A part is kept only when its `body` is non-empty and its `attachmentId` is
  non-empty, as well as its file name.
- `get_from_headers` also returns `""` when the first header of that name has
  an empty value. So `""` means "absent, or present and empty", as
  `HeaderLookup.EmptyResultIff` states in both directions.
- The code has no pagination (one `list` call, gmail.py:113), no ledger of
  processed messages, and no slug derivation. The date is parsed without a
  fallback, so a bad `Date` header raises. None of these are modelled.

## Model

| member | source | states |
|---|---|---|
| HeaderLookup.GetFromHeaders | gmail.py:82-86 | With no header of that name the result is `""`. When index `i` holds the first header of that name, the result is that header's value. |
| HeaderLookup.FirstNamedExists | gmail.py:83-85 | When some header has the name, there is a first such index, and the lookup returns that header's value. |
| HeaderLookup.LaterDuplicatesIgnored | gmail.py:83-85 | Once a header of that name is present, appending more headers (duplicates included) does not change the result. |
| HeaderLookup.EmptyResultIff | gmail.py:82-86 | The result is `""` if and only if the name is absent or the first header of that name has an empty value. A missing name never fails. |
| HeaderLookup.CaseSensitiveMatch | gmail.py:84 | A header named `cc` is not found by a lookup of `Cc`, and a later `Cc` header is. |
| CcSplit.SplitCount | gmail.py:126 | `split(",")` gives one more piece than the text has commas. |
| CcSplit.SplitCommaFree | gmail.py:126 | No piece of `split(",")` contains a comma. |
| CcSplit.JoinSplit | gmail.py:126 | Joining the pieces with `,` reproduces the text exactly, so no piece is trimmed. |
| CcSplit.SplitJoin | gmail.py:126 | Splitting `",".join(pieces)` gives back any non-empty list of comma-free pieces. |
| CcSplit.CcAddresses | gmail.py:125-128 | An empty value gives `()`. Otherwise the result has (comma count + 1) comma-free pieces that join back to the raw value. |
| CcSplit.CcAddressesOf | gmail.py:124-128 | A message without a `Cc` header, or whose `Cc` value is empty, has no CC addresses. A non-empty `Cc` value gives (comma count + 1) comma-free pieces that join back to that value. |
| CcSplit.CcExample | gmail.py:124-128 | `"a@x.com, b@y.com,,"` becomes `["a@x.com", " b@y.com", "", ""]`: the space is kept and empty fields stay. |
| AttachmentExtraction.Classify | gmail.py:97-100 | A part is taken iff it has a non-empty filename, a non-empty body and a non-empty `attachmentId`. The taken values are the part's own. It raises `KeyError` on `filename` iff that key is absent. It raises on `body` iff the filename is non-empty and the body is absent. It raises on `attachmentId` iff the filename and body are non-empty and the id is absent. |
| AttachmentExtraction.GetAttachmentsFromMessage | gmail.py:89-107 | A payload without `parts` gives the empty list. Otherwise the loop's result equals `Extracted` over the parts (references in part order, or the first part's `KeyError`). |
| AttachmentExtraction.ExtractedOkIff | gmail.py:96-97 | Extraction succeeds if and only if no part's check raises. |
| AttachmentExtraction.ExtractedFirstError | gmail.py:96-97 | A failed extraction reports the `KeyError` of the first part whose check raises. Every earlier part passed its check. |
| AttachmentExtraction.ExtractedIsSubsequence | gmail.py:96-106 | A successful result is exactly one reference per taken part, in increasing part order, with every taken part present. Each reference is built from its part with the message id, user id and service. |
| AttachmentExtraction.ExtractedBound | gmail.py:93-107 | A successful result has no more references than the message has parts. |
| AttachmentExtraction.ExtractedStamped | gmail.py:99-104 | Every reference has `message_id` equal to the message's id and `user_id` equal to the argument. Its file name and attachment id are those of one of the message's parts. |
| ForwardedFrom.LongestCaptureAt | gmail.py:53 | At position `p` it returns the end of a match starting there, and no match at `p` ends later. When it returns nothing, no match starts at `p`. |
| ForwardedFrom.FirstCapture | gmail.py:54-55 | A search from `from` returns the leftmost match start at or after `from`, with its longest group. When it returns nothing, no match starts at or after `from`. |
| ForwardedFrom.FirstForwardedAddress | gmail.py:51-56 | The result is `""` iff the snippet has no match. Otherwise it is the group of the leftmost match, with the longest group at that start. |
| ForwardedFrom.CaptureShape | gmail.py:53 | The group of any match is whitespace-free, contains an `@` with text on both sides, and stands in the snippet as `From: <` + group + `>`. |
| ForwardedFrom.ForwardedAddressShape | gmail.py:53-56 | A non-empty result is whitespace-free and has an `@` with text on both sides. `"From: <" + result + ">"` occurs in the snippet. |
| ForwardedFrom.ForwardedOfMarker | gmail.py:53-56 | For `pre + "From: <" + addr + ">" + post`, the result is `addr` when three conditions hold: `pre` has no `<`; `addr` is address-like (it may hold `>`); and `post` is empty or starts with whitespace. |
| ForwardedFrom.GreedyExample | gmail.py:53-55 | `"From: <a@b>c> x"` yields `"a@b>c"`: the greedy group runs to the last `>` before whitespace. |
| Messages.Email.ForwardedFromAddress | gmail.py:51-56 | The `forwarded_from_address` property of an `Email`: `""` iff its snippet has no match, otherwise the group of the leftmost match with the longest group there (it delegates to `ForwardedFrom.FirstForwardedAddress`). |
| ForwardedFrom.ForwardedExample | gmail.py:51-56 | `"On Mon, Bob wrote: From: <alice@example.com> wrote:"` yields `"alice@example.com"`. |
| ForwardedFrom.NoMarkerGivesEmpty | gmail.py:54-56 | Any snippet in which `From: <` occurs nowhere yields `""`. |

## Left out

- `get_service` (gmail.py:59-79) is not modelled. It is the OAuth flow, the `token.pickle` credential cache and file I/O.
- `Attachment.save_to_file` (gmail.py:25-36) is not modelled. It is a remote API call, a library base64 decode and a file write.
- The remote calls of `get_emails` and `main` (gmail.py:110-118, 148-151) are not modelled: `messages().list` and `messages().get`. The service handle is an abstract `Resource` that the model only carries.
- The assembly of the `Email` record (gmail.py:119-144) is not modelled as an operation. It needs the remote fetch, `dateutil.parser.parse` and `html.unescape`, which are third-party or library parsers. Its header-derived fields are the lookups modelled here, and the CC field is `CcSplit.CcAddressesOf`.
- `get_from_headers` reads `h["name"]` only for the headers its scan reaches (up to and including the first match, gmail.py:84) and `h["value"]` only for that first match (gmail.py:85); a reached header without `"name"`, or a first match without `"value"`, would raise `KeyError`. The model's `Header` always has both keys, as the Gmail API always sends them, so these `KeyError`s are not modelled. A message without `"id"` or `"payload"` is ruled out the same way.
- Nested parts (`parts` inside a part) are not visited, exactly as in the source. The model's `Part` carries only the keys the code reads.
