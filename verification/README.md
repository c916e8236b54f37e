# Bulk mail dispatch: a Dafny model

This project models the part of the résumé-mailing backend that sends one HTML
message, optionally with a résumé attached, to a batch of recipients through
the Gmail API:

- `GmailService.createMessage` builds a `multipart/mixed` message line by line
  (section 5.1.1 of RFC 2046 for the `--boundary` delimiters, section 5.1.3 for
  multipart/mixed). The lines are joined with `\n`, converted to UTF-8, encoded
  in standard base64 (section 4 of RFC 4648), then rewritten into unpadded
  base64url (section 5 of RFC 4648, with padding dropped as section 3.2 allows).
- `getMimeType` maps a file extension to a media type.
- `sendEmail` makes one provider call and wraps any error.
- `sendBulkEmails` runs one attempt per recipient, in order, and records each
  failure without stopping the batch.
- The `sendEmail` handler of the email controller validates the request in a
  fixed order. It resolves the template and the résumé, dispatches the batch,
  counts outcomes, hands one audit row to `EmailLog.create` and returns a
  summary.
- The `getEmailHistory` handler computes the page offset and the page count.

Modules, one per concern:

| file | module | models |
|---|---|---|
| wrappers.dfy | `Wrappers` | `Option`, `Result` (a thrown error's message), octets |
| utf8.dfy | `Utf8` | `Buffer.from(string)` (UTF-8) and a strict decoder |
| base64.dfy | `Base64` | `toString('base64')` and a decoder |
| base64url.dfy | `Base64Url` | the three `replace` calls and the inverse rewrite |
| decimal.dfy | `Decimal` | number-to-text in template literals, and a reader |
| mime.dfy | `Mime` | the extension table, the message lines, `join('\n')`, and a parser for the lines |
| gmail_service.dfy | `GmailService` | `createMessage`, `sendEmail`, `sendBulkEmails` |
| email_controller.dfy | `EmailController` | `sendEmail` and `getEmailHistory` handlers |

The outside world is passed in as parameters:

- `Date.now()` is `Environment.clock`, indexed by attempt number.
- The file system (`fs.existsSync`, `fs.readFileSync`) is `Environment.disk`, also per attempt.
  Each view of a path is `Missing`, `Readable(bytes)` or `Unreadable(error)`.
- `path.basename` and `path.extname` are `Environment.baseName` and `Environment.extName`.
- `gmail.users.messages.send` is `Environment.provider`. Given the attempt number and the
  raw envelope, it answers `Accepted(id)` or `Rejected(message)`.
- `Template.findOne` and `Resume.findOne` are partial maps keyed by `(id, userId)`.
- `EmailLog.create` is `writeLog`. It answers `Some(message)` when it throws.
- The row count of `findAndCountAll` is a plain argument.

Three behaviours of the code are easy to get wrong:

- A path that is set but names no file does not raise. `createMessage` leaves
  the attachment part out and the message is sent without it.
- The file is read inside `createMessage`, so it is read once per recipient, not
  once per batch. The model therefore gives every attempt its own view of the
  disk. A file that vanishes or changes mid-batch changes only the later messages.
- A file that exists but cannot be read makes `createMessage` throw. `sendEmail`
  catches that and re-raises it as `Failed to send email: <message>`. So it fails
  that one recipient, not the whole request.

## Model

| member | source | states |
|---|---|---|
| Utf8.Encode | src/services/gmailService.js:55 | the UTF-8 form of the joined text is between one and four octets per character, and exactly one per character for ASCII text |
| Utf8.DecodeEncode | src/services/gmailService.js:55 | the octets `Buffer.from` produces decode back to exactly the joined message text |
| Utf8.EncodeAscii | src/services/gmailService.js:55 | on ASCII text each octet is the character's code |
| Base64.Encode | src/services/gmailService.js:56 | standard base64 output of n octets has length 4·⌈n/3⌉ |
| Base64.EncodeShape | src/services/gmailService.js:56 | the output is alphabet digits followed by exactly (3 − n mod 3) mod 3 `=` pads |
| Base64.DecodeEncode | src/services/gmailService.js:38 | decoding the standard encoding of any octets gives back those octets (the attachment payload and the message) |
| Base64Url.Translate | src/services/gmailService.js:57-58 | after the two global replaces no `+` or `/` remains, and every other character is unchanged |
| Base64Url.StripPadding | src/services/gmailService.js:59 | only a trailing run of `=` is removed, and the result no longer ends in `=` |
| Base64Url.FromStandard | src/services/gmailService.js:57-59 | the replace chain leaves no `+` or `/`, never lengthens the text, and never leaves a trailing `=` |
| Base64Url.Encode | src/services/gmailService.js:55-59 | the envelope has no `+`, `/` or `=`, is ⌈4n/3⌉ characters long, and maps back into the standard alphabet |
| Base64Url.RoundTripShape | src/services/gmailService.js:57-59 | any digits-then-padding text whose padding re-padding to a multiple of four restores comes back unchanged from the rewrite and its reversal |
| Base64Url.DecodeEncode | src/services/gmailService.js:55-59 | mapping `-`→`+` and `_`→`/` and re-padding restores the standard encoding, which decodes to the original octets |
| Decimal.Show | src/services/gmailService.js:22 | a number renders as one or more decimal digits with no leading zero, a single digit exactly below 10 (the timestamp in the boundary, the counts in `${…}`) |
| Decimal.ParseShow | src/services/gmailService.js:22 | the decimal text of a number reads back as that number (boundary timestamp, counts in messages) |
| GmailService.Boundary | src/services/gmailService.js:22 | the boundary is `boundary_` followed by digits that read back as the clock value |
| Mime.Lower | src/services/gmailService.js:65 | lower-casing keeps the length, leaves no upper-case ASCII letter, turns each one into the letter 32 code points above, and keeps every other character |
| Mime.MediaType | src/services/gmailService.js:64-72 | `.pdf`, `.doc` and `.docx` get their fixed types exactly when the lower-cased extension is that key, and every other extension, including none, gets `application/octet-stream` |
| Mime.MediaTypeIgnoresCase | src/services/gmailService.js:65 | extensions that differ only in letter case get the same media type |
| Mime.MediaTypeExamples | src/services/gmailService.js:64-72 | `.PDF` and `.pdf` agree, `.DocX` is docx, and no extension or `.txt` falls back to octet-stream |
| Mime.TypesSingleLine | src/services/gmailService.js:66-71 | none of the four media types contains a newline |
| Mime.MediaTypeSingleLine | src/services/gmailService.js:40-44 | whatever media type an extension gets fits on the attachment's `Content-Type` line |
| Mime.Lines | src/services/gmailService.js:23-53 | the message has 11 lines without an attachment and 18 with one, and always ends with the closing delimiter `--<b>--` |
| Mime.ParseLines | src/services/gmailService.js:23-53 | recipient, subject, boundary, verbatim body, media type, file name and payload are all recovered from the lines |
| Mime.ParseHeadRendered | src/services/gmailService.js:23-34 | recipient, subject, boundary and body are recovered from the header block and the HTML part |
| Mime.ParseAttachmentRendered | src/services/gmailService.js:43-50 | media type, file name and payload are recovered from the attachment part |
| Mime.LinesOtherRecipient | src/services/gmailService.js:23-24 | changing the recipient changes the `To:` line and nothing else |
| Mime.LinesParse | src/services/gmailService.js:23-53 | the only line sequences that parse are rendered messages: headers `To`, `Subject`, `MIME-Version`, `Content-Type` and a blank line, in that order; the HTML part; an optional attachment part; then the closing delimiter |
| Mime.Join | src/services/gmailService.js:55 | joining one line gives that line; joining two or more starts with the first line and a newline |
| Mime.SplitJoin | src/services/gmailService.js:55 | joining newline-free lines with `\n` and splitting again gives the same lines |
| Mime.ParseText | src/services/gmailService.js:23-55 | a message with single-line fields reads back from its joined text |
| Mime.TextLayout | src/services/gmailService.js:23-55 | the joined text starts with the `To:` line, has the body verbatim after the HTML part's headers, and ends with the closing delimiter |
| GmailService.HasPathTruthiness | src/services/gmailService.js:36 | the attachment path is falsy when null or empty and truthy otherwise |
| GmailService.Compose | src/services/gmailService.js:21-51 | the attachment part is present iff the path is set and the file is readable; a missing file is silently skipped; a read failure is the only error; the part names the file by its basename and the media type of its extension, and its payload decodes to the file's bytes |
| GmailService.OnlyRecipientDiffers | src/services/gmailService.js:21-51 | with the same clock and file, two recipients' messages differ only in the `To:` line |
| GmailService.Envelope | src/services/gmailService.js:55-59 | the raw envelope contains no `+`, `/` or `=` |
| GmailService.OpenEnvelopeRoundTrip | src/services/gmailService.js:55-59 | the receiving side's decode of the envelope gives exactly the joined message octets and text |
| GmailService.ReadEnvelope | src/services/gmailService.js:21-61 | for single-line fields the envelope decodes back to the recipient, subject, body and attachment it was built from |
| GmailService.CreateMessage | src/services/gmailService.js:21-61 | `createMessage` throws exactly when the path is set and the file exists but cannot be read, with the read's error; otherwise its output is URL-safe |
| GmailService.CreateMessageOpens | src/services/gmailService.js:21-61 | what `createMessage` returns opens to the joined lines of the composed message |
| GmailService.BoundarySingleLine | src/services/gmailService.js:22 | the boundary contains no newline |
| GmailService.PayloadSingleLine | src/services/gmailService.js:38 | the base64 payload contains no newline |
| GmailService.CreateMessageReadsBack | src/services/gmailService.js:21-61 | when recipient, subject, body and file base name have no newline, what `createMessage` returns decodes and parses back to that recipient, subject and body and the generated boundary, with an attachment exactly when the file was readable, naming its base name and media type, whose payload decodes to the file's bytes |
| GmailService.SendEmail | src/services/gmailService.js:74-93 | success iff the message was composed and the provider accepted it, with the provider's id; a failure is `Failed to send email: ` followed by the read error of the attachment or, when the message was composed, the provider's rejection message |
| GmailService.Attempt | src/services/gmailService.js:98-112 | each loop iteration records the recipient as `sent` with the id or `failed` with the error text |
| GmailService.SendBulkEmails | src/services/gmailService.js:95-116 | one result per recipient, in input order, with `email` equal to that recipient; result j is decided by attempt j alone, so later recipients are attempted after a failure |
| GmailService.MissingFileAttempt | src/services/gmailService.js:36-53 | an attempt that finds the file missing succeeds exactly when the provider accepts the message without an attachment part |
| GmailService.MissingFileSendsWithoutAttachment | src/services/gmailService.js:36-53 | a résumé file deleted before the batch does not stop it: each recipient's outcome is the provider's answer to a message with no attachment part |
| GmailService.AllAcceptedAllSent | src/services/gmailService.js:95-116 | a provider that accepts everything, and a file that is never unreadable, make every recipient sent |
| GmailService.ResultIndependentOfOthers | src/services/gmailService.js:95-116 | a recipient's result does not depend on the other recipients of the batch |
| GmailService.SingleFailure | src/services/gmailService.js:95-116 | one failing attempt at any position leaves every other result `sent` |
| EmailController.IdTruthiness | src/controllers/emailController.js:19 | a template or résumé id is falsy when absent or 0 and truthy otherwise (also line 42) |
| EmailController.TextTruthiness | src/controllers/emailController.js:35 | a subject or body is falsy when absent or empty and truthy otherwise |
| EmailController.IdOrNull | src/controllers/emailController.js:74-75 | `templateId` and `resumeId` are logged iff truthy, else null |
| EmailController.ResolveContent | src/controllers/emailController.js:15-33 | a set template id with no template of this user is a miss; a hit replaces subject and body; otherwise the request's own are used |
| EmailController.ResolveAttachment | src/controllers/emailController.js:17-55 | a set résumé id with no résumé of this user is a miss; a hit gives its `filePath`; otherwise there is no attachment path |
| EmailController.CountSent | src/controllers/emailController.js:69 | the sent count is at most the number of results, and equals it exactly when every result is sent |
| EmailController.CountFailed | src/controllers/emailController.js:70 | the failed count is at most the number of results, and equals it exactly when every result failed |
| EmailController.CountsCoverResults | src/controllers/emailController.js:69-70 | the sent and failed counts add up to the number of results |
| EmailController.NoFailuresIffAllSent | src/controllers/emailController.js:69-79 | zero failures iff every result is sent; zero sent iff every result failed |
| EmailController.LogRecord | src/controllers/emailController.js:72-80 | log `status` is `sent` iff every recipient was sent; `errorMessage` is null iff status is `sent`, else `<failedCount> emails failed` |
| EmailController.Report | src/controllers/emailController.js:69-101 | a log row is handed to `EmailLog.create` for every finished batch; the reply is the 200 summary exactly when that write succeeds, reporting the results, total, sent and failed counts (sent + failed = total) and `Emails sent: s, Failed: f`, with the log status `sent` iff f = 0; a failing write is a 500 with `Failed to send emails` and the write's error |
| EmailController.Dispatch | src/controllers/emailController.js:62-93 | the attempts are exactly `sendBulkEmails` over the recipients, and a log row for those recipients is always handed to `EmailLog.create` (the write itself may throw) |
| EmailController.SendEmail | src/controllers/emailController.js:4-101 | the reply is a 400/404 refusal exactly when no log row is handed to `EmailLog.create`, and a refused request makes no attempt; otherwise the row handed to it lists the request's recipients and there is one attempt per recipient |
| EmailController.DispatchIffAdmissible | src/controllers/emailController.js:8-55 | the batch starts, and a log row is handed to `EmailLog.create`, exactly when every pre-dispatch check passes |
| EmailController.RecipientsCheckedFirst | src/controllers/emailController.js:8-13 | missing or empty recipients give 400 whatever the stores, provider or log hold |
| EmailController.TemplateLookupScopedToCaller | src/controllers/emailController.js:19-29 | a template id with no template owned by the caller gives 404 and nothing is sent |
| EmailController.TemplateOverridesRequest | src/controllers/emailController.js:31-32 | when the template is found, the request's subject and body have no effect |
| EmailController.ContentCheckedBeforeResume | src/controllers/emailController.js:35-40 | an empty resolved subject or body gives 400, even if the résumé is also missing |
| EmailController.ResumeLookupScopedToCaller | src/controllers/emailController.js:42-52 | a résumé id with no résumé owned by the caller gives 404 before dispatch |
| EmailController.DispatchUsesResolvedContent | src/controllers/emailController.js:54-67 | an admissible request dispatches the resolved subject and body with the résumé's path (or none) to the request's recipients |
| EmailController.AllFailedStillDelivered | src/controllers/emailController.js:69-91 | when every send fails the reply is still the 200 summary, with zero sent, and the log records the failure count |
| EmailController.AllSentReportsSuccess | src/controllers/emailController.js:69-91 | when every send succeeds the summary is (n, n, 0), the message reads `Emails sent: n, Failed: 0`, and the log row is `sent` with a null error message |
| EmailController.Offset | src/controllers/emailController.js:106-107 | the default page gives offset 0, and a page of at least 1 with a non-negative limit gives a non-negative offset |
| EmailController.OffsetStride | src/controllers/emailController.js:106-107 | page 1, and the default page, start at offset 0, and every page starts exactly one limit (10 by default) after the page before it, so page p starts at (p − 1)·limit |
| EmailController.PageCountOf | src/controllers/emailController.js:136 | for a positive limit the page count is the least n with n·limit ≥ count, so (n−1)·limit < count ≤ n·limit when count > 0 and n = 0 when count = 0; limit 0 gives Infinity, or NaN when count is 0 |
| EmailController.History | src/controllers/emailController.js:104-139 | the reply echoes count, page and limit with their defaults 1 and 10 |
| EmailController.PagesCoverRows | src/controllers/emailController.js:107-136 | every page from 1 to `pages` starts inside the rows, and page `pages + 1` starts past them |
| EmailController.HistoryExample | src/controllers/emailController.js:106-136 | with the defaults, 25 rows give 3 pages, page 3 starts at offset 20, and no rows give 0 pages |

## Left out

- OAuth client construction, credential handling and token refresh (`src/services/gmailService.js:6-19`): these are library calls. The provider is the `provider` oracle.
- The Sequelize queries and model definitions: lookups are partial maps and the log write is an oracle. The rows `findAndCountAll` returns, with their includes and ordering, are not modelled; only the row count enters.
- The JSON getter and setter of `EmailLog.recipients`: this is a call into the JSON library. The log row carries the recipient sequence itself.
- `getEmailById` (`src/controllers/emailController.js:148-184`): a single keyed lookup with a 404, not part of the dispatch path.
- Other exceptions caught by the 500 path (`src/controllers/emailController.js:94-101`): only the log-write failure is modelled (`ServerError`). A request body of the wrong type is outside the model. Recipients are a sequence of strings; subject and body are strings or absent.
- EmailController.History: assumes `findAndCountAll` succeeds for every page and limit. A page below 1 or a negative limit gives a negative OFFSET or LIMIT, which the database rejects; the handler would then take its 500 path (`src/controllers/emailController.js:140-145`), and that path of `getEmailHistory` is not modelled. EmailController.PageCountOf still states `Math.ceil(count / limit)` for such limits, as the expression is written.
- Query parameters of `getEmailHistory` are integers or absent. String-to-number coercion and `parseInt` of non-numeric text (NaN) are not modelled.
- Console logging.
- Lone UTF-16 surrogates in JavaScript strings: Dafny characters are Unicode scalar values, so `Buffer.from`'s replacement of lone surrogates by U+FFFD is outside the model.
- Mime.Lower: lower-cases ASCII letters only. `toLowerCase` also folds non-ASCII letters, but no non-ASCII letter folds to one of `p`, `d`, `f`, `o`, `c`, `x`, so the table lookup is unaffected.
- Mime.ParseText, GmailService.ReadEnvelope and GmailService.CreateMessageReadsBack: they recover the message from its text only when no field contains a newline. A body that spans several lines is still carried verbatim (Mime.TextLayout), but splitting on `\n` cannot tell its lines from the message's own.
- The HTTP wiring, authentication middleware, routes, the CRUD controllers and migrations are outside this model.
