/** `GmailService`: composing and encoding one message, submitting it, and the
    ordered, failure-isolated loop over a batch of recipients.
    Everything the class consults outside its arguments is a parameter: the
    clock, the file system, `path` and the provider's send call. */
module GmailService {
  import opened Wrappers
  import Utf8
  import Base64
  import Base64Url
  import Decimal
  import Mime

  /** What `fs.existsSync` and `fs.readFileSync` observe for one path at one moment. */
  datatype FileState = Missing | Readable(content: seq<uint8>) | Unreadable(error: string)

  /** The provider's answer to one `users.messages.send` call. */
  datatype ProviderReply = Accepted(id: string) | Rejected(message: string)

  /** The world as seen by the service; attempt `i` of a batch sees `clock(i)`,
      `disk(i)` and `provider(i, ·)`, so the clock may advance and the file may
      change between recipients. */
  datatype Environment = Environment(
    clock: nat -> nat,
    disk: nat -> string -> FileState,
    baseName: string -> string,
    extName: string -> string,
    provider: (nat, string) -> ProviderReply)

  /** The per-recipient entry of the batch result. */
  datatype RecipientResult =
    | Sent(email: string, messageId: string)
    | Failed(email: string, error: string)

  const SendErrorPrefix: string := "Failed to send email: "

  /** `'boundary_' + Date.now()`. */
  function Boundary(now: nat): (b: string)
    ensures |b| > 9 && b[..9] == "boundary_"
    ensures Decimal.Parse(b[9..]) == Some(now)
  {
    Decimal.ParseShow(now);
    "boundary_" + Decimal.Show(now)
  }

  /** JavaScript truthiness of the attachment path: neither null nor empty. */
  predicate HasPath(path: Option<string>) {
    path.Some? && path.value != ""
  }

  /** `null` and `''` are the falsy paths; any other string is truthy. */
  lemma HasPathTruthiness(path: Option<string>)
    ensures !HasPath(None) && !HasPath(Some(""))
    ensures path.Some? && |path.value| > 0 ==> HasPath(path)
  {
  }

  /** The message structure `createMessage` builds, or the error that reading
      the attachment throws. A missing file is not an error: the part is left out. */
  function Compose(to: string, subject: string, body: string, boundary: string,
                   path: Option<string>, disk: string -> FileState,
                   baseName: string -> string, extName: string -> string): (r: Result<Mime.Message>)
    ensures r.Failure? <==> HasPath(path) && disk(path.value).Unreadable?
    ensures r.Failure? ==> r.error == disk(path.value).error
    ensures r.Success? ==>
      && r.value.to == to && r.value.subject == subject
      && r.value.body == body && r.value.boundary == boundary
    ensures r.Success? ==> (r.value.attachment.Some? <==> HasPath(path) && disk(path.value).Readable?)
    ensures r.Success? && r.value.attachment.Some? ==>
      && r.value.attachment.value.fileName == baseName(path.value)
      && r.value.attachment.value.mediaType == Mime.MediaType(extName(path.value))
      && Base64.Decode(r.value.attachment.value.payload) == Some(disk(path.value).content)
  {
    var plain := Mime.Message(to, subject, boundary, body, None);
    if !HasPath(path) then Success(plain)
    else match disk(path.value)
      case Missing => Success(plain)
      case Unreadable(e) => Failure(e)
      case Readable(bytes) =>
        Base64.DecodeEncode(bytes);
        var a := Mime.Attachment(Mime.MediaType(extName(path.value)), baseName(path.value), Base64.Encode(bytes));
        Success(plain.(attachment := Some(a)))
  }

  /** The transport envelope: lines joined with `\n`, UTF-8 encoded, then
      unpadded base64url. */
  function Envelope(m: Mime.Message): (raw: string)
    ensures forall i :: 0 <= i < |raw| ==> raw[i] != '+' && raw[i] != '/' && raw[i] != '='
  {
    Base64Url.Encode(Utf8.Encode(Mime.Join(Mime.Lines(m))))
  }

  /** The receiving side of `Envelope`: re-pad, reverse the URL-safe rewrite,
      base64-decode and UTF-8-decode. */
  function OpenEnvelope(raw: string): Option<string> {
    var bytes :- Base64.Decode(Base64Url.ToStandard(raw));
    Utf8.Decode(bytes)
  }

  /** The envelope carries exactly the joined message text. */
  lemma OpenEnvelopeRoundTrip(m: Mime.Message)
    ensures Base64.Decode(Base64Url.ToStandard(Envelope(m))) == Some(Utf8.Encode(Mime.Join(Mime.Lines(m))))
    ensures OpenEnvelope(Envelope(m)) == Some(Mime.Join(Mime.Lines(m)))
  {
    var text := Mime.Join(Mime.Lines(m));
    Base64Url.DecodeEncode(Utf8.Encode(text));
    Utf8.DecodeEncode(text);
  }

  /** When no field spans several lines, the envelope decodes back to the very
      recipient, subject, body and attachment it was built from. */
  lemma ReadEnvelope(m: Mime.Message)
    requires Mime.SingleLineFields(m)
    ensures OpenEnvelope(Envelope(m)).Some?
    ensures Mime.Parse(Mime.Split(OpenEnvelope(Envelope(m)).value)) == Some(m)
  {
    OpenEnvelopeRoundTrip(m);
    Mime.ParseText(m);
  }

  /** `createMessage` for attempt `i` of a batch. */
  function CreateMessage(env: Environment, i: nat, to: string, subject: string, body: string,
                         path: Option<string>): (r: Result<string>)
    ensures r.Failure? <==> HasPath(path) && env.disk(i)(path.value).Unreadable?
    ensures r.Failure? ==> r.error == env.disk(i)(path.value).error
    ensures r.Success? ==> forall k :: 0 <= k < |r.value| ==> r.value[k] != '+' && r.value[k] != '/' && r.value[k] != '='
  {
    match Compose(to, subject, body, Boundary(env.clock(i)), path, env.disk(i), env.baseName, env.extName)
    case Failure(e) => Failure(e)
    case Success(m) => Success(Envelope(m))
  }

  /** What `createMessage` hands to the provider opens to the joined lines of
      the composed message. */
  lemma CreateMessageOpens(env: Environment, i: nat, to: string, subject: string, body: string,
                           path: Option<string>)
    requires CreateMessage(env, i, to, subject, body, path).Success?
    ensures var c := Compose(to, subject, body, Boundary(env.clock(i)), path, env.disk(i), env.baseName, env.extName);
      && c.Success?
      && OpenEnvelope(CreateMessage(env, i, to, subject, body, path).value) == Some(Mime.Join(Mime.Lines(c.value)))
  {
    var c := Compose(to, subject, body, Boundary(env.clock(i)), path, env.disk(i), env.baseName, env.extName);
    OpenEnvelopeRoundTrip(c.value);
  }

  /** The boundary is `boundary_` followed by decimal digits, so it fits on the
      `Content-Type` line and on each delimiter line. */
  lemma BoundarySingleLine(now: nat)
    ensures Mime.NoNewline(Boundary(now))
  {
    var digits := Decimal.Show(now);
    forall k | 0 <= k < |Boundary(now)|
      ensures Boundary(now)[k] != '\n'
    {
      if k >= 9 {
        assert Boundary(now)[k] == digits[k - 9];
      }
    }
  }

  /** A base64 payload is digits followed by `=` padding: it never breaks a line. */
  lemma PayloadSingleLine(bytes: seq<uint8>)
    ensures Mime.NoNewline(Base64.Encode(bytes))
  {
    var s := Base64.Encode(bytes);
    Base64.EncodeShape(bytes);
  }

  /** What `createMessage` returns reads back, once decoded and split into lines,
      as the recipient, subject, body and boundary it was given, with the file's
      base name, media type and content when the file was readable. Only the
      caller's text and the file's base name can hold a newline; everything the
      service generates is single-line. */
  lemma CreateMessageReadsBack(env: Environment, i: nat, to: string, subject: string, body: string,
                               path: Option<string>)
    requires CreateMessage(env, i, to, subject, body, path).Success?
    requires Mime.NoNewline(to) && Mime.NoNewline(subject) && Mime.NoNewline(body)
    requires HasPath(path) ==> Mime.NoNewline(env.baseName(path.value))
    ensures OpenEnvelope(CreateMessage(env, i, to, subject, body, path).value).Some?
    ensures var m := Mime.Parse(Mime.Split(OpenEnvelope(CreateMessage(env, i, to, subject, body, path).value).value));
      && m.Some?
      && m.value.to == to && m.value.subject == subject && m.value.body == body
      && m.value.boundary == Boundary(env.clock(i))
      && (m.value.attachment.Some? <==> HasPath(path) && env.disk(i)(path.value).Readable?)
      && (m.value.attachment.Some? ==>
            && m.value.attachment.value.fileName == env.baseName(path.value)
            && m.value.attachment.value.mediaType == Mime.MediaType(env.extName(path.value))
            && Base64.Decode(m.value.attachment.value.payload) == Some(env.disk(i)(path.value).content))
  {
    var c := Compose(to, subject, body, Boundary(env.clock(i)), path, env.disk(i), env.baseName, env.extName);
    assert c.Success? && CreateMessage(env, i, to, subject, body, path).value == Envelope(c.value);
    BoundarySingleLine(env.clock(i));
    if c.value.attachment.Some? {
      var bytes := env.disk(i)(path.value).content;
      assert c.value.attachment.value.payload == Base64.Encode(bytes);
      PayloadSingleLine(bytes);
      Mime.MediaTypeSingleLine(env.extName(path.value));
    }
    ReadEnvelope(c.value);
  }

  /** `sendEmail`: one provider call; any error, from composing or from the
      provider, is re-raised with the `Failed to send email: ` prefix. */
  function SendEmail(env: Environment, i: nat, to: string, subject: string, body: string,
                     path: Option<string>): (r: Result<string>)
    ensures r.Failure? ==> |r.error| >= |SendErrorPrefix| && r.error[..|SendErrorPrefix|] == SendErrorPrefix
    ensures r.Success? <==> CreateMessage(env, i, to, subject, body, path).Success?
                            && env.provider(i, CreateMessage(env, i, to, subject, body, path).value).Accepted?
    ensures r.Success? ==> r.value == env.provider(i, CreateMessage(env, i, to, subject, body, path).value).id
    ensures r.Failure? ==>
      r.error == SendErrorPrefix + (if CreateMessage(env, i, to, subject, body, path).Failure?
                                    then env.disk(i)(path.value).error
                                    else env.provider(i, CreateMessage(env, i, to, subject, body, path).value).message)
  {
    match CreateMessage(env, i, to, subject, body, path)
    case Failure(e) => Failure(SendErrorPrefix + e)
    case Success(raw) =>
      match env.provider(i, raw)
      case Accepted(id) => Success(id)
      case Rejected(msg) => Failure(SendErrorPrefix + msg)
  }

  /** One iteration of the loop of `sendBulkEmails`: the thrown error is caught
      and recorded against the recipient. */
  function Attempt(env: Environment, i: nat, to: string, subject: string, body: string,
                   path: Option<string>): (r: RecipientResult)
    ensures r.email == to
    ensures r.Sent? <==> SendEmail(env, i, to, subject, body, path).Success?
    ensures r.Sent? ==> r.messageId == SendEmail(env, i, to, subject, body, path).value
    ensures r.Failed? ==> r.error == SendEmail(env, i, to, subject, body, path).error
  {
    match SendEmail(env, i, to, subject, body, path)
    case Success(id) => Sent(to, id)
    case Failure(e) => Failed(to, e)
  }

  /** A sequential pass over `items` from position `k`, one `step` per item. */
  function InOrder<T, R>(step: (nat, T) -> R, items: seq<T>, k: nat): (r: seq<R>)
    requires k <= |items|
    ensures |r| == |items| - k
    ensures forall i :: k <= i < |items| ==> r[i - k] == step(i, items[i])
    decreases |items| - k
  {
    if k == |items| then [] else [step(k, items[k])] + InOrder(step, items, k + 1)
  }

  /** `sendBulkEmails`: one result per recipient, in input order; the result at
      position `j` is decided by attempt `j` alone. */
  function SendBulkEmails(env: Environment, recipients: seq<string>, subject: string, body: string,
                          path: Option<string>): (r: seq<RecipientResult>)
    ensures |r| == |recipients|
    ensures forall j :: 0 <= j < |r| ==> r[j].email == recipients[j]
    ensures forall j :: 0 <= j < |r| ==> r[j] == Attempt(env, j, recipients[j], subject, body, path)
  {
    InOrder((i: nat, to: string) => Attempt(env, i, to, subject, body, path), recipients, 0)
  }

  /** An attempt that finds the résumé file missing sends the message without
      an attachment part, and succeeds exactly when the provider accepts that. */
  lemma MissingFileAttempt(env: Environment, i: nat, to: string, subject: string, body: string,
                           path: Option<string>)
    requires HasPath(path) && env.disk(i)(path.value).Missing?
    ensures var m := Mime.Message(to, subject, Boundary(env.clock(i)), body, None);
      Attempt(env, i, to, subject, body, path).Sent? <==> env.provider(i, Envelope(m)).Accepted?
  {
    var m := Mime.Message(to, subject, Boundary(env.clock(i)), body, None);
    assert Compose(to, subject, body, Boundary(env.clock(i)), path, env.disk(i), env.baseName, env.extName) == Success(m);
    assert CreateMessage(env, i, to, subject, body, path) == Success(Envelope(m));
  }

  /** A résumé file deleted before the batch does not stop it: every recipient
      is still attempted, with a message that has no attachment part. */
  lemma MissingFileSendsWithoutAttachment(env: Environment, recipients: seq<string>, subject: string,
                                          body: string, path: Option<string>)
    requires HasPath(path)
    requires forall i: nat :: env.disk(i)(path.value).Missing?
    ensures var r := SendBulkEmails(env, recipients, subject, body, path);
      forall j :: 0 <= j < |r| ==>
        var m := Mime.Message(recipients[j], subject, Boundary(env.clock(j)), body, None);
        (r[j].Sent? <==> env.provider(j, Envelope(m)).Accepted?)
  {
    forall j | 0 <= j < |recipients| {
      MissingFileAttempt(env, j, recipients[j], subject, body, path);
    }
  }

  /** A provider that accepts every message, and an attachment that is never
      unreadable, make every recipient of the batch sent. */
  lemma AllAcceptedAllSent(env: Environment, recipients: seq<string>, subject: string,
                           body: string, path: Option<string>)
    requires forall i: nat, raw: string :: env.provider(i, raw).Accepted?
    requires HasPath(path) ==> forall i: nat :: !env.disk(i)(path.value).Unreadable?
    ensures forall j :: 0 <= j < |recipients| ==> SendBulkEmails(env, recipients, subject, body, path)[j].Sent?
  {
    forall j | 0 <= j < |recipients|
      ensures SendBulkEmails(env, recipients, subject, body, path)[j].Sent?
    {
      var c := CreateMessage(env, j, recipients[j], subject, body, path);
      assert c.Success?;
      assert env.provider(j, c.value).Accepted?;
    }
  }

  /** Failure isolation: a recipient's result does not depend on who else is in
      the batch, only on its own position and the world at that attempt. */
  lemma ResultIndependentOfOthers(env: Environment, rs1: seq<string>, rs2: seq<string>,
                                  subject: string, body: string, path: Option<string>, j: nat)
    requires j < |rs1| && j < |rs2| && rs1[j] == rs2[j]
    ensures SendBulkEmails(env, rs1, subject, body, path)[j] == SendBulkEmails(env, rs2, subject, body, path)[j]
  {
  }

  /** One failing attempt at any position leaves every other recipient sent. */
  lemma SingleFailure(env: Environment, recipients: seq<string>, subject: string, body: string,
                      path: Option<string>, k: nat)
    requires k < |recipients|
    requires forall j :: 0 <= j < |recipients| ==>
      (SendEmail(env, j, recipients[j], subject, body, path).Failure? <==> j == k)
    ensures var r := SendBulkEmails(env, recipients, subject, body, path);
      && r[k].Failed?
      && forall j :: 0 <= j < |r| && j != k ==> r[j].Sent?
  {
  }

  /** Two recipients of one batch, seeing the same clock and file, get messages
      that differ only in the `To:` line. */
  lemma OnlyRecipientDiffers(to1: string, to2: string, subject: string, body: string, boundary: string,
                             path: Option<string>, disk: string -> FileState,
                             baseName: string -> string, extName: string -> string)
    requires Compose(to1, subject, body, boundary, path, disk, baseName, extName).Success?
    ensures var c2 := Compose(to2, subject, body, boundary, path, disk, baseName, extName);
      c2.Success? &&
      var l1 := Mime.Lines(Compose(to1, subject, body, boundary, path, disk, baseName, extName).value);
      var l2 := Mime.Lines(c2.value);
      && |l1| == |l2|
      && l1[0] == "To: " + to1 && l2[0] == "To: " + to2
      && l1[1..] == l2[1..]
  {
    var m1 := Compose(to1, subject, body, boundary, path, disk, baseName, extName).value;
    assert Compose(to2, subject, body, boundary, path, disk, baseName, extName) == Success(m1.(to := to2));
    Mime.LinesOtherRecipient(m1, to2);
  }
}
