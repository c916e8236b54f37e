/** The `sendEmail` and `getEmailHistory` request handlers: pre-dispatch
    validation in a fixed order, template and résumé resolution, the batch
    dispatch, the counts, the audit log record and the response summary, and
    the pagination arithmetic of the history listing. Database lookups are
    partial maps keyed by `(id, userId)`; writing the log is an oracle that
    may throw. */
module EmailController {
  import opened Wrappers
  import Decimal
  import opened GmailService

  /** The fields of the request body the handler reads. */
  datatype Request = Request(
    recipients: Option<seq<string>>,
    templateId: Option<int>,
    resumeId: Option<int>,
    subject: Option<string>,
    body: Option<string>)

  datatype Template = Template(subject: string, body: string)

  datatype Resume = Resume(filePath: string)

  /** The rows visible to `findOne`, keyed by `(id, userId)`. */
  datatype Store = Store(templates: map<(int, int), Template>, resumes: map<(int, int), Resume>)

  datatype LogStatus = LogSent | LogFailed

  /** The row handed to `EmailLog.create`. */
  datatype EmailLog = EmailLog(
    userId: int,
    templateId: Option<int>,
    resumeId: Option<int>,
    recipients: seq<string>,
    subject: string,
    status: LogStatus,
    errorMessage: Option<string>)

  datatype Summary = Summary(total: nat, sent: nat, failed: nat)

  /** The HTTP reply: 400/404 before dispatch, 200 with the batch results, or
      500 when writing the log throws. */
  datatype Response =
    | Refused(status: nat, message: string)
    | Delivered(message: string, results: seq<RecipientResult>, summary: Summary)
    | ServerError(message: string, error: string)

  /** The reply, the row handed to `EmailLog.create` (if the handler got that
      far; the write may still have thrown) and the per-recipient attempts made
      (empty when the batch never started). */
  datatype Outcome = Outcome(response: Response, log: Option<EmailLog>, attempts: seq<RecipientResult>)

  const NoRecipients: string := "At least one recipient is required"
  const TemplateNotFound: string := "Template not found"
  const ContentRequired: string := "Subject and body are required"
  const ResumeNotFound: string := "Resume not found"
  const SendFailed: string := "Failed to send emails"

  /** JavaScript truthiness of an id: present and not 0. */
  predicate IsSet(id: Option<int>) {
    id.Some? && id.value != 0
  }

  /** JavaScript truthiness of a text field: present and not empty. */
  predicate IsText(s: Option<string>) {
    s.Some? && s.value != ""
  }

  /** An absent id and the id 0 are falsy; every other number is truthy. */
  lemma IdTruthiness(id: Option<int>)
    ensures !IsSet(None) && !IsSet(Some(0))
    ensures id.Some? && id.value != 0 ==> IsSet(id)
  {
  }

  /** An absent field and the empty string are falsy; every other string is truthy. */
  lemma TextTruthiness(s: Option<string>)
    ensures !IsText(None) && !IsText(Some(""))
    ensures s.Some? && |s.value| > 0 ==> IsText(s)
  {
  }

  /** `id || null`. */
  function IdOrNull(id: Option<int>): (r: Option<int>)
    ensures r.Some? <==> IsSet(id)
    ensures r.Some? ==> r.value == id.value
  {
    if IsSet(id) then id else None
  }

  /** The subject and body after template resolution; `None` when a template
      id is given but no template of this user has it. */
  function ResolveContent(userId: int, req: Request, store: Store): (r: Option<(Option<string>, Option<string>)>)
    ensures r.None? <==> IsSet(req.templateId) && (req.templateId.value, userId) !in store.templates
    ensures r.Some? && IsSet(req.templateId) ==>
      var t := store.templates[(req.templateId.value, userId)];
      r.value == (Some(t.subject), Some(t.body))
    ensures r.Some? && !IsSet(req.templateId) ==> r.value == (req.subject, req.body)
  {
    if IsSet(req.templateId) then
      var key := (req.templateId.value, userId);
      if key in store.templates then Some((Some(store.templates[key].subject), Some(store.templates[key].body)))
      else None
    else Some((req.subject, req.body))
  }

  /** The attachment path after résumé resolution; `None` when a résumé id is
      given but no résumé of this user has it. */
  function ResolveAttachment(userId: int, req: Request, store: Store): (r: Option<Option<string>>)
    ensures r.None? <==> IsSet(req.resumeId) && (req.resumeId.value, userId) !in store.resumes
    ensures r.Some? && IsSet(req.resumeId) ==> r.value == Some(store.resumes[(req.resumeId.value, userId)].filePath)
    ensures r.Some? && !IsSet(req.resumeId) ==> r.value == None
  {
    if IsSet(req.resumeId) then
      var key := (req.resumeId.value, userId);
      if key in store.resumes then Some(Some(store.resumes[key].filePath)) else None
    else Some(None)
  }

  /** `results.filter(r => r.status === 'sent').length`. */
  function CountSent(results: seq<RecipientResult>): (n: nat)
    ensures n <= |results|
    ensures n == |results| <==> forall j :: 0 <= j < |results| ==> results[j].Sent?
  {
    if |results| == 0 then 0
    else (if results[0].Sent? then 1 else 0) + CountSent(results[1..])
  }

  /** `results.filter(r => r.status === 'failed').length`. */
  function CountFailed(results: seq<RecipientResult>): (n: nat)
    ensures n <= |results|
    ensures n == |results| <==> forall j :: 0 <= j < |results| ==> results[j].Failed?
  {
    if |results| == 0 then 0
    else (if results[0].Failed? then 1 else 0) + CountFailed(results[1..])
  }

  /** Every result is either sent or failed, so the two counts cover the batch. */
  lemma {:induction false} CountsCoverResults(results: seq<RecipientResult>)
    ensures CountSent(results) + CountFailed(results) == |results|
  {
    if |results| > 0 {
      CountsCoverResults(results[1..]);
    }
  }

  /** No failure counted exactly when every recipient was sent. */
  lemma {:induction false} NoFailuresIffAllSent(results: seq<RecipientResult>)
    ensures CountFailed(results) == 0 <==> forall j :: 0 <= j < |results| ==> results[j].Sent?
    ensures CountSent(results) == 0 <==> forall j :: 0 <= j < |results| ==> results[j].Failed?
  {
    if |results| > 0 {
      NoFailuresIffAllSent(results[1..]);
      assert forall j :: 1 <= j < |results| ==> results[j] == results[1..][j - 1];
    }
  }

  /** The log row for a finished batch. */
  function LogRecord(userId: int, templateId: Option<int>, resumeId: Option<int>, recipients: seq<string>,
                     subject: string, results: seq<RecipientResult>): (log: EmailLog)
    ensures log.status == LogSent <==> forall j :: 0 <= j < |results| ==> results[j].Sent?
    ensures log.errorMessage.None? <==> log.status == LogSent
    ensures log.errorMessage.Some? ==>
      log.errorMessage.value == Decimal.Show(CountFailed(results)) + " emails failed"
    ensures log.templateId == IdOrNull(templateId) && log.resumeId == IdOrNull(resumeId)
    ensures log.userId == userId && log.recipients == recipients && log.subject == subject
  {
    var failed := CountFailed(results);
    NoFailuresIffAllSent(results);
    EmailLog(userId, IdOrNull(templateId), IdOrNull(resumeId), recipients, subject,
             if failed == 0 then LogSent else LogFailed,
             if failed > 0 then Some(Decimal.Show(failed) + " emails failed") else None)
  }

  /** The handler after the batch ran (counts, log row, reply): the reply is the
      summary, or 500 when writing the log row throws. */
  function Report(userId: int, templateId: Option<int>, resumeId: Option<int>, recipients: seq<string>,
                  subject: string, results: seq<RecipientResult>, writeLog: EmailLog -> Option<string>): (out: Outcome)
    requires |results| == |recipients|
    ensures out.attempts == results
    ensures out.log.Some? && out.log.value.recipients == recipients && out.log.value.subject == subject
    ensures !out.response.Refused?
    ensures out.response.Delivered? <==> writeLog(out.log.value).None?
    ensures out.response.Delivered? ==>
      && out.response.results == results
      && out.response.summary.total == |recipients|
      && out.response.summary.sent == CountSent(results)
      && out.response.summary.failed == CountFailed(results)
      && out.response.summary.sent + out.response.summary.failed == out.response.summary.total
      && out.response.message == "Emails sent: " + Decimal.Show(out.response.summary.sent)
                                  + ", Failed: " + Decimal.Show(out.response.summary.failed)
      && out.log.value.status == (if out.response.summary.failed == 0 then LogSent else LogFailed)
    ensures out.response.ServerError? ==>
      out.response.message == SendFailed && writeLog(out.log.value) == Some(out.response.error)
  {
    var sent, failed := CountSent(results), CountFailed(results);
    CountsCoverResults(results);
    var log := LogRecord(userId, templateId, resumeId, recipients, subject, results);
    match writeLog(log)
    case Some(e) => Outcome(ServerError(SendFailed, e), Some(log), results)
    case None =>
      var message := "Emails sent: " + Decimal.Show(sent) + ", Failed: " + Decimal.Show(failed);
      Outcome(Delivered(message, results, Summary(|recipients|, sent, failed)), Some(log), results)
  }

  /** The handler after validation: run the batch, then report it. */
  function Dispatch(userId: int, templateId: Option<int>, resumeId: Option<int>, recipients: seq<string>,
                    subject: string, body: string, path: Option<string>, env: Environment,
                    writeLog: EmailLog -> Option<string>): (out: Outcome)
    ensures out.attempts == SendBulkEmails(env, recipients, subject, body, path)
    ensures out.log.Some? && out.log.value.recipients == recipients && !out.response.Refused?
  {
    var results := SendBulkEmails(env, recipients, subject, body, path);
    Report(userId, templateId, resumeId, recipients, subject, results, writeLog)
  }

  /** The `sendEmail` handler for caller `userId`; `writeLog` is `EmailLog.create`,
      answering `Some(message)` when it throws. */
  function SendEmail(userId: int, req: Request, store: Store, env: Environment,
                     writeLog: EmailLog -> Option<string>): (out: Outcome)
    ensures out.response.Refused? <==> out.log.None?
    ensures out.response.Refused? ==> out.attempts == []
    ensures out.log.Some? ==> req.recipients.Some? && out.log.value.recipients == req.recipients.value
                              && |out.attempts| == |req.recipients.value| > 0
  {
    if req.recipients.None? || |req.recipients.value| == 0 then
      Outcome(Refused(400, NoRecipients), None, [])
    else
      match ResolveContent(userId, req, store)
      case None => Outcome(Refused(404, TemplateNotFound), None, [])
      case Some((subject, body)) =>
        if !IsText(subject) || !IsText(body) then Outcome(Refused(400, ContentRequired), None, [])
        else match ResolveAttachment(userId, req, store)
          case None => Outcome(Refused(404, ResumeNotFound), None, [])
          case Some(path) =>
            Dispatch(userId, req.templateId, req.resumeId, req.recipients.value, subject.value, body.value,
                     path, env, writeLog)
  }

  /** The request passes every pre-dispatch check: recipients present, the
      template (if named) owned by the caller, a non-empty subject and body after
      resolution, and the résumé (if named) owned by the caller. */
  predicate Admissible(userId: int, req: Request, store: Store) {
    && req.recipients.Some? && |req.recipients.value| > 0
    && (IsSet(req.templateId) ==>
          && (req.templateId.value, userId) in store.templates
          && store.templates[(req.templateId.value, userId)].subject != ""
          && store.templates[(req.templateId.value, userId)].body != "")
    && (!IsSet(req.templateId) ==> IsText(req.subject) && IsText(req.body))
    && (IsSet(req.resumeId) ==> (req.resumeId.value, userId) in store.resumes)
  }

  /** The batch is started, and a log row handed to `EmailLog.create`, exactly for admissible requests. */
  lemma DispatchIffAdmissible(userId: int, req: Request, store: Store, env: Environment,
                              writeLog: EmailLog -> Option<string>)
    ensures SendEmail(userId, req, store, env, writeLog).log.Some? <==> Admissible(userId, req, store)
  {
  }

  /** Missing or empty recipients are refused before any template, résumé,
      provider or log access: the outcome is the same whatever those hold. */
  lemma RecipientsCheckedFirst(userId: int, req: Request, store: Store, env: Environment,
                               writeLog: EmailLog -> Option<string>)
    requires req.recipients.None? || |req.recipients.value| == 0
    ensures SendEmail(userId, req, store, env, writeLog) == Outcome(Refused(400, NoRecipients), None, [])
  {
  }

  /** A template id naming no template of the caller is refused with 404 and
      nothing is sent, whatever the résumé store and the provider hold. */
  lemma TemplateLookupScopedToCaller(userId: int, req: Request, store: Store, env: Environment,
                                     writeLog: EmailLog -> Option<string>)
    requires req.recipients.Some? && |req.recipients.value| > 0
    requires IsSet(req.templateId) && (req.templateId.value, userId) !in store.templates
    ensures SendEmail(userId, req, store, env, writeLog) == Outcome(Refused(404, TemplateNotFound), None, [])
  {
  }

  /** A found template replaces whatever subject and body the request carried. */
  lemma TemplateOverridesRequest(userId: int, req: Request, store: Store, env: Environment,
                                 writeLog: EmailLog -> Option<string>,
                                 subject: Option<string>, body: Option<string>)
    requires IsSet(req.templateId) && (req.templateId.value, userId) in store.templates
    ensures SendEmail(userId, req, store, env, writeLog)
         == SendEmail(userId, req.(subject := subject, body := body), store, env, writeLog)
  {
  }

  /** The subject/body check runs after template resolution and before the
      résumé lookup: empty content is a 400 even when the résumé is missing. */
  lemma ContentCheckedBeforeResume(userId: int, req: Request, store: Store, env: Environment,
                                   writeLog: EmailLog -> Option<string>)
    requires req.recipients.Some? && |req.recipients.value| > 0
    requires ResolveContent(userId, req, store).Some?
    requires !IsText(ResolveContent(userId, req, store).value.0) || !IsText(ResolveContent(userId, req, store).value.1)
    ensures SendEmail(userId, req, store, env, writeLog) == Outcome(Refused(400, ContentRequired), None, [])
  {
  }

  /** A résumé id naming no résumé of the caller is refused with 404 before dispatch. */
  lemma ResumeLookupScopedToCaller(userId: int, req: Request, store: Store, env: Environment,
                                   writeLog: EmailLog -> Option<string>)
    requires req.recipients.Some? && |req.recipients.value| > 0
    requires ResolveContent(userId, req, store).Some?
    requires IsText(ResolveContent(userId, req, store).value.0) && IsText(ResolveContent(userId, req, store).value.1)
    requires IsSet(req.resumeId) && (req.resumeId.value, userId) !in store.resumes
    ensures SendEmail(userId, req, store, env, writeLog) == Outcome(Refused(404, ResumeNotFound), None, [])
  {
  }

  /** An admissible request dispatches the resolved subject and body, with the
      résumé's file path (or none) as attachment, to every recipient in order. */
  lemma DispatchUsesResolvedContent(userId: int, req: Request, store: Store, env: Environment,
                                    writeLog: EmailLog -> Option<string>)
    requires Admissible(userId, req, store)
    ensures var c := ResolveContent(userId, req, store).value;
      && IsText(c.0) && IsText(c.1) && ResolveAttachment(userId, req, store).Some?
      && SendEmail(userId, req, store, env, writeLog)
           == Dispatch(userId, req.templateId, req.resumeId, req.recipients.value, c.0.value, c.1.value,
                       ResolveAttachment(userId, req, store).value, env, writeLog)
  {
    var c := ResolveContent(userId, req, store).value;
    assert IsText(c.0) && IsText(c.1);
    var path := ResolveAttachment(userId, req, store).value;
    assert ResolveAttachment(userId, req, store) == Some(path);
  }

  /** Even when every send fails the reply is a 200 summary (`success: true`),
      reporting zero sent, and the log row records the failure count. */
  lemma AllFailedStillDelivered(userId: int, templateId: Option<int>, resumeId: Option<int>,
                                recipients: seq<string>, subject: string, results: seq<RecipientResult>,
                                writeLog: EmailLog -> Option<string>)
    requires |results| == |recipients| > 0
    requires forall e :: writeLog(e) == None
    requires forall j :: 0 <= j < |results| ==> results[j].Failed?
    ensures var out := Report(userId, templateId, resumeId, recipients, subject, results, writeLog);
      && out.response.Delivered?
      && out.response.summary == Summary(|recipients|, 0, |recipients|)
      && out.log.value.status == LogFailed
      && out.log.value.errorMessage == Some(Decimal.Show(|recipients|) + " emails failed")
  {
    NoFailuresIffAllSent(results);
    CountsCoverResults(results);
    assert CountSent(results) == 0 && CountFailed(results) == |recipients|;
    var out := Report(userId, templateId, resumeId, recipients, subject, results, writeLog);
    assert out.response.Delivered?;
  }

  /** When every send succeeds the reply reports all recipients sent and none
      failed, and the log row has status `sent` and no error message. */
  lemma AllSentReportsSuccess(userId: int, templateId: Option<int>, resumeId: Option<int>,
                              recipients: seq<string>, subject: string, results: seq<RecipientResult>,
                              writeLog: EmailLog -> Option<string>)
    requires |results| == |recipients|
    requires forall e :: writeLog(e) == None
    requires forall j :: 0 <= j < |results| ==> results[j].Sent?
    ensures var out := Report(userId, templateId, resumeId, recipients, subject, results, writeLog);
      && out.response.Delivered?
      && out.response.summary == Summary(|recipients|, |recipients|, 0)
      && out.response.message == "Emails sent: " + Decimal.Show(|recipients|) + ", Failed: 0"
      && out.log.value.status == LogSent
      && out.log.value.errorMessage == None
  {
    NoFailuresIffAllSent(results);
    CountsCoverResults(results);
    assert CountFailed(results) == 0 && CountSent(results) == |recipients|;
    var out := Report(userId, templateId, resumeId, recipients, subject, results, writeLog);
    assert out.response.Delivered?;
    assert Decimal.Show(0) == "0";
  }

  /** A JavaScript number as `Math.ceil(count / limit)` yields it. */
  datatype PageCount = Pages(n: int) | Infinite | NotANumber

  /** The `pagination` block of the history reply. */
  datatype Pagination = Pagination(total: nat, page: int, limit: int, pages: PageCount)

  /** `(page - 1) * limit` with the defaults `page = 1`, `limit = 10`. */
  function Offset(page: Option<int>, limit: Option<int>): (offset: int)
    ensures page.None? ==> offset == 0
    ensures page.Some? && page.value >= 1 && (limit.None? || limit.value >= 0) ==> offset >= 0
  {
    var p := if page.Some? then page.value else 1;
    var l := if limit.Some? then limit.value else 10;
    (p - 1) * l
  }

  /** Page 1 (also the default page) starts at offset 0, and each page starts
      exactly one limit (10 by default) after the one before it. */
  lemma OffsetStride(page: int, limit: Option<int>)
    ensures Offset(None, limit) == Offset(Some(1), limit) == 0
    ensures Offset(Some(page + 1), limit) == Offset(Some(page), limit) + (if limit.Some? then limit.value else 10)
  {
    var l := if limit.Some? then limit.value else 10;
    assert page * l == (page - 1) * l + l;
  }

  /** `Math.ceil(count / limit)`: division by zero gives Infinity, or NaN for 0/0. */
  function PageCountOf(count: nat, limit: int): (r: PageCount)
    ensures limit > 0 ==> r.Pages? && r.n >= 0 && r.n * limit >= count
    ensures limit > 0 && count > 0 ==> r.Pages? && (r.n - 1) * limit < count
    ensures limit > 0 && count == 0 ==> r == Pages(0)
    ensures limit == 0 ==> (r == if count == 0 then NotANumber else Infinite)
    ensures limit < 0 ==> r.Pages? && r.n <= 0
  {
    if limit > 0 then
      CeilDivBounds(count, limit);
      Pages((count + limit - 1) / limit)
    else if limit == 0 then (if count == 0 then NotANumber else Infinite)
    else Pages(-(count / -limit))
  }

  /** `(count + limit - 1) / limit` is the least page count covering `count`. */
  lemma CeilDivBounds(count: nat, limit: int)
    requires limit > 0
    ensures var n := (count + limit - 1) / limit;
      && n >= 0 && n * limit >= count
      && (count > 0 ==> (n - 1) * limit < count)
      && (count == 0 ==> n == 0)
  {
    var n := (count + limit - 1) / limit;
    var r := (count + limit - 1) % limit;
    assert count + limit - 1 == n * limit + r;
    assert n * limit - limit == (n - 1) * limit;
  }

  /** `getEmailHistory` given the query and the number of the caller's log rows:
      the offset handed to the query and the pagination block of the reply. */
  function History(page: Option<int>, limit: Option<int>, count: nat): (r: (int, Pagination))
    ensures r.0 == Offset(page, limit)
    ensures r.1.total == count
    ensures r.1.limit == (if limit.Some? then limit.value else 10)
    ensures r.1.page == (if page.Some? then page.value else 1)
    ensures r.1.pages == PageCountOf(count, if limit.Some? then limit.value else 10)
  {
    var p := if page.Some? then page.value else 1;
    var l := if limit.Some? then limit.value else 10;
    (Offset(page, limit), Pagination(count, p, l, PageCountOf(count, l)))
  }

  /** With a positive limit, every page from 1 to `pages` starts inside the
      `count` rows, and the page after the last starts past them. */
  lemma PagesCoverRows(page: int, limit: int, count: nat)
    requires limit > 0 && count > 0
    ensures var n := History(Some(page), Some(limit), count).1.pages.n;
      && (1 <= page <= n ==> 0 <= Offset(Some(page), Some(limit)) < count)
      && (page == n + 1 ==> Offset(Some(page), Some(limit)) >= count)
  {
    var n := History(Some(page), Some(limit), count).1.pages.n;
    if 1 <= page <= n {
      MulMonotone(page - 1, n - 1, limit);
    }
  }

  lemma MulMonotone(a: int, b: int, c: int)
    requires 0 <= a <= b && c > 0
    ensures 0 <= a * c <= b * c
  {
    assert b * c - a * c == (b - a) * c;
  }

  /** With the default limit, 25 rows make 3 pages and page 3 starts at row 20. */
  lemma HistoryExample()
    ensures History(None, None, 25) == (0, Pagination(25, 1, 10, Pages(3)))
    ensures History(Some(3), None, 25).0 == 20
    ensures History(None, None, 0).1.pages == Pages(0)
  {
  }
}
