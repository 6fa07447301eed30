/**
 The request handler of contact_form.php as a total function from a request
 (and what the handler reads from its surroundings) to a response and the
 writes it attempts. The checks run in a fixed order and the first failing
 one decides the response; only a request that passes all of them reaches
 the record write.
 */
module Handler {
  import opened Wrappers
  import opened Bytes
  import opened Sanitize
  import opened Submission

  /** The body after `json_decode($input, true)`: an object whose values are
      strings or `null`, or None when the body does not decode to an object
      (malformed JSON, a scalar, a list). */
  type Body = Option<map<string, Option<Bytes>>>

  datatype Request = Request(requestMethod: string, body: Body)

  /** What the handler reads besides the request: the three `date()`
      renderings, the `uniqid()` token, two server variables, and the
      outcome of the two file writes. */
  datatype Environment = Environment(
    timestamp: Bytes,       // date('Y-m-d H:i:s')
    date: Bytes,            // date('d/m/Y H:i:s')
    fileStamp: Bytes,       // date('Y-m-d_H-i-s'), used in the record's file name
    uniqueId: Bytes,        // uniqid()
    remoteAddr: Bytes,      // $_SERVER['REMOTE_ADDR']
    userAgent: Bytes,       // $_SERVER['HTTP_USER_AGENT']
    recordWritten: bool,    // the record's file_put_contents returned a truthy value
    summaryAppended: bool)  // what the summary append returned (never looked at)

  /** Why a request was turned down, in the order the checks run, plus the
      failure of the record write. */
  datatype Rejection =
    | MethodNotAllowed
    | MissingFields
    | EmptyField
    | InvalidEmail
    | BadNameLength
    | BadMessageLength
    | SaveFailed

  function StatusCode(e: Rejection): (c: int)
    ensures c == 405 <==> e == MethodNotAllowed
    ensures c == 500 <==> e == SaveFailed
    ensures c == 400 <==> e !in {MethodNotAllowed, SaveFailed}
  {
    match e
    case MethodNotAllowed => 405
    case SaveFailed => 500
    case _ => 400
  }

  function Reason(e: Rejection): string {
    match e
    case MethodNotAllowed => "Method not allowed"
    case MissingFields => "Missing required fields"
    case EmptyField => "All fields are required"
    case InvalidEmail => "Invalid email format"
    case BadNameLength => "Name must be between 2 and 100 characters"
    case BadMessageLength => "Message must be between 10 and 2000 characters"
    case SaveFailed => "Failed to save submission"
  }

  /** Each rejection has its own message, so the message alone tells a
      client which check turned the request down. */
  lemma ReasonIdentifiesRejection(a: Rejection, b: Rejection)
    ensures Reason(a) == Reason(b) <==> a == b
  {
    if a != b && |Reason(a)| == |Reason(b)| {
      ReasonLength(a);
      ReasonLength(b);
      assert Reason(MissingFields)[0] != Reason(EmptyField)[0];
    }
  }

  /** The messages differ in length, except the two 23-character ones
      about missing and empty fields. */
  lemma ReasonLength(e: Rejection)
    ensures |Reason(e)| == match e
      case MethodNotAllowed => 18
      case MissingFields => 23
      case EmptyField => 23
      case InvalidEmail => 20
      case BadNameLength => 41
      case BadMessageLength => 46
      case SaveFailed => 25
  {
  }

  const SuccessMessage: string := "ข้อความของคุณถูกส่งเรียบร้อยแล้ว! เราจะติดต่อกลับโดยเร็ว"

  /** The HTTP status and the JSON body `{success, message, data?}`. */
  datatype Response = Response(status: int, success: bool, message: string, data: Option<Submission>)

  function Reject(e: Rejection): (r: Response)
    ensures !r.success && r.data.None? && r.status != 200
  {
    Response(StatusCode(e), false, Reason(e), None)
  }

  /** The record file the handler tries to create. */
  datatype RecordWrite = RecordWrite(path: Bytes, record: Submission)

  /** The block the handler appends to the summary file. */
  datatype SummaryAppend = SummaryAppend(path: Bytes, entry: Bytes)

  /** The response together with the writes the handler attempted: the
      record file, and the block appended to the summary file. */
  datatype Outcome = Outcome(response: Response, recordWrite: Option<RecordWrite>, summaryAppend: Option<SummaryAppend>)

  // ---------------------------------------------------------------------------
  // Reading the body
  // ---------------------------------------------------------------------------

  /** PHP `isset($data[$key])`: the body is an object holding `key` with a
      non-null value. */
  predicate IsSet(body: Body, key: string) {
    body.Some? && key in body.value && body.value[key].Some?
  }

  /** The value under `key`, or the empty string when it is not set. */
  function FieldValue(body: Body, key: string): (v: Bytes)
    ensures IsSet(body, key) ==> Some(v) == body.value[key]
  {
    if IsSet(body, key) then body.value[key].value else []
  }

  predicate HasRequiredFields(body: Body) {
    IsSet(body, "name") && IsSet(body, "email") && IsSet(body, "message")
  }

  /** The sanitized value of one field. */
  function Sanitized(body: Body, key: string): Bytes {
    SanitizeInput(FieldValue(body, key))
  }

  /** The sanitized fields, a triple of byte strings. */
  datatype Fields = Fields(name: Bytes, email: Bytes, message: Bytes)

  /** The presence check and the three `sanitizeInput` calls: the
      sanitized fields, or None when one of them is not set. */
  function ReadFields(body: Body): (f: Option<Fields>)
    ensures f.Some? <==> HasRequiredFields(body)
    ensures f.Some? ==> f.value == Fields(SanitizeInput(body.value["name"].value),
                                         SanitizeInput(body.value["email"].value),
                                         SanitizeInput(body.value["message"].value))
    ensures f.Some? ==> HtmlSafe(f.value.name) && HtmlSafe(f.value.email) && HtmlSafe(f.value.message)
    ensures f.Some? ==> Utf8.WellFormed(f.value.name) && Utf8.WellFormed(f.value.email) && Utf8.WellFormed(f.value.message)
  {
    if HasRequiredFields(body) then
      Some(Fields(Sanitized(body, "name"), Sanitized(body, "email"), Sanitized(body, "message")))
    else None
  }

  /** Only the three named keys are read: any other key, whatever its
      value, leaves the fields as they were. */
  lemma ReadFieldsIgnoresOtherKeys(m: map<string, Option<Bytes>>, k: string, v: Option<Bytes>)
    requires k != "name" && k != "email" && k != "message"
    ensures ReadFields(Some(m[k := v])) == ReadFields(Some(m))
  {
    var a, b := Some(m[k := v]), Some(m);
    SameKeySameField(a, b, "name");
    SameKeySameField(a, b, "email");
    SameKeySameField(a, b, "message");
  }

  /** A JSON `null` under a key reads exactly like the key being absent,
      as `isset` treats the two alike. */
  lemma NullReadsAsAbsent(m: map<string, Option<Bytes>>, k: string)
    ensures ReadFields(Some(m[k := None])) == ReadFields(Some(m - {k}))
  {
    var a, b := Some(m[k := None]), Some(m - {k});
    SameKeySameField(a, b, "name");
    SameKeySameField(a, b, "email");
    SameKeySameField(a, b, "message");
  }

  /** Two bodies that agree on whether `key` is set, and on its value when
      it is, give the same sanitized field. */
  lemma SameKeySameField(a: Body, b: Body, key: string)
    requires IsSet(a, key) <==> IsSet(b, key)
    requires IsSet(a, key) ==> a.value[key] == b.value[key]
    ensures IsSet(a, key) == IsSet(b, key) && Sanitized(a, key) == Sanitized(b, key)
  {
  }

  /** PHP `empty()` on a string: true for `""` and for `"0"`. */
  predicate PhpEmpty(s: Bytes) {
    s == [] || s == [DigitZero]
  }

  /** Only a string of at most one byte can be empty in PHP's sense, so
      every empty name or message would also fail its length check: the
      empty check only changes which message the client sees. */
  lemma EmptyFieldsAreShort(s: Bytes)
    ensures PhpEmpty(s) ==> |s| <= 1 && !NameLengthOk(s) && !MessageLengthOk(s)
    ensures |s| == 1 ==> (PhpEmpty(s) <==> s[0] == DigitZero)
    ensures |s| == 0 ==> PhpEmpty(s)
  {
  }

  predicate NameLengthOk(name: Bytes) {
    2 <= |name| <= 100
  }

  predicate MessageLengthOk(message: Bytes) {
    10 <= |message| <= 2000
  }

  /** What every stored record satisfies: the invariants the checks
      establish, with `isEmail` standing for `FILTER_VALIDATE_EMAIL`. */
  predicate ValidFields(f: Fields, isEmail: Bytes -> bool) {
    && !PhpEmpty(f.name) && !PhpEmpty(f.email) && !PhpEmpty(f.message)
    && isEmail(f.email)
    && NameLengthOk(f.name)
    && MessageLengthOk(f.message)
  }

  // ---------------------------------------------------------------------------
  // The checks
  // ---------------------------------------------------------------------------

  /** The ordered checks, on the request method and the sanitized fields
      (None when a field is missing). `isEmail` is `filter_var($email,
      FILTER_VALIDATE_EMAIL) !== false`, whose grammar is not modelled. */
  function Decide(requestMethod: string, fields: Option<Fields>, isEmail: Bytes -> bool): (r: Result<Fields, Rejection>)
    ensures r.Success? ==> Some(r.value) == fields && ValidFields(r.value, isEmail)
    ensures r.Failure? ==> r.error != SaveFailed
    ensures r == Failure(MethodNotAllowed) <==> requestMethod != "POST"
  {
    if requestMethod != "POST" then Failure(MethodNotAllowed)
    else if fields.None? then Failure(MissingFields)
    else
      var f := fields.value;
      if PhpEmpty(f.name) || PhpEmpty(f.email) || PhpEmpty(f.message) then Failure(EmptyField)
      else if !isEmail(f.email) then Failure(InvalidEmail)
      else if !NameLengthOk(f.name) then Failure(BadNameLength)
      else if !MessageLengthOk(f.message) then Failure(BadMessageLength)
      else Success(f)
  }

  /** The checks in the order the handler runs them. */
  const ValidationOrder: seq<Rejection> :=
    [MethodNotAllowed, MissingFields, EmptyField, InvalidEmail, BadNameLength, BadMessageLength]

  /** The condition under which check `c` rejects, read on its own. The
      field checks read an absent triple as passing; they only run once the
      presence check has passed. */
  predicate Fails(c: Rejection, requestMethod: string, fields: Option<Fields>, isEmail: Bytes -> bool) {
    match c
    case MethodNotAllowed => requestMethod != "POST"
    case MissingFields => fields.None?
    case EmptyField =>
      fields.Some? && (PhpEmpty(fields.value.name) || PhpEmpty(fields.value.email) || PhpEmpty(fields.value.message))
    case InvalidEmail => fields.Some? && !isEmail(fields.value.email)
    case BadNameLength => fields.Some? && !NameLengthOk(fields.value.name)
    case BadMessageLength => fields.Some? && !MessageLengthOk(fields.value.message)
    case SaveFailed => false
  }

  /** Reference semantics of a short-circuit pipeline: the first check of
      the list that fails, if any. */
  function FirstFailure(checks: seq<Rejection>, fails: Rejection -> bool): (r: Option<Rejection>)
    ensures r.None? <==> forall j | 0 <= j < |checks| :: !fails(checks[j])
    ensures r.Some? ==> r.value in checks && fails(r.value)
  {
    if |checks| == 0 then None
    else if fails(checks[0]) then Some(checks[0])
    else FirstFailure(checks[1..], fails)
  }

  predicate Distinct(checks: seq<Rejection>) {
    forall i, j | 0 <= i < j < |checks| :: checks[i] != checks[j]
  }

  /** The first failing check is the one whose predecessors all pass. */
  lemma {:induction false} FirstFailureAt(checks: seq<Rejection>, fails: Rejection -> bool, k: nat)
    requires k < |checks| && fails(checks[k])
    requires forall j | 0 <= j < k :: !fails(checks[j])
    ensures FirstFailure(checks, fails) == Some(checks[k])
    decreases k
  {
    if k > 0 {
      assert !fails(checks[0]);
      assert forall j | 0 <= j < k - 1 :: checks[1..][j] == checks[j + 1];
      FirstFailureAt(checks[1..], fails, k - 1);
    }
  }

  /** Conversely, when the checks are distinct, every check before the
      reported one passed. */
  lemma {:induction false} FirstFailureIsEarliest(checks: seq<Rejection>, fails: Rejection -> bool, k: nat)
    requires Distinct(checks)
    requires k < |checks| && FirstFailure(checks, fails) == Some(checks[k])
    ensures forall j | 0 <= j < k :: !fails(checks[j])
    decreases k
  {
    if k > 0 {
      assert checks[0] != checks[k];
      assert !fails(checks[0]);
      var rest := checks[1..];
      assert rest[k - 1] == checks[k];
      FirstFailureIsEarliest(rest, fails, k - 1);
      forall j | 1 <= j < k ensures !fails(checks[j]) {
        assert checks[j] == rest[j - 1];
      }
    }
  }

  /** Where check `e` sits in `ValidationOrder`. */
  function Position(e: Rejection): (k: nat)
    requires e != SaveFailed
    ensures k < |ValidationOrder| && ValidationOrder[k] == e
  {
    match e
    case MethodNotAllowed => 0
    case MissingFields => 1
    case EmptyField => 2
    case InvalidEmail => 3
    case BadNameLength => 4
    case BadMessageLength => 5
  }

  /** No check appears twice. */
  lemma ValidationOrderDistinct()
    ensures Distinct(ValidationOrder)
  {
    forall i, j | 0 <= i < j < |ValidationOrder|
      ensures ValidationOrder[i] != ValidationOrder[j]
    {
      assert Position(ValidationOrder[i]) == i;
      assert Position(ValidationOrder[j]) == j;
    }
  }

  /** `Decide` is the short-circuit pipeline over `ValidationOrder`. */
  lemma DecideIsFirstFailure(requestMethod: string, fields: Option<Fields>, isEmail: Bytes -> bool, fails: Rejection -> bool)
    requires forall c :: fails(c) == Fails(c, requestMethod, fields, isEmail)
    ensures var r := Decide(requestMethod, fields, isEmail);
      && (r.Success? <==> FirstFailure(ValidationOrder, fails).None?)
      && (r.Failure? ==> FirstFailure(ValidationOrder, fails) == Some(r.error))
  {
    var r := Decide(requestMethod, fields, isEmail);
    var o := ValidationOrder;
    if r.Failure? {
      FirstFailureAt(o, fails, Position(r.error));
    } else {
      assert forall j | 0 <= j < |o| :: !fails(o[j]);
    }
  }

  /** A check that fails after every earlier one passed is the one
      reported. */
  lemma DecideReportsFirstFailure(requestMethod: string, fields: Option<Fields>, isEmail: Bytes -> bool, k: nat)
    requires k < |ValidationOrder|
    requires Fails(ValidationOrder[k], requestMethod, fields, isEmail)
    requires forall j | 0 <= j < k :: !Fails(ValidationOrder[j], requestMethod, fields, isEmail)
    ensures Decide(requestMethod, fields, isEmail) == Failure(ValidationOrder[k])
  {
    var fails := c => Fails(c, requestMethod, fields, isEmail);
    assert FirstFailure(ValidationOrder, fails) == Some(ValidationOrder[k]) by {
      FirstFailureAt(ValidationOrder, fails, k);
    }
    DecideIsFirstFailure(requestMethod, fields, isEmail, fails);
  }

  /** The check reported failed, and every earlier one passed. */
  lemma DecideReportedIsFirst(requestMethod: string, fields: Option<Fields>, isEmail: Bytes -> bool, k: nat)
    requires k < |ValidationOrder|
    requires Decide(requestMethod, fields, isEmail) == Failure(ValidationOrder[k])
    ensures Fails(ValidationOrder[k], requestMethod, fields, isEmail)
    ensures forall j | 0 <= j < k :: !Fails(ValidationOrder[j], requestMethod, fields, isEmail)
  {
    var fails := c => Fails(c, requestMethod, fields, isEmail);
    assert FirstFailure(ValidationOrder, fails) == Some(ValidationOrder[k]) by {
      DecideIsFirstFailure(requestMethod, fields, isEmail, fails);
    }
    ValidationOrderDistinct();
    FirstFailureIsEarliest(ValidationOrder, fails, k);
    forall j | 0 <= j < k
      ensures !Fails(ValidationOrder[j], requestMethod, fields, isEmail)
    {
      assert !fails(ValidationOrder[j]);
    }
  }

  /** Error precedence: the request is turned down for the check at
      position `k` exactly when that check fails and every earlier one
      passes. */
  lemma DecidePrecedence(requestMethod: string, fields: Option<Fields>, isEmail: Bytes -> bool, k: nat)
    requires k < |ValidationOrder|
    ensures Decide(requestMethod, fields, isEmail) == Failure(ValidationOrder[k])
        <==> Fails(ValidationOrder[k], requestMethod, fields, isEmail)
             && forall j | 0 <= j < k :: !Fails(ValidationOrder[j], requestMethod, fields, isEmail)
  {
    if Decide(requestMethod, fields, isEmail) == Failure(ValidationOrder[k]) {
      DecideReportedIsFirst(requestMethod, fields, isEmail, k);
    } else if Fails(ValidationOrder[k], requestMethod, fields, isEmail) {
      if forall j | 0 <= j < k :: !Fails(ValidationOrder[j], requestMethod, fields, isEmail) {
        DecideReportsFirstFailure(requestMethod, fields, isEmail, k);
      }
    }
  }

  /** The email check comes before both length checks: a bad email wins
      whatever the lengths of name and message. */
  lemma InvalidEmailBeforeLengths(f: Fields, isEmail: Bytes -> bool)
    requires !PhpEmpty(f.name) && !PhpEmpty(f.email) && !PhpEmpty(f.message)
    requires !isEmail(f.email)
    ensures Decide("POST", Some(f), isEmail) == Failure(InvalidEmail)
  {
  }

  /** Once the earlier checks pass, the name check rejects exactly the
      sanitized names outside 2..100 bytes: 1 and 101 are turned down, 2
      and 100 let through. */
  lemma NameLengthDecides(f: Fields, isEmail: Bytes -> bool)
    requires !PhpEmpty(f.name) && !PhpEmpty(f.email) && !PhpEmpty(f.message)
    requires isEmail(f.email)
    ensures Decide("POST", Some(f), isEmail) == Failure(BadNameLength) <==> |f.name| < 2 || |f.name| > 100
  {
  }

  /** Once the earlier checks pass, the message check rejects exactly the
      sanitized messages outside 10..2000 bytes: 9 and 2001 are turned
      down, 10 and 2000 let through; passing it means acceptance. */
  lemma MessageLengthDecides(f: Fields, isEmail: Bytes -> bool)
    requires !PhpEmpty(f.name) && !PhpEmpty(f.email) && !PhpEmpty(f.message)
    requires isEmail(f.email) && NameLengthOk(f.name)
    ensures Decide("POST", Some(f), isEmail) == Failure(BadMessageLength) <==> |f.message| < 10 || |f.message| > 2000
    ensures Decide("POST", Some(f), isEmail) == Success(f) <==> MessageLengthOk(f.message)
  {
  }

  /** A field equal to `"0"` counts as empty, whatever the others hold. */
  lemma ZeroCountsAsEmpty(f: Fields, isEmail: Bytes -> bool)
    requires f.name == [DigitZero] || f.email == [DigitZero] || f.message == [DigitZero]
    ensures Decide("POST", Some(f), isEmail) == Failure(EmptyField)
  {
  }

  // ---------------------------------------------------------------------------
  // The handler
  // ---------------------------------------------------------------------------

  /** The record built from the sanitized fields and the environment. */
  function NewSubmission(f: Fields, env: Environment): (s: Submission)
    ensures s.status == InitialStatus
    ensures s.name == f.name && s.email == f.email && s.message == f.message
  {
    Submission(env.timestamp, env.date, env.remoteAddr, env.userAgent, f.name, f.email, f.message, InitialStatus)
  }

  /** What follows the checks. A rejection is answered at
      once; an accepted request has its record written, and only when that
      write succeeds is the summary block appended and 200 returned. */
  function Respond(decision: Result<Fields, Rejection>, env: Environment): (o: Outcome)
    ensures o.response.success <==> o.response.status == 200
    ensures o.response.data.Some? <==> o.response.success
    ensures o.recordWrite.Some? <==> decision.Success?
    ensures o.response.status == 200 <==> decision.Success? && env.recordWritten
    ensures o.summaryAppend.Some? <==> o.response.status == 200
    ensures o.summaryAppend.Some? ==> o.summaryAppend.value.path == SummaryPath
    ensures o.recordWrite.Some? ==> o.recordWrite.value.path != SummaryPath
    ensures decision.Success? ==> o.recordWrite.value.record.status == InitialStatus
  {
    match decision
    case Failure(e) => Outcome(Reject(e), None, None)
    case Success(f) =>
      var record := NewSubmission(f, env);
      var write := RecordWrite(RecordFileName(env.fileStamp, env.uniqueId), record);
      RecordNeverSummary(env.fileStamp, env.uniqueId);
      if env.recordWritten then
        var entry := SummaryEntry(record.date, f.name, f.email, record.ipAddress, f.message);
        Outcome(Response(200, true, SuccessMessage, Some(record)), Some(write), Some(SummaryAppend(SummaryPath, entry)))
      else
        Outcome(Reject(SaveFailed), Some(write), None)
  }

  /** The outcome of an accepted request with every part written out: the
      record with the sanitized fields and status `new` is written; when the
      write succeeds the answer is 200 carrying the record and the summary
      block is appended, otherwise the answer is 500 and nothing is
      appended. A helper for stating the handler's lemmas. */
  function AcceptedOutcome(f: Fields, env: Environment): Outcome {
    var record := Submission(env.timestamp, env.date, env.remoteAddr, env.userAgent, f.name, f.email, f.message, "new");
    var write := Some(RecordWrite(RecordFileName(env.fileStamp, env.uniqueId), record));
    if env.recordWritten then
      Outcome(Response(200, true, SuccessMessage, Some(record)), write,
              Some(SummaryAppend(SummaryPath, SummaryEntry(env.date, f.name, f.email, env.remoteAddr, f.message))))
    else
      Outcome(Response(500, false, "Failed to save submission", None), write, None)
  }

  /** `Respond` on a rejection, unfolded for the lemmas below. */
  lemma RespondRejected(e: Rejection, env: Environment)
    ensures Respond(Failure(e), env) == Outcome(Response(StatusCode(e), false, Reason(e), None), None, None)
  {
  }

  /** `Respond` on an accepted request, unfolded for the lemmas below. */
  lemma RespondAccepted(f: Fields, env: Environment)
    ensures Respond(Success(f), env) == AcceptedOutcome(f, env)
  {
  }

  /** One request, from method check to response. */
  function Handle(req: Request, env: Environment, isEmail: Bytes -> bool): (o: Outcome)
    ensures o.response.status in {200, 400, 405, 500}
    ensures o.response.status == 200 <==> o.response.success
  {
    Respond(Decide(req.requestMethod, ReadFields(req.body), isEmail), env)
  }

  /** Every record the handler writes passed all the checks, holds only
      HTML-safe text and starts in status `new`. */
  lemma StoredRecordValid(req: Request, env: Environment, isEmail: Bytes -> bool)
    requires Handle(req, env, isEmail).recordWrite.Some?
    ensures var w := Handle(req, env, isEmail).recordWrite.value.record;
      && ValidFields(Fields(w.name, w.email, w.message), isEmail)
      && HtmlSafe(w.name) && HtmlSafe(w.email) && HtmlSafe(w.message)
      && w.status == InitialStatus
  {
    var d := Decide(req.requestMethod, ReadFields(req.body), isEmail);
    assert d.Success?;
    var f := d.value;
    assert f.name == Sanitized(req.body, "name");
    assert f.email == Sanitized(req.body, "email");
    assert f.message == Sanitized(req.body, "message");
    RespondAccepted(f, env);
  }

  // ---------------------------------------------------------------------------
  // Properties of the handler
  // ---------------------------------------------------------------------------

  /** Any method but POST gets 405 and nothing is written. */
  lemma NonPostRejected(req: Request, env: Environment, isEmail: Bytes -> bool)
    requires req.requestMethod != "POST"
    ensures Handle(req, env, isEmail) == Outcome(Response(405, false, "Method not allowed", None), None, None)
  {
  }

  /** A POST whose body lacks `name`, `email` or `message`, or holds `null`
      for one, or is not an object at all, gets 400 and nothing is written. */
  lemma MissingFieldRejected(req: Request, env: Environment, isEmail: Bytes -> bool)
    requires req.requestMethod == "POST"
    requires !IsSet(req.body, "name") || !IsSet(req.body, "email") || !IsSet(req.body, "message")
    ensures Handle(req, env, isEmail) == Outcome(Response(400, false, "Missing required fields", None), None, None)
  {
  }

  /** The first failing check decides the whole outcome: its status and
      reason, and no write. */
  lemma HandleReportsFirstFailure(req: Request, env: Environment, isEmail: Bytes -> bool, k: nat)
    requires k < |ValidationOrder|
    requires Fails(ValidationOrder[k], req.requestMethod, ReadFields(req.body), isEmail)
    requires forall j | 0 <= j < k :: !Fails(ValidationOrder[j], req.requestMethod, ReadFields(req.body), isEmail)
    ensures var e := ValidationOrder[k];
      Handle(req, env, isEmail) == Outcome(Response(StatusCode(e), false, Reason(e), None), None, None)
  {
    DecideReportsFirstFailure(req.requestMethod, ReadFields(req.body), isEmail, k);
    RespondRejected(ValidationOrder[k], env);
  }

  /** A field that sanitizes to `"0"` counts as empty. */
  lemma ZeroFieldRejected(req: Request, env: Environment, isEmail: Bytes -> bool, key: string)
    requires req.requestMethod == "POST" && HasRequiredFields(req.body)
    requires key == "name" || key == "email" || key == "message"
    requires Sanitized(req.body, key) == [DigitZero]
    ensures Handle(req, env, isEmail) == Outcome(Response(400, false, "All fields are required", None), None, None)
  {
    ZeroFieldDecided(req, isEmail, key);
    RespondRejected(EmptyField, env);
  }

  lemma ZeroFieldDecided(req: Request, isEmail: Bytes -> bool, key: string)
    requires req.requestMethod == "POST" && HasRequiredFields(req.body)
    requires key == "name" || key == "email" || key == "message"
    requires Sanitized(req.body, key) == [DigitZero]
    ensures Decide(req.requestMethod, ReadFields(req.body), isEmail) == Failure(EmptyField)
  {
    ZeroFieldRead(req.body, key);
    ZeroCountsAsEmpty(ReadFields(req.body).value, isEmail);
  }

  lemma ZeroFieldRead(body: Body, key: string)
    requires HasRequiredFields(body)
    requires key == "name" || key == "email" || key == "message"
    requires Sanitized(body, key) == [DigitZero]
    ensures ReadFields(body).Some?
    ensures var f := ReadFields(body).value;
      f.name == [DigitZero] || f.email == [DigitZero] || f.message == [DigitZero]
  {
  }

  /** An accepted request: the record holds the sanitized fields and status
      `new`; the response is 200 with the record when the write succeeds
      and 500 otherwise, and only a successful write is followed by the
      summary append. */
  lemma AcceptedSubmission(req: Request, env: Environment, isEmail: Bytes -> bool, f: Fields)
    requires Decide(req.requestMethod, ReadFields(req.body), isEmail) == Success(f)
    ensures f == Fields(Sanitized(req.body, "name"), Sanitized(req.body, "email"), Sanitized(req.body, "message"))
    ensures Handle(req, env, isEmail) == AcceptedOutcome(f, env)
  {
    var fields := ReadFields(req.body);
    assert fields == Some(f);
    RespondAccepted(f, env);
  }

  /** The result of the summary append never reaches the response. */
  lemma SummaryResultIgnored(req: Request, env: Environment, isEmail: Bytes -> bool, appended: bool)
    ensures Handle(req, env.(summaryAppended := appended), isEmail) == Handle(req, env, isEmail)
  {
  }

  /** Two accepted requests with distinct unique ids write distinct record
      files: identical submissions are stored twice, never merged. */
  lemma DistinctIdsDistinctFiles(req1: Request, env1: Environment, req2: Request, env2: Environment, isEmail: Bytes -> bool)
    requires Handle(req1, env1, isEmail).recordWrite.Some? && Handle(req2, env2, isEmail).recordWrite.Some?
    requires |env1.fileStamp| == |env2.fileStamp|
    requires env1.uniqueId != env2.uniqueId
    ensures Handle(req1, env1, isEmail).recordWrite.value.path != Handle(req2, env2, isEmail).recordWrite.value.path
  {
    RecordFileNameInjective(env1.fileStamp, env1.uniqueId, env2.fileStamp, env2.uniqueId);
  }
}
