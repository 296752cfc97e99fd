/**
 * The two request handlers of the whitelist backend, `/api/send-code` and
 * `/api/whitelist-apply`, and the state they share: the process-wide map from
 * email to issued verification code, and the `whitelist_entry` table.
 *
 * Every outbound call is a parameter: the mail provider's `ok` flag, the
 * classifier's `choices[0].message.content`, the row of the per-IP count
 * query, the clock and the random draw. Each handler is specified by a pure
 * function (SendCodeSpec, ApplySpec) from the old state and those inputs to
 * the response and the new state; the methods of Backend change the state in
 * place and are proved equal to them.
 */
module Handlers {
  import opened Wrappers
  import Decimal
  import Username

  /** A code stays valid for `5 * 60 * 1000` milliseconds after it was sent. */
  const CodeLifetimeMs: int := 300000

  /** Number of entries one IP address may register. */
  const IpCap: nat := 3

  /** The only classifier answer that admits an application. */
  const AffirmativeVerdict: string := "是"

  const MissingEmailMsg: string := "缺少邮箱地址"
  const MailUnavailableMsg: string := "邮件发送服务暂时不可用"
  const InternalErrorMsg: string := "服务器内部发生错误"
  const InvalidRequestMsg: string := "请求的数据格式不正确或不完整喵~"
  const WrongCodeMsg: string := "验证码错了喵~"
  const ExpiredCodeMsg: string := "验证码已过期，请重新获取喵~"
  const InvalidUsernameMsg: string := "用户名格式不对喵~"
  const AiQuestionMsg: string := "回答错误喵！"
  const IpLimitMsg: string := "一个IP只能注册3个白名单账号喵~"

  /** An entry of the verification-code map. */
  datatype Issued = Issued(code: string, timestamp: int)

  /** A row of `whitelist_entry`; the IP comes from a header that may be missing. */
  datatype Row = Row(qqNumber: string, email: string, minecraftUsername: string, ipAddress: Option<string>)

  /** A JSON request body: either reading it throws, or it yields its fields.
      For send-code, a body that is the JSON literal `null` counts as
      Unparsable, because destructuring `email` out of `null` throws and the
      handler answers 500; for apply, `null` yields ApplyFields with every
      field None, which `!data` turns into `invalid_request`. */
  datatype Body<T> = Unparsable | Parsed(fields: T)

  /** The fields of a whitelist application; None stands for a field that is
      absent or not a string (a null or non-object body has every field None). */
  datatype ApplyFields = ApplyFields(
    email: Option<string>,
    verificationCode: Option<string>,
    aiQuestion: Option<string>,
    qqNumber: Option<string>,
    minecraftUsername: Option<string>)

  datatype ErrorType =
    | InvalidRequest
    | WrongVerificationCode
    | InvalidUsername
    | AiQuestionError
    | EmailLimitExceeded
    | UnknownError

  /** The JSON body of a response: `{status: "success"}`,
      `{status: "error", error: {type, message}}` (createErrorResponse), or the
      router's `{status, error: message}` used by the send-code handler. */
  datatype Payload =
    | SuccessStatus
    | TypedError(errorType: ErrorType, message: string)
    | PlainError(message: string)

  datatype Response = Response(status: int, payload: Payload)

  /** The `type` string that goes on the wire for each error type. */
  function WireName(t: ErrorType): string {
    match t
    case InvalidRequest => "invalid_request"
    case WrongVerificationCode => "wrong_verification_code"
    case InvalidUsername => "invalid_username"
    case AiQuestionError => "ai_question_error"
    case EmailLimitExceeded => "email_limit_exceeded"
    case UnknownError => "unknown_error"
  }

  function Ok(): Response {
    Response(200, SuccessStatus)
  }

  function CreateErrorResponse(t: ErrorType, message: string): Response {
    Response(400, TypedError(t, message))
  }

  /** Every code in the map is six decimal digits without a leading zero. */
  ghost predicate CodesWellFormed(codes: map<string, Issued>) {
    forall e :: e in codes ==> Decimal.IsSixDigitCode(codes[e].code)
  }

  /* ---------------- /api/send-code ---------------- */

  /** `Math.floor(100000 + Math.random() * 900000)` lies in this range. */
  predicate DrawInRange(draw: int) {
    100000 <= draw <= 999999
  }

  /** The email is truthy: present and not the empty string. */
  predicate HasEmail(email: Option<string>) {
    email.Some? && email.value != ""
  }

  datatype SendOutcome = SendOutcome(response: Response, codes: map<string, Issued>)

  function SendCodeSpec(codes: map<string, Issued>, body: Body<Option<string>>, draw: int, mailOk: bool, now: int): SendOutcome
    requires DrawInRange(draw)
  {
    match body
    case Unparsable => SendOutcome(Response(500, PlainError(InternalErrorMsg)), codes)
    case Parsed(email) =>
      if !HasEmail(email) then SendOutcome(Response(400, PlainError(MissingEmailMsg)), codes)
      else if !mailOk then SendOutcome(Response(500, PlainError(MailUnavailableMsg)), codes)
      else SendOutcome(Ok(), codes[email.value := Issued(Decimal.DecimalText(draw), now)])
  }

  /* ---------------- /api/whitelist-apply ---------------- */

  /** All five fields are present and are strings. */
  predicate ShapeOk(f: ApplyFields) {
    f.email.Some? && f.verificationCode.Some? && f.aiQuestion.Some? && f.qqNumber.Some? && f.minecraftUsername.Some?
  }

  /** A code is stored for the email and equals the submitted one. */
  predicate CodeMatches(codes: map<string, Issued>, email: string, code: string) {
    email in codes && codes[email].code == code
  }

  /** Strictly more than the lifetime has passed since the code was issued. */
  predicate Expired(issued: Issued, now: int) {
    now - issued.timestamp > CodeLifetimeMs
  }

  /** The classifier's first choice's content is exactly the affirmative character. */
  predicate Affirmative(content: Option<string>) {
    content == Some(AffirmativeVerdict)
  }

  /** The count row is present and reports the cap or more (a missing row does not). */
  predicate OverCap(countRow: Option<int>) {
    countRow.Some? && countRow.value >= IpCap
  }

  datatype ApplyOutcome = ApplyOutcome(response: Response, codes: map<string, Issued>, rows: seq<Row>)

  function ApplySpec(
    codes: map<string, Issued>, rows: seq<Row>, body: Body<ApplyFields>, ip: Option<string>,
    now: int, content: Option<string>, countRow: Option<int>): ApplyOutcome
  {
    match body
    case Unparsable => ApplyOutcome(CreateErrorResponse(UnknownError, InternalErrorMsg), codes, rows)
    case Parsed(f) =>
      if !ShapeOk(f) then ApplyOutcome(CreateErrorResponse(InvalidRequest, InvalidRequestMsg), codes, rows)
      else
        var email, username := f.email.value, f.minecraftUsername.value;
        if !CodeMatches(codes, email, f.verificationCode.value) then
          ApplyOutcome(CreateErrorResponse(WrongVerificationCode, WrongCodeMsg), codes, rows)
        else if Expired(codes[email], now) then
          ApplyOutcome(CreateErrorResponse(WrongVerificationCode, ExpiredCodeMsg), codes - {email}, rows)
        else if !Username.UsernameRegexTest(username) then
          ApplyOutcome(CreateErrorResponse(InvalidUsername, InvalidUsernameMsg), codes, rows)
        else if !Affirmative(content) then
          ApplyOutcome(CreateErrorResponse(AiQuestionError, AiQuestionMsg), codes, rows)
        else if OverCap(countRow) then
          ApplyOutcome(CreateErrorResponse(EmailLimitExceeded, IpLimitMsg), codes, rows)
        else
          ApplyOutcome(Ok(), codes - {email}, rows + [Row(f.qqNumber.value, email, username, ip)])
  }

  /* ---------------- the worker's state ---------------- */

  /** The verification-code map of one worker process and the entry table. */
  class Backend {
    var codes: map<string, Issued>
    var rows: seq<Row>

    ghost predicate Valid()
      reads this
    {
      CodesWellFormed(codes)
    }

    /** A fresh worker process: its code map starts empty, while the table
        outlives the process and holds whatever rows it already has. */
    constructor (existing: seq<Row>)
      ensures Valid()
      ensures codes == map[] && rows == existing
    {
      codes := map[];
      rows := existing;
    }

    method SendCode(body: Body<Option<string>>, draw: int, mailOk: bool, now: int) returns (r: Response)
      requires Valid()
      requires DrawInRange(draw)
      modifies this
      ensures Valid()
      ensures SendOutcome(r, codes) == SendCodeSpec(old(codes), body, draw, mailOk, now)
      ensures rows == old(rows)
    {
      if body.Unparsable? {
        return Response(500, PlainError(InternalErrorMsg));
      }
      var email := body.fields;
      if !HasEmail(email) {
        return Response(400, PlainError(MissingEmailMsg));
      }
      var code := Decimal.DecimalText(draw);
      if !mailOk {
        return Response(500, PlainError(MailUnavailableMsg));
      }
      Decimal.DrawnCodeIsSixDigits(draw);
      codes := codes[email.value := Issued(code, now)];
      r := Ok();
    }

    method WhitelistApply(
      body: Body<ApplyFields>, ip: Option<string>, now: int, content: Option<string>, countRow: Option<int>)
      returns (r: Response)
      requires Valid()
      modifies this
      ensures Valid()
      ensures ApplyOutcome(r, codes, rows) == ApplySpec(old(codes), old(rows), body, ip, now, content, countRow)
    {
      if body.Unparsable? {
        return CreateErrorResponse(UnknownError, InternalErrorMsg);
      }
      var data := body.fields;
      if !ShapeOk(data) {
        return CreateErrorResponse(InvalidRequest, InvalidRequestMsg);
      }
      var email := data.email.value;
      if !CodeMatches(codes, email, data.verificationCode.value) {
        return CreateErrorResponse(WrongVerificationCode, WrongCodeMsg);
      }
      var stored := codes[email];
      if Expired(stored, now) {
        codes := codes - {email};
        return CreateErrorResponse(WrongVerificationCode, ExpiredCodeMsg);
      }
      if !Username.UsernameRegexTest(data.minecraftUsername.value) {
        return CreateErrorResponse(InvalidUsername, InvalidUsernameMsg);
      }
      if !Affirmative(content) {
        return CreateErrorResponse(AiQuestionError, AiQuestionMsg);
      }
      if OverCap(countRow) {
        return CreateErrorResponse(EmailLimitExceeded, IpLimitMsg);
      }
      rows := rows + [Row(data.qqNumber.value, email, data.minecraftUsername.value, ip)];
      codes := codes - {email};
      r := Ok();
    }
  }
}
