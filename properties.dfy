/**
 * What the two handlers promise, stated over their specification functions:
 * the three send-code outcomes, the order of the apply checks, which paths
 * touch the code map and the entry table, the per-IP cap, and the
 * send-then-apply sequences a client goes through.
 */
module HandlerProperties {
  import opened Wrappers
  import opened Handlers
  import Decimal
  import Username

  /** The response carries a typed error of kind `t`. */
  predicate RejectedWith(r: Response, t: ErrorType) {
    r.payload.TypedError? && r.payload.errorType == t
  }

  /* ---------------- /api/send-code ---------------- */

  /** A missing or empty email gets a 400 and leaves the map alone. */
  lemma SendCodeMissingEmail(codes: map<string, Issued>, email: Option<string>, draw: int, mailOk: bool, now: int)
    requires DrawInRange(draw)
    requires email == None || email == Some("")
    ensures var o := SendCodeSpec(codes, Parsed(email), draw, mailOk, now);
      o.response == Response(400, PlainError(MissingEmailMsg)) && o.codes == codes
  {
  }

  /** Only a send the provider accepted stores a code; a failed one gets a 500
      and stores nothing. A stored code replaces any earlier one for that email
      and leaves every other email's entry as it was. */
  lemma SendCodeOnlySuccessStores(codes: map<string, Issued>, body: Body<Option<string>>, draw: int, mailOk: bool, now: int)
    requires DrawInRange(draw)
    ensures var o := SendCodeSpec(codes, body, draw, mailOk, now);
      && (o.response == Ok() <==> body.Parsed? && HasEmail(body.fields) && mailOk)
      && (body.Parsed? && HasEmail(body.fields) && !mailOk ==>
            o.response == Response(500, PlainError(MailUnavailableMsg)))
      && (o.response != Ok() ==> o.codes == codes)
      && (o.response == Ok() ==>
            && o.codes.Keys == codes.Keys + {body.fields.value}
            && o.codes[body.fields.value] == Issued(Decimal.DecimalText(draw), now)
            && forall e :: e in codes && e != body.fields.value ==> o.codes[e] == codes[e])
  {
  }

  /** The stored code is the six-digit decimal text of the draw, and reads back as the draw. */
  lemma StoredCodeIsDrawText(codes: map<string, Issued>, email: string, draw: int, now: int)
    requires DrawInRange(draw) && email != ""
    ensures var o := SendCodeSpec(codes, Parsed(Some(email)), draw, true, now);
      && email in o.codes
      && Decimal.IsSixDigitCode(o.codes[email].code)
      && Decimal.ParseDecimal(o.codes[email].code) == draw
      && o.codes[email].timestamp == now
  {
    Decimal.DrawnCodeIsSixDigits(draw);
  }

  /** Sending a code keeps every code in the map six digits long. */
  lemma SendCodeKeepsCodesWellFormed(codes: map<string, Issued>, body: Body<Option<string>>, draw: int, mailOk: bool, now: int)
    requires DrawInRange(draw) && CodesWellFormed(codes)
    ensures CodesWellFormed(SendCodeSpec(codes, body, draw, mailOk, now).codes)
  {
    Decimal.DrawnCodeIsSixDigits(draw);
  }

  /* ---------------- /api/whitelist-apply ---------------- */

  /** The submitted code is stored for the email, equal, and not expired. */
  predicate CodeAccepted(codes: map<string, Issued>, f: ApplyFields, now: int)
    requires ShapeOk(f)
  {
    CodeMatches(codes, f.email.value, f.verificationCode.value) && !Expired(codes[f.email.value], now)
  }

  /** The checks run in a fixed order and the first failing one decides the
      error type; success means every check passed. */
  lemma ApplyFirstFailureWins(
    codes: map<string, Issued>, rows: seq<Row>, f: ApplyFields, ip: Option<string>,
    now: int, content: Option<string>, countRow: Option<int>)
    ensures var r := ApplySpec(codes, rows, Parsed(f), ip, now, content, countRow).response;
      && (RejectedWith(r, InvalidRequest) <==> !ShapeOk(f))
      && (RejectedWith(r, WrongVerificationCode) <==> ShapeOk(f) && !CodeAccepted(codes, f, now))
      && (RejectedWith(r, InvalidUsername) <==>
            ShapeOk(f) && CodeAccepted(codes, f, now) && !Username.UsernameRegexTest(f.minecraftUsername.value))
      && (RejectedWith(r, AiQuestionError) <==>
            ShapeOk(f) && CodeAccepted(codes, f, now) && Username.UsernameRegexTest(f.minecraftUsername.value)
            && !Affirmative(content))
      && (RejectedWith(r, EmailLimitExceeded) <==>
            ShapeOk(f) && CodeAccepted(codes, f, now) && Username.UsernameRegexTest(f.minecraftUsername.value)
            && Affirmative(content) && OverCap(countRow))
      && (r == Ok() <==>
            ShapeOk(f) && CodeAccepted(codes, f, now) && Username.UsernameRegexTest(f.minecraftUsername.value)
            && Affirmative(content) && !OverCap(countRow))
      && !RejectedWith(r, UnknownError)
  {
  }

  /** Every code in the map is six digits, so a submitted code that is not
      six digits (with a non-zero first digit) is always refused as a wrong code,
      whatever else the form holds, and changes nothing. */
  lemma MalformedCodeRefused(
    codes: map<string, Issued>, rows: seq<Row>, f: ApplyFields, ip: Option<string>,
    now: int, content: Option<string>, countRow: Option<int>)
    requires CodesWellFormed(codes)
    requires ShapeOk(f) && !Decimal.IsSixDigitCode(f.verificationCode.value)
    ensures var o := ApplySpec(codes, rows, Parsed(f), ip, now, content, countRow);
      o == ApplyOutcome(CreateErrorResponse(WrongVerificationCode, WrongCodeMsg), codes, rows)
  {
    if f.email.value in codes {
      assert Decimal.IsSixDigitCode(codes[f.email.value].code);
    }
  }

  /** A body that does not parse is an `unknown_error` and changes nothing. */
  lemma ApplyUnparsable(
    codes: map<string, Issued>, rows: seq<Row>, ip: Option<string>,
    now: int, content: Option<string>, countRow: Option<int>)
    ensures ApplySpec(codes, rows, Unparsable, ip, now, content, countRow)
      == ApplyOutcome(CreateErrorResponse(UnknownError, InternalErrorMsg), codes, rows)
  {
  }

  /** Every response of the apply handler is either `{status: "success"}`
      with 200, or `{status: "error", error: {type, message}}` with 400; the
      wire names of the error types are pairwise distinct. */
  lemma ApplyResponseShape(
    codes: map<string, Issued>, rows: seq<Row>, body: Body<ApplyFields>, ip: Option<string>,
    now: int, content: Option<string>, countRow: Option<int>, t1: ErrorType, t2: ErrorType)
    ensures var r := ApplySpec(codes, rows, body, ip, now, content, countRow).response;
      (r.status == 200 && r.payload == SuccessStatus) || (r.status == 400 && r.payload.TypedError?)
    ensures t1 != t2 ==> WireName(t1) != WireName(t2)
  {
  }

  /** A code is still good at exactly five minutes and expired one millisecond later. */
  lemma ExpiryBoundary(codes: map<string, Issued>, rows: seq<Row>, f: ApplyFields, ip: Option<string>,
    content: Option<string>, countRow: Option<int>)
    requires ShapeOk(f) && CodeMatches(codes, f.email.value, f.verificationCode.value)
    ensures var t := codes[f.email.value].timestamp;
      && ApplySpec(codes, rows, Parsed(f), ip, t + CodeLifetimeMs, content, countRow).response.payload
           != TypedError(WrongVerificationCode, ExpiredCodeMsg)
      && ApplySpec(codes, rows, Parsed(f), ip, t + CodeLifetimeMs + 1, content, countRow).response
           == CreateErrorResponse(WrongVerificationCode, ExpiredCodeMsg)
  {
  }

  /** Only the expiry path and success change the code map, and both remove
      exactly the submitted email's entry. A missing or wrong code removes
      nothing, so a wrong guess never clears an expired entry. */
  lemma ApplyCodeMapEffect(
    codes: map<string, Issued>, rows: seq<Row>, body: Body<ApplyFields>, ip: Option<string>,
    now: int, content: Option<string>, countRow: Option<int>)
    ensures var o := ApplySpec(codes, rows, body, ip, now, content, countRow);
      o.codes == codes ||
      (&& body.Parsed? && ShapeOk(body.fields)
       && CodeMatches(codes, body.fields.email.value, body.fields.verificationCode.value)
       && o.codes == codes - {body.fields.email.value}
       && (o.response == Ok() || o.response == CreateErrorResponse(WrongVerificationCode, ExpiredCodeMsg)))
    ensures var o := ApplySpec(codes, rows, body, ip, now, content, countRow);
      body.Parsed? && ShapeOk(body.fields) && !CodeMatches(codes, body.fields.email.value, body.fields.verificationCode.value)
      ==> o.codes == codes && o.response == CreateErrorResponse(WrongVerificationCode, WrongCodeMsg)
    ensures var o := ApplySpec(codes, rows, body, ip, now, content, countRow);
      body.Parsed? && ShapeOk(body.fields) && CodeMatches(codes, body.fields.email.value, body.fields.verificationCode.value)
      && Expired(codes[body.fields.email.value], now)
      ==> o.codes == codes - {body.fields.email.value} && o.rows == rows
  {
  }

  /** Only full success writes to the table, and it appends exactly one row
      (qq number, email, username, ip) and consumes that email's code. */
  lemma ApplyTableEffect(
    codes: map<string, Issued>, rows: seq<Row>, body: Body<ApplyFields>, ip: Option<string>,
    now: int, content: Option<string>, countRow: Option<int>)
    ensures var o := ApplySpec(codes, rows, body, ip, now, content, countRow);
      o.response != Ok() ==> o.rows == rows
    ensures var o := ApplySpec(codes, rows, body, ip, now, content, countRow);
      o.response == Ok() ==>
        && body.Parsed? && ShapeOk(body.fields)
        && var f := body.fields;
        && o.rows == rows + [Row(f.qqNumber.value, f.email.value, f.minecraftUsername.value, ip)]
        && o.codes == codes - {f.email.value}
  {
  }

  /** A missing count row never triggers the cap. */
  lemma MissingCountRowSkipsCap(
    codes: map<string, Issued>, rows: seq<Row>, body: Body<ApplyFields>, ip: Option<string>,
    now: int, content: Option<string>)
    ensures !RejectedWith(ApplySpec(codes, rows, body, ip, now, content, None).response, EmailLimitExceeded)
  {
  }

  /* ---------------- the per-IP cap ---------------- */

  /** Number of rows registered from address `x`. */
  function CountIp(rows: seq<Row>, x: string): nat {
    if rows == [] then 0
    else (if rows[0].ipAddress == Some(x) then 1 else 0) + CountIp(rows[1..], x)
  }

  /** What `SELECT COUNT(*) ... WHERE ip_address = ?` returns when bound to
      the request's address: a NULL parameter equals no row in SQL. */
  function SqlCount(rows: seq<Row>, ip: Option<string>): nat {
    match ip
    case None => 0
    case Some(x) => CountIp(rows, x)
  }

  /** No address has more than the cap of rows. */
  ghost predicate CapHolds(rows: seq<Row>) {
    forall x :: CountIp(rows, x) <= IpCap
  }

  lemma {:induction false} CountIpAppend(rows: seq<Row>, row: Row, x: string)
    ensures CountIp(rows + [row], x) == CountIp(rows, x) + (if row.ipAddress == Some(x) then 1 else 0)
  {
    if rows == [] {
      assert rows + [row] == [row];
      assert [row][1..] == [];
    } else {
      assert (rows + [row])[1..] == rows[1..] + [row];
      CountIpAppend(rows[1..], row, x);
    }
  }

  /** With the count row the database returns, apply never lets an address
      exceed the cap. */
  lemma ApplyKeepsIpCap(
    codes: map<string, Issued>, rows: seq<Row>, body: Body<ApplyFields>, ip: Option<string>,
    now: int, content: Option<string>)
    requires CapHolds(rows)
    ensures CapHolds(ApplySpec(codes, rows, body, ip, now, content, Some(SqlCount(rows, ip))).rows)
  {
    var o := ApplySpec(codes, rows, body, ip, now, content, Some(SqlCount(rows, ip)));
    if o.rows != rows {
      ApplyTableEffect(codes, rows, body, ip, now, content, Some(SqlCount(rows, ip)));
      var f := body.fields;
      var row := Row(f.qqNumber.value, f.email.value, f.minecraftUsername.value, ip);
      forall x ensures CountIp(o.rows, x) <= IpCap {
        CountIpAppend(rows, row, x);
      }
    }
  }

  /** Once an address has the cap of rows, a further otherwise valid
      application from it is refused and adds no row. */
  lemma FourthApplicationRefused(
    codes: map<string, Issued>, rows: seq<Row>, f: ApplyFields, x: string, now: int)
    requires ShapeOk(f) && CodeAccepted(codes, f, now) && Username.UsernameRegexTest(f.minecraftUsername.value)
    requires CountIp(rows, x) >= IpCap
    ensures var o := ApplySpec(codes, rows, Parsed(f), Some(x), now, Some(AffirmativeVerdict), Some(SqlCount(rows, Some(x))));
      o.response == CreateErrorResponse(EmailLimitExceeded, IpLimitMsg) && o.rows == rows && o.codes == codes
  {
  }

  /** A request without the client-address header is counted as zero, so the
      cap never refuses it, however many rows there are. */
  lemma MissingIpNeverCapped(
    codes: map<string, Issued>, rows: seq<Row>, f: ApplyFields, now: int)
    requires ShapeOk(f) && CodeAccepted(codes, f, now) && Username.UsernameRegexTest(f.minecraftUsername.value)
    ensures ApplySpec(codes, rows, Parsed(f), None, now, Some(AffirmativeVerdict), Some(SqlCount(rows, None))).response == Ok()
  {
  }

  /* ---------------- sequences of requests ---------------- */

  /** Send a code, then apply with it within five minutes and with a valid
      form: the application is admitted, one row is added, and the code is gone. */
  lemma SendThenApply(
    codes: map<string, Issued>, rows: seq<Row>, email: string, draw: int, sentAt: int,
    aiQuestion: string, qqNumber: string, username: string, ip: Option<string>, now: int, countRow: Option<int>)
    requires DrawInRange(draw) && email != ""
    requires now - sentAt <= CodeLifetimeMs
    requires Username.UsernameRegexTest(username) && !OverCap(countRow)
    ensures var s := SendCodeSpec(codes, Parsed(Some(email)), draw, true, sentAt);
      var f := ApplyFields(Some(email), Some(Decimal.DecimalText(draw)), Some(aiQuestion), Some(qqNumber), Some(username));
      var a := ApplySpec(s.codes, rows, Parsed(f), ip, now, Some(AffirmativeVerdict), countRow);
      && s.response == Ok()
      && a.response == Ok()
      && a.rows == rows + [Row(qqNumber, email, username, ip)]
      && a.codes == codes - {email}
  {
  }

  /** An expired code is removed on the first try; the same submission again
      is then refused as a wrong code, with the store and table as they were. */
  lemma ExpiredCodeRetried(
    codes: map<string, Issued>, rows: seq<Row>, f: ApplyFields, ip: Option<string>, now: int,
    content: Option<string>, countRow: Option<int>, later: int, content2: Option<string>, countRow2: Option<int>)
    requires ShapeOk(f) && CodeMatches(codes, f.email.value, f.verificationCode.value)
    requires Expired(codes[f.email.value], now)
    ensures var first := ApplySpec(codes, rows, Parsed(f), ip, now, content, countRow);
      var second := ApplySpec(first.codes, first.rows, Parsed(f), ip, later, content2, countRow2);
      && first.response == CreateErrorResponse(WrongVerificationCode, ExpiredCodeMsg)
      && f.email.value !in first.codes
      && second.response == CreateErrorResponse(WrongVerificationCode, WrongCodeMsg)
      && second.codes == first.codes && second.rows == rows
  {
  }

  /** A code admits one application only: after a success, the same form is
      refused as a wrong code and adds no row. */
  lemma UsedCodeNotReusable(
    codes: map<string, Issued>, rows: seq<Row>, f: ApplyFields, ip: Option<string>, now: int,
    content: Option<string>, countRow: Option<int>, later: int, content2: Option<string>, countRow2: Option<int>)
    requires ApplySpec(codes, rows, Parsed(f), ip, now, content, countRow).response == Ok()
    ensures var first := ApplySpec(codes, rows, Parsed(f), ip, now, content, countRow);
      var second := ApplySpec(first.codes, first.rows, Parsed(f), ip, later, content2, countRow2);
      second.response == CreateErrorResponse(WrongVerificationCode, WrongCodeMsg) && second.rows == first.rows
  {
  }

  /** Sending a second code to the same email replaces the first: the earlier
      code, if it differs, is now a wrong code. */
  lemma ResendReplacesCode(
    codes: map<string, Issued>, rows: seq<Row>, email: string, draw1: int, draw2: int, t1: int, t2: int,
    f: ApplyFields, ip: Option<string>, now: int, content: Option<string>, countRow: Option<int>)
    requires DrawInRange(draw1) && DrawInRange(draw2) && draw1 != draw2 && email != ""
    requires ShapeOk(f) && f.email == Some(email) && f.verificationCode == Some(Decimal.DecimalText(draw1))
    ensures var s1 := SendCodeSpec(codes, Parsed(Some(email)), draw1, true, t1);
      var s2 := SendCodeSpec(s1.codes, Parsed(Some(email)), draw2, true, t2);
      var a := ApplySpec(s2.codes, rows, Parsed(f), ip, now, content, countRow);
      && s2.codes[email] == Issued(Decimal.DecimalText(draw2), t2)
      && a.response == CreateErrorResponse(WrongVerificationCode, WrongCodeMsg)
      && a.codes == s2.codes && a.rows == rows
  {
    Decimal.ParseDecimalText(draw1);
    Decimal.ParseDecimalText(draw2);
  }

  /* ---------------- the classifier verdict ---------------- */

  /** Only the exact affirmative character admits; an empty answer, "否",
      a longer answer or a missing content field does not. */
  lemma VerdictExamples()
    ensures Affirmative(Some("是"))
    ensures !Affirmative(Some(""))
    ensures !Affirmative(Some("否"))
    ensures !Affirmative(Some("是。"))
    ensures !Affirmative(None)
  {
  }
}
