# Whitelist backend: verification codes and application admission

This project models the request logic of a small serverless backend that
collects whitelist applications for a Minecraft server. The backend has two
handlers:

- `/api/send-code` draws a six-digit code. It mails the code to the applicant.
  It records the code in a process-wide map from email to (code, timestamp).
- `/api/whitelist-apply` checks an application in a fixed order. The checks
  are: the shape of the body, the code, the code's age, the username, the
  verdict of a language-model classifier, and a per-IP cap. If every check
  passes, it inserts a row into the `whitelist_entry` table and consumes the
  code.

Outbound calls are inputs. These are the mail provider's `ok` flag, the
classifier's first-choice content (`Option<string>`), the count row of the
per-IP query (`Option<int>`), `Date.now()` and the drawn integer.

Files and modules:

- `wrappers.dfy` (`Wrappers`): `Option`.
- `decimal.dfy` (`Decimal`): the decimal text of the drawn integer, the
  parser that inverts it, and proofs that every draw in [100000, 999999]
  prints as exactly six digits and that these are all the six-digit strings
  without a leading zero.
- `username.dfy` (`Username`): the username regular expression, modelled
  piece by piece. It has three `[k]+$` lookaheads and a `[a-zA-Z0-9_]{3,16}$`
  repetition. A proof shows it accepts exactly the names of 3 to 16 characters
  from `[A-Za-z0-9_]` that contain at least one ASCII letter.
- `handlers.dfy` (`Handlers`): requests, responses, messages and error types.
  `SendCodeSpec` and `ApplySpec` are the pure specification functions. The
  class `Backend` holds the code map and the table, and its methods
  `SendCode` and `WhitelistApply` update them in place. Each method is proved
  equal to its specification function.
- `properties.dfy` (`HandlerProperties`): lemmas about the handlers. They
  cover the send-code outcomes, first-failure-wins ordering, which paths
  change the map and the table, the expiry boundary, and the per-IP cap. They
  also cover request sequences: send then apply, retrying an expired code,
  reusing a consumed code, and re-sending a code.

Behaviour of the code worth noting:

- The send-code handler rejects an empty email as well as a missing one,
  because the code tests truthiness.
- Its error responses come from the router's `error(status, message)`, with
  status 400 or 500. They are not the typed `{type, message}` shape. The model
  keeps them as `PlainError` with the status the code passes.
- The username rule is one regular expression with three lookaheads. The
  `[0-9]+` and `_+` lookaheads exclude nothing that the `[0-9_]+` one does
  not already exclude (`LookaheadsSubsumed`).

Two behaviours the model makes explicit:

- An expired code and a wrong code share the error type
  `wrong_verification_code`. They differ only in the message.
- The per-IP count query binds the `cf-connecting-ip` header, which may be
  absent. SQL's `ip_address = NULL` matches no row, so a request without the
  header is counted as zero and is never capped (`MissingIpNeverCapped`). For
  requests that carry an address, the cap holds (`ApplyKeepsIpCap`).

## Model

| member | source | states |
|---|---|---|
| `Decimal.DecimalText` | functions/src/index.ts:28 | the text of a drawn integer is a non-empty string of decimal digits |
| `Decimal.ParseDecimalText` | functions/src/index.ts:28 | reading the decimal text of `n` gives back `n` (the conversion loses nothing) |
| `Decimal.DecimalTextLength` | functions/src/index.ts:28 | a number in [10^k, 10^(k+1)) prints as exactly k + 1 characters |
| `Decimal.DecimalTextLeadingDigit` | functions/src/index.ts:28 | a positive number prints without a leading zero |
| `Decimal.DecimalTextOfParse` | functions/src/index.ts:28 | printing the value of a digit string with no leading zero gives that string back |
| `Decimal.DrawnCodeIsSixDigits` | functions/src/index.ts:28 | every draw in [100000, 999999] prints as six digits with a non-zero first digit, and the text parses back to the draw |
| `Decimal.SixDigitCodes` | functions/src/index.ts:28 | a string is six digits with a non-zero first digit iff it is the text of some draw in [100000, 999999] |
| `Username.MatchesPlusIff` | functions/src/index.ts:77 | a `[k]+$` lookahead matches exactly the non-empty strings over class k |
| `Username.MatchesRangeIff` | functions/src/index.ts:77 | `[a-zA-Z0-9_]{lo,hi}$` matches exactly the strings over the class with length in [lo, hi] |
| `Username.LookaheadsSubsumed` | functions/src/index.ts:77 | whatever the `[0-9]+$` or `_+$` lookahead excludes, the `[0-9_]+$` lookahead already excludes |
| `Username.UsernameRule` | functions/src/index.ts:77-79 | the username test passes iff the length is 3 to 16, every character is in [A-Za-z0-9_], and some character is an ASCII letter |
| `Username.AcceptedExamples` | functions/src/index.ts:77-79 | "abc" and "a_1" pass the username test |
| `Username.RejectedExamples` | functions/src/index.ts:77-79 | "12345", "___", "1_2", "ab" and a 17-letter name fail the username test |
| `Handlers.Backend.constructor` | functions/src/index.ts:9 | a worker starts with an empty code map, against a table that already holds the given rows |
| `Handlers.Backend.SendCode` | functions/src/index.ts:22-53 | the send-code handler's response and new code map are those of `SendCodeSpec`, every stored code stays six digits, and the table is untouched |
| `Handlers.Backend.WhitelistApply` | functions/src/index.ts:55-113 | the apply handler's response, new code map and new table are those of `ApplySpec`, and every stored code stays six digits |
| `HandlerProperties.SendCodeMissingEmail` | functions/src/index.ts:25-27 | a missing or empty email gets status 400 with the missing-email message, and the code map is unchanged |
| `HandlerProperties.SendCodeOnlySuccessStores` | functions/src/index.ts:43-48 | success iff the body parsed, the email is present and the mail was sent; a failed send gets 500 and stores nothing; a success stores (text of the draw, now) under the email, replacing any earlier entry and keeping every other email's entry |
| `HandlerProperties.StoredCodeIsDrawText` | functions/src/index.ts:28-47 | after a successful send, the stored code is six digits, parses back to the draw, and carries the send time |
| `HandlerProperties.SendCodeKeepsCodesWellFormed` | functions/src/index.ts:28-47 | sending a code keeps every code in the map six digits long |
| `HandlerProperties.ApplyFirstFailureWins` | functions/src/index.ts:59-103 | for each error type, the handler returns it iff every earlier check passed and its own check failed, in the order shape, code (missing, mismatched or expired), username, verdict, cap; success iff all pass; a parsed body never gives `unknown_error` |
| `HandlerProperties.MalformedCodeRefused` | functions/src/index.ts:28-71 | since every stored code is six digits without a leading zero, a submitted code that is not is always refused with `wrong_verification_code` and changes nothing |
| `HandlerProperties.ApplyUnparsable` | functions/src/index.ts:55-57 | a body that fails to parse gets `unknown_error` and changes neither the map nor the table |
| `HandlerProperties.ApplyResponseShape` | functions/src/index.ts:127-135 | every apply response is either 200 with `{status: "success"}` or 400 with a typed error; the six wire type names are pairwise distinct |
| `HandlerProperties.ExpiryBoundary` | functions/src/index.ts:73 | a code submitted exactly 300000 ms after issue is not treated as expired; one submitted 300001 ms after is |
| `HandlerProperties.ApplyCodeMapEffect` | functions/src/index.ts:69-76 | the map changes only on the expiry path or on success, and then loses exactly the submitted email's entry; a missing or wrong code leaves the map unchanged, so a wrong guess never clears an expired entry |
| `HandlerProperties.ApplyTableEffect` | functions/src/index.ts:99-107 | every non-success leaves the table unchanged; a success appends exactly the row (qq number, email, username, ip) and removes that email's code |
| `HandlerProperties.MissingCountRowSkipsCap` | functions/src/index.ts:100-101 | a missing count row never produces `email_limit_exceeded` |
| `HandlerProperties.CountIpAppend` | functions/src/index.ts:99 | appending a row raises the count of its address by one and leaves every other address's count unchanged |
| `HandlerProperties.ApplyKeepsIpCap` | functions/src/index.ts:99-106 | if no address has more than 3 rows and the count row is what the database returns, then after apply no address has more than 3 rows |
| `HandlerProperties.FourthApplicationRefused` | functions/src/index.ts:101-102 | an otherwise valid application from an address that already has 3 rows gets `email_limit_exceeded`, and neither the table nor the map changes |
| `HandlerProperties.MissingIpNeverCapped` | functions/src/index.ts:58-101 | without the client-address header the count query counts nothing, so a valid application is admitted however many rows exist |
| `HandlerProperties.SendThenApply` | functions/src/index.ts:47-107 | a code sent and then submitted within 5 minutes with a valid form and an affirmative verdict is admitted, adds the one row, and is consumed |
| `HandlerProperties.ExpiredCodeRetried` | functions/src/index.ts:69-76 | an expired code is rejected and removed; the same submission again is rejected as a wrong code, and the map and table do not change |
| `HandlerProperties.UsedCodeNotReusable` | functions/src/index.ts:69-71 | after a successful application, the same form is rejected as a wrong code and adds no row |
| `HandlerProperties.ResendReplacesCode` | functions/src/index.ts:47 | a second send to the same email replaces the first code, and the first (different) code is then a wrong code |
| `HandlerProperties.VerdictExamples` | functions/src/index.ts:96 | only content exactly "是" passes; "", "否", "是。" and missing content do not |

## Left out

- The HTTP requests to the mail provider and to the classifier
  (functions/src/index.ts:29-42 and 81-95) are network I/O. Only their results
  are modelled: the `ok` flag and the first choice's content.
- The classifier's prompt text is not modelled. Whether the model resists
  injected instructions cannot be stated as a property of this code.
- The SQL statements and their execution are not modelled. The count query is
  an `Option<int>` input. The insert is an append to the `rows` sequence.
  `SqlCount` gives the value a database would return, for use in lemmas.
- `Math.random()` and `Date.now()` are integer parameters. The draw's range
  [100000, 999999] is a precondition. The floating-point arithmetic that
  produces the draw is not modelled.
- Routing, the OPTIONS preflight and the CORS header added to every response
  (functions/src/index.ts:8, 11-20, 115-124) are framework plumbing.
- JSON parsing is reduced to a `Body` that is either `Unparsable` or a set of
  fields. A send-code body that is the JSON literal `null` is `Unparsable`:
  destructuring `email` from it throws, and the handler answers 500. An apply
  body that is `null` or not an object has every field absent, which gives
  `invalid_request` as `!data` does. An email that is a truthy non-string (a number, say) is not
  modelled. JavaScript would use such a value as a map key.
- Exceptions other than a failed parse are not modelled. Examples are a
  failing `fetch`, a classifier body that is not JSON, and a database error.
  The source converts each to a 500 or to `unknown_error`. The model has no
  input that raises them.
- `console.error` logging is not modelled.
- Concurrency between worker instances is not modelled. This includes races
  on the code map and between count and insert. The model is sequential.
- The count row's `count` is an integer. A non-numeric value from the
  database is not modelled.
