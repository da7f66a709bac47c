# Client-side form validation of the shop's registration and login pages

The shop's registration and login pages each check their form in the browser
before anything reaches the server. Two submit handlers do this:
`static/js/registerValidations.js` and `static/js/loginValidations.js`.
Each handler does the following:

1. It trims every field with `String.prototype.trim`.
2. It runs every field check, collecting a message per failing field. The
   checks do not stop at the first failure.
3. It asks the server only when no message was collected. Registration sends
   `POST /api/check_register` with the e-mail. Login sends
   `POST /api/check_credentials` with the e-mail and password.
4. It reacts to the JSON reply. Registration submits the form on success, and
   otherwise shows the server's e-mail message. Login redirects to
   `redirect_url` on success, and otherwise shows the server's e-mail and
   password messages.

Both files contain the same e-mail test, `validateEmail`. It is
`/[^@]+@[^@]+\.[^@]+/.test(email)`, and it is not anchored.

The Dafny model has six modules:

- `Text` (`text.dfy`) models JavaScript's `trim` as `Trim`. `IsTrimOf`
  describes the trimmed string without computing it, and the two are proved
  to agree (`Trim` cuts at `LeadingSpace` and `TrailingSpace`). From that
  come `TrimUnique`, `TrimIgnoresPadding`, `TrimIdempotent` and
  `TrimOfTrimmed`.
- `EmailFormat` (`email_format.dfy`) holds the e-mail test.
  - `Matches` is a declarative statement of what the regular expression
    accepts: there are indices `i < j < k < l` such that `s[i..j]` is a
    non-empty run without `@`, `s[j]` is `@`, `s[j+1..k]` is a non-empty run
    without `@`, `s[k]` is `.`, and `s[k+1..l]` is a non-empty run without
    `@`.
  - `IsValidEmail` decides this in one left-to-right pass of a six-state
    automaton (`Step`, `Run`). Its contract is `ok <==> Matches(s)`.
  - The proof gives each state a meaning over the characters read so far
    (`Describes`). Each transition keeps that meaning (`StepDescribes`), and
    so does a whole run (`RunDescribes`).
- `Forms` (`forms.dfy`) holds what both handlers share:
  - the field names;
  - the field-to-message error map, together with the handler's `hasErrors`
    flag (`Collector`), and the invariant that the flag is set exactly when
    the map is non-empty;
  - the e-mail check and its two messages, which are identical in both
    files;
  - the request, the server's reply, and the page's reaction.
- `RegisterValidation` (`register_validation.dfy`) and `LoginValidation`
  (`login_validation.dfy`) each define the following:
  - `Validate` runs the checks over trimmed values.
  - `Check` trims, then validates.
  - `React` decides what to do with the server's reply.
  - `Handle` is one whole submission.
- `Replies` (`replies.dfy`) relates the two pages' reactions to the same
  server reply.

The DOM work of `showError` and `clearErrors` becomes the `ShowErrors` map.
Each submission starts from an empty map, as `clearErrors` empties the page.
`form.submit()` becomes `SubmitForm`. The `window.location.href` assignment
becomes `Redirect`. The `catch` branch becomes `LogFailure`. The server's
reply is an input value.

Three facts about the code are easy to get wrong, and the model states them:

- Every failing registration field is reported at once; the checks do not
  stop at the first failure.
- The unanchored regular expression accepts more than one `@`, for example
  `a@b@c.d` (`AcceptsSeveralAts`).
- There is no separate "required" rule for the registration password: an
  empty password gets the length message (`EmptyPasswordMessages`).

## Model

| member | source | states |
|---|---|---|
| Text.Trim | static/js/registerValidations.js:16-20 | The result is `s` with white space removed from both ends and nothing else changed: a window of `s` with only white space outside it, whose ends are not white space. |
| Text.TrimUnique | static/js/registerValidations.js:16-20 | At most one string satisfies that description, so `Trim` is fully determined by it. |
| Text.TrimIgnoresPadding | static/js/loginValidations.js:11-12 | White space added before and after a string does not change its trim. |
| Text.TrimIdempotent | static/js/loginValidations.js:11-12 | Trimming an already-trimmed value changes nothing. |
| EmailFormat.IsValidEmail | static/js/registerValidations.js:98-101 | The single-pass scanner accepts a string exactly when some substring matches `[^@]+@[^@]+\.[^@]+`, as stated declaratively by `Matches`. |
| EmailFormat.RunDescribes | static/js/loginValidations.js:82-85 | After any input, the scanner's state describes what the characters read so far hold: a full match, or how much of one is pending at the end. |
| EmailFormat.MatchesExtend | static/js/registerValidations.js:98-101 | Appending a character creates a match exactly when there already was one, or when the input ended in non-`@`, `@`, non-`@` run, `.` and the new character is not `@`. |
| EmailFormat.AcceptsSeveralAts | static/js/registerValidations.js:98-101 | Because the test is unanchored, `a@b@c.d` is accepted. |
| EmailFormat.RejectsDotRightAfterAt | static/js/registerValidations.js:98-101 | `a@.b` is rejected: the run between `@` and `.` must not be empty. |
| EmailFormat.RejectsTrailingDot | static/js/loginValidations.js:82-85 | `a@b.` is rejected: the run after the `.` must not be empty. |
| Forms.EmailProblem | static/js/registerValidations.js:36-43 | An e-mail gets at most one message: "required" exactly when it is empty, otherwise "malformed" exactly when the format test fails. |
| Forms.Report | static/js/registerValidations.js:26-29 | Recording a message sets the field's message and raises `hasErrors`; every other field keeps what it had, and the flag still mirrors whether any message exists. |
| Forms.CheckEmail | static/js/loginValidations.js:16-23 | The e-mail field gets "required" when the address is empty, "malformed" when it is non-empty and fails the format test, and nothing otherwise; no other field is touched. |
| Forms.Conclude | static/js/registerValidations.js:55-56 | The request goes out exactly when no message was collected, and then it is the given request. |
| RegisterValidation.Validate | static/js/registerValidations.js:26-56 | Per field, independently: a name message iff the name is empty, a surname message iff the surname is empty, one e-mail message iff the e-mail is empty or malformed, a length message iff the password has fewer than 6 characters, a mismatch message iff password and confirmation differ. `check_register` with the e-mail is requested iff there is no message. |
| RegisterValidation.Check | static/js/registerValidations.js:16-56 | Each of the five rules, with its message text, decided on the trimmed field value. `check_register` with the trimmed e-mail is requested iff no message was recorded. |
| RegisterValidation.React | static/js/registerValidations.js:72-79 | The form is submitted iff the reply says `success`. A failed reply shows only the server's e-mail message, and only when it is a non-empty string. A failed reply without `errors` is only logged. |
| RegisterValidation.Handle | static/js/registerValidations.js:55-79 | The form is submitted iff the client checks found nothing and the server said `success`. When the client checks found something, their messages are shown and the reply plays no part. Otherwise the page does what the reply dictates (`React`): the server's e-mail message, or only a log entry when `errors` is missing. |
| RegisterValidation.PaddingIgnored | static/js/registerValidations.js:16-20 | Adding white space around any of the five fields leaves the verdict unchanged. |
| RegisterValidation.HandlePaddingIgnored | static/js/registerValidations.js:16-20 | For every server reply, white space around any field does not change what the page does after a submission. |
| RegisterValidation.EmptyPasswordMessages | static/js/registerValidations.js:45-53 | An empty password gets the length message, not a separate "required" one. It also gets the mismatch message iff the confirmation is not empty. |
| RegisterValidation.BothPasswordMessages | static/js/registerValidations.js:45-53 | A short password that differs from its confirmation gets both password messages and nothing else, and no request is sent. |
| RegisterValidation.CleanFormAsksServer | static/js/registerValidations.js:55-67 | A complete, well-formed registration yields no message, and `check_register` is requested with its e-mail. |
| LoginValidation.Validate | static/js/loginValidations.js:16-32 | At most the e-mail and password fields get messages. One e-mail message appears iff the e-mail is empty or malformed. A password message appears iff the password is empty; there is no length rule. `check_credentials` with both values is requested iff there is no message. |
| LoginValidation.Check | static/js/loginValidations.js:11-32 | Only the e-mail and password fields get messages. The e-mail rule and the password-required rule, with their message texts, are decided on the trimmed values. `check_credentials` with both trimmed values is requested iff no message was recorded. |
| LoginValidation.React | static/js/loginValidations.js:50-62 | On `success` the page redirects to `redirect_url` and shows nothing. Otherwise the server's e-mail and password messages are each shown iff present and non-empty, independently of each other. A failed reply without `errors` is only logged. |
| LoginValidation.Handle | static/js/loginValidations.js:31-62 | The page redirects iff the client checks found nothing and the server said `success`. Client-side messages make the reply irrelevant. Otherwise the page does what the reply dictates (`React`): the server's messages, or only a log entry when `errors` is missing. |
| LoginValidation.PaddingIgnored | static/js/loginValidations.js:11-12 | Adding white space around either field leaves the verdict unchanged. |
| LoginValidation.HandlePaddingIgnored | static/js/loginValidations.js:11-12 | For every server reply, white space around either field does not change what the page does after a submission. |
| LoginValidation.ShortPasswordAccepted | static/js/loginValidations.js:26-29 | A one-character password passes the client checks. |
| LoginValidation.BothMessages | static/js/loginValidations.js:16-29 | A malformed e-mail and an empty password are reported together in one pass. |
| Replies.ReactionsAgree | static/js/loginValidations.js:50-58 | For every reply, registration submits exactly when login redirects, both log exactly together, and on a failed reply with `errors` registration shows exactly login's messages without the password one, so the e-mail message appears under the same condition with the same text. |

## Left out

- DOM work is not modelled: `querySelector`, `createElement`, `insertBefore`, removing old messages, and event wiring. Only which message each field gets is kept, as a map.
- The display order of messages is not modelled. Each message sits next to its own field, and no field gets two.
- `fetch`, `async`/`await` and JSON parsing are not modelled; the server's reply is an input value. A reply that cannot be parsed, and a network failure, both end in the `catch` branch. Only the missing-`errors` case of that branch is modelled, as `LogFailure`.
- The model assumes `success` is a boolean, `redirect_url` is a string, and each `errors` entry is absent or a string. JavaScript would also accept other JSON types and apply its truthiness rules to them.
- A `redirect_url` missing from a successful login reply is not modelled.
- Strings are sequences of Unicode scalar values. JavaScript strings are UTF-16 code units, so for characters outside the Basic Multilingual Plane `.length` differs from `|s|`. The white-space set of `trim` is the ECMAScript WhiteSpace and LineTerminator set as of Unicode 6.3 and later, where U+180E is no longer a space separator.
- After a successful `check_register`, `form.submit()` posts the fields' raw values, not the trimmed ones. The server side (`app.py`) is not part of this model. It is a thin layer over Flask, SQLAlchemy and werkzeug, whose behaviour is not visible here.
- `static/js/main.js` is not modelled. It is a timer-driven image carousel with no validation logic.
- The merge-conflict marker lines at the top of `registerValidations.js` are repository noise, not behaviour.
