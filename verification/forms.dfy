/** What the two form handlers share: the form fields, the field-to-message
    error map they build, the request they send when the form is clean, the
    server's JSON reply, and what the page does in response.

    The page itself (inserting and clearing `<p class="error-message">`
    elements, `form.submit()`, `window.location.href`) is reduced to the
    `Reaction` values below.
 */
module Forms {
  import EmailFormat

  datatype Option<T> = None | Some(value: T)

  /** The inputs of the registration and login forms, by their `name`
      attributes: `nombre`, `apellido`, `email`, `password`, `confirm_password`. */
  datatype Field = Nombre | Apellido | Email | Password | ConfirmPassword

  /** The messages shown next to each field; at most one per field. */
  type Errors = map<Field, string>

  /** The errors found so far and the handler's `hasErrors` flag. */
  datatype Collector = Collector(errors: Errors, hasErrors: bool)

  /** The flag is raised exactly when some message has been recorded. */
  predicate FlagMirrorsErrors(c: Collector) {
    c.hasErrors <==> c.errors != map[]
  }

  const Clean: Collector := Collector(map[], false)

  /** `showError(field, msg); hasErrors = true;`: the field now carries the
      message, the flag is raised, and every other field keeps what it had. */
  function Report(c: Collector, f: Field, msg: string): (r: Collector)
    requires FlagMirrorsErrors(c)
    ensures FlagMirrorsErrors(r)
    ensures r.hasErrors
    ensures f in r.errors && r.errors[f] == msg
    ensures r.errors - {f} == c.errors - {f}
  {
    var m := c.errors[f := msg];
    assert f in m;
    Collector(m, true)
  }

  // The e-mail messages, identical in both forms.
  const EmailRequired := "Por favor, ingresa tu correo electrónico."
  const EmailMalformed := "Por favor, ingresa un correo electrónico válido."

  /** The message the e-mail check gives a trimmed address, if any:
      "required" for an empty one, otherwise "malformed" when the pattern
      test fails; never both. */
  function EmailProblem(email: string): (m: Option<string>)
    ensures email == [] ==> m == Some(EmailRequired)
    ensures email != [] ==> (m.Some? <==> !EmailFormat.IsValidEmail(email))
    ensures m.Some? && email != [] ==> m.value == EmailMalformed
  {
    if email == [] then Some(EmailRequired)
    else if !EmailFormat.IsValidEmail(email) then Some(EmailMalformed)
    else None
  }

  /** The `if (!email) ... else if (!validateEmail(email)) ...` block: at
      most one e-mail message, recorded exactly when the address is empty or
      malformed, and nothing recorded for any other field. */
  function CheckEmail(c: Collector, email: string): (r: Collector)
    requires FlagMirrorsErrors(c)
    ensures FlagMirrorsErrors(r)
    ensures r.errors - {Email} == c.errors - {Email}
    ensures email == [] ==> Email in r.errors && r.errors[Email] == EmailRequired
    ensures email != [] && !EmailFormat.IsValidEmail(email) ==>
      Email in r.errors && r.errors[Email] == EmailMalformed
    ensures email != [] && EmailFormat.IsValidEmail(email) ==> r == c
  {
    match EmailProblem(email)
    case Some(m) => Report(c, Email, m)
    case None => c
  }

  /** The request the handler sends once the form is clean. */
  datatype Request =
    | CheckRegister(email: string)                    // POST /api/check_register
    | CheckCredentials(email: string, password: string)  // POST /api/check_credentials

  /** The outcome of the client-side checks: the messages shown, and the
      request sent to the server, if any. */
  datatype Verdict = Verdict(errors: Errors, request: Option<Request>)

  /** Turns the collected checks into a verdict: the request goes out only
      when `hasErrors` is still false. */
  function Conclude(c: Collector, req: Request): (v: Verdict)
    requires FlagMirrorsErrors(c)
    ensures v.errors == c.errors
    ensures v.request.Some? <==> c.errors == map[]
    ensures v.request.Some? ==> v.request.value == req
  {
    Verdict(c.errors, if c.hasErrors then None else Some(req))
  }

  /** The `errors` object of a failed reply; a missing key is `None`. */
  datatype ServerErrors = ServerErrors(email: Option<string>, password: Option<string>)

  /** The JSON reply: `success`, `errors` (absent on success) and `redirect_url`. */
  datatype Reply = Reply(success: bool, errors: Option<ServerErrors>, redirectUrl: string)

  /** JavaScript truthiness of an optional string: present and non-empty. */
  predicate Truthy(m: Option<string>) {
    m.Some? && m.value != []
  }

  /** What the page does after the checks (and, when sent, the reply). */
  datatype Reaction =
    | ShowErrors(errors: Errors)  // error messages next to the fields
    | SubmitForm                  // `form.submit()`
    | Redirect(url: string)       // `window.location.href = url`
    | LogFailure                  // the `catch` branch: `console.error`
}
