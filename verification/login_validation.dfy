/** The login form's submit handler (`loginValidations.js`).

    Both fields are trimmed, then both checks run: e-mail required or else
    well-formed (the same test as the registration form), password required.
    There is no length rule here. Only a form without any message is sent on,
    as `POST /api/check_credentials` with the trimmed e-mail and password; on
    `success` the page goes to the reply's `redirect_url`, otherwise the
    server's e-mail and password messages are shown, each when present.
 */
module LoginValidation {
  import opened Forms
  import Text
  import EmailFormat

  /** The raw values of the form's two inputs. */
  datatype LoginForm = LoginForm(email: string, password: string)

  const PasswordRequired := "Por favor, ingresa tu contraseña."

  function Trimmed(raw: LoginForm): LoginForm {
    LoginForm(Text.Trim(raw.email), Text.Trim(raw.password))
  }

  /** The two checks over the trimmed values `f`, and the request that
      follows when neither fired. Each field's message depends on that field
      alone, so both can appear together. */
  function Validate(f: LoginForm): (v: Verdict)
    ensures v.errors.Keys <= {Email, Password}
    ensures Email in v.errors <==> f.email == [] || !EmailFormat.IsValidEmail(f.email)
    ensures Email in v.errors ==>
      v.errors[Email] == if f.email == [] then EmailRequired else EmailMalformed
    ensures Password in v.errors <==> f.password == []
    ensures Password in v.errors ==> v.errors[Password] == PasswordRequired
    ensures v.request.Some? <==> v.errors == map[]
    ensures v.request.Some? ==> v.request.value == CheckCredentials(f.email, f.password)
  {
    var c1 := CheckEmail(Clean, f.email);
    var c2 := if f.password == [] then Report(c1, Password, PasswordRequired) else c1;
    Conclude(c2, CheckCredentials(f.email, f.password))
  }

  /** The client-side part of the handler: trim both fields, then validate. */
  function Check(raw: LoginForm): (v: Verdict)
    ensures v.errors.Keys <= {Email, Password}
    ensures Email in v.errors <==>
      Text.Trim(raw.email) == [] || !EmailFormat.IsValidEmail(Text.Trim(raw.email))
    ensures Email in v.errors ==>
      v.errors[Email] == if Text.Trim(raw.email) == [] then EmailRequired else EmailMalformed
    ensures Password in v.errors <==> Text.Trim(raw.password) == []
    ensures Password in v.errors ==> v.errors[Password] == PasswordRequired
    ensures v.request.Some? <==> v.errors == map[]
    ensures v.request.Some? ==>
      v.request.value == CheckCredentials(Text.Trim(raw.email), Text.Trim(raw.password))
  {
    Validate(Trimmed(raw))
  }

  /** The handler's response to the server's reply: on success, go to
      `redirect_url` and show nothing; otherwise show the server's e-mail
      and password messages, each exactly when it is a non-empty string.
      A failed reply without an `errors` object makes `result.errors.email`
      throw, which the `catch` only logs. */
  function React(reply: Reply): (r: Reaction)
    ensures r.Redirect? <==> reply.success
    ensures r.Redirect? ==> r.url == reply.redirectUrl
    ensures r == LogFailure <==> !reply.success && reply.errors.None?
    ensures r.ShowErrors? <==> !reply.success && reply.errors.Some?
    ensures r.ShowErrors? ==>
      var errs := reply.errors.value;
      r.errors.Keys <= {Email, Password} &&
      (Email in r.errors <==> Truthy(errs.email)) &&
      (Email in r.errors ==> r.errors[Email] == errs.email.value) &&
      (Password in r.errors <==> Truthy(errs.password)) &&
      (Password in r.errors ==> r.errors[Password] == errs.password.value)
  {
    if !reply.success then
      match reply.errors
      case None => LogFailure
      case Some(errs) =>
        var shown := if Truthy(errs.email) then map[Email := errs.email.value] else map[];
        ShowErrors(if Truthy(errs.password) then shown[Password := errs.password.value] else shown)
    else
      Redirect(reply.redirectUrl)
  }

  /** One submission: the checks, then, only when they found nothing, the
      server's reply. */
  function Handle(raw: LoginForm, reply: Reply): (r: Reaction)
    ensures r.Redirect? <==> Check(raw).errors == map[] && reply.success
    ensures Check(raw).errors != map[] ==> r == ShowErrors(Check(raw).errors)
    ensures Check(raw).errors == map[] ==> r == React(reply)
  {
    var v := Check(raw);
    if v.request.None? then ShowErrors(v.errors) else React(reply)
  }

  /** The checks see only trimmed values: adding white space around either
      field changes nothing. */
  lemma PaddingIgnored(raw: LoginForm, padded: LoginForm)
    requires Text.PaddedBy(padded.email, raw.email)
    requires Text.PaddedBy(padded.password, raw.password)
    ensures Check(padded) == Check(raw)
  {
    Text.TrimPadded(padded.email, raw.email);
    Text.TrimPadded(padded.password, raw.password);
  }

  /** What the page does after a submission does not depend on white space
      around the fields either, whatever the server replies. */
  lemma HandlePaddingIgnored(raw: LoginForm, padded: LoginForm, reply: Reply)
    requires Text.PaddedBy(padded.email, raw.email)
    requires Text.PaddedBy(padded.password, raw.password)
    ensures Handle(padded, reply) == Handle(raw, reply)
  {
    PaddingIgnored(raw, padded);
  }

  /** Any non-empty password passes the client, however short: an instance
      of `Validate`'s `Password` clause, which tests emptiness only, and of
      its request clauses. */
  lemma ShortPasswordAccepted()
    ensures Validate(LoginForm("a@b.com", "x")) == Verdict(map[], Some(CheckCredentials("a@b.com", "x")))
  {
    assert EmailFormat.MatchAt("a@b.com", 0, 1, 3, 7);
    var v := Validate(LoginForm("a@b.com", "x"));
    forall g: Field ensures g !in v.errors {
      match g
      case Nombre =>
      case Apellido =>
      case Email =>
      case Password =>
      case ConfirmPassword =>
    }
  }

  /** A malformed e-mail and an empty password are reported together: an
      instance of `Validate`'s independent `Email` and `Password` clauses. */
  lemma BothMessages()
    ensures Validate(LoginForm("a@b.", "")).errors
      == map[Email := EmailMalformed, Password := PasswordRequired]
  {
    var v := Validate(LoginForm("a@b.", ""));
    assert !EmailFormat.IsValidEmail("a@b.") by { EmailFormat.RejectsTrailingDot(); }
    forall g: Field ensures g in v.errors <==> g == Email || g == Password {
      match g
      case Nombre =>
      case Apellido =>
      case Email =>
      case Password =>
      case ConfirmPassword =>
    }
  }
}
