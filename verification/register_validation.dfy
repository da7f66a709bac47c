/** The registration form's submit handler (`registerValidations.js`).

    The five fields are trimmed, then every check runs, none stopping the
    others: first name and last name required, e-mail required or else
    well-formed, password at least six characters, password equal to its
    confirmation. Only a form without any message is sent on, as
    `POST /api/check_register` with the trimmed e-mail; the form is submitted
    if the server answers `success`, and otherwise the server's e-mail
    message, if any, is shown.
 */
module RegisterValidation {
  import opened Forms
  import Text
  import EmailFormat

  /** The raw values of the form's five inputs. */
  datatype RegisterForm = RegisterForm(
    nombre: string,
    apellido: string,
    email: string,
    password: string,
    confirmPassword: string)

  const NombreRequired := "Por favor, ingresa tu nombre."
  const ApellidoRequired := "Por favor, ingresa tu apellido."
  const PasswordTooShort := "La contraseña debe tener al menos 6 caracteres."
  const PasswordsDiffer := "Las contraseñas no coinciden."

  /** Passwords shorter than this (after trimming) are refused. */
  const MinPasswordLength := 6

  function Trimmed(raw: RegisterForm): RegisterForm {
    RegisterForm(
      Text.Trim(raw.nombre), Text.Trim(raw.apellido), Text.Trim(raw.email),
      Text.Trim(raw.password), Text.Trim(raw.confirmPassword))
  }

  /** The checks over the trimmed values `f`, in the handler's order, and
      the request that follows when none of them fired. Every check runs
      whatever the earlier ones found, and each field's message depends on
      that field alone (the confirmation's on both passwords), so any
      combination of messages can appear together. */
  function Validate(f: RegisterForm): (v: Verdict)
    ensures Nombre in v.errors <==> f.nombre == []
    ensures Nombre in v.errors ==> v.errors[Nombre] == NombreRequired
    ensures Apellido in v.errors <==> f.apellido == []
    ensures Apellido in v.errors ==> v.errors[Apellido] == ApellidoRequired
    ensures Email in v.errors <==> f.email == [] || !EmailFormat.IsValidEmail(f.email)
    ensures Email in v.errors ==>
      v.errors[Email] == if f.email == [] then EmailRequired else EmailMalformed
    ensures Password in v.errors <==> |f.password| < MinPasswordLength
    ensures Password in v.errors ==> v.errors[Password] == PasswordTooShort
    ensures ConfirmPassword in v.errors <==> f.password != f.confirmPassword
    ensures ConfirmPassword in v.errors ==> v.errors[ConfirmPassword] == PasswordsDiffer
    ensures v.request.Some? <==> v.errors == map[]
    ensures v.request.Some? ==> v.request.value == CheckRegister(f.email)
  {
    var c1 := if f.nombre == [] then Report(Clean, Nombre, NombreRequired) else Clean;
    var c2 := if f.apellido == [] then Report(c1, Apellido, ApellidoRequired) else c1;
    var c3 := CheckEmail(c2, f.email);
    var c4 := if |f.password| < MinPasswordLength then Report(c3, Password, PasswordTooShort) else c3;
    var c5 := if f.password != f.confirmPassword then Report(c4, ConfirmPassword, PasswordsDiffer) else c4;
    Conclude(c5, CheckRegister(f.email))
  }

  /** The client-side part of the handler: trim every field, then validate.
      Which messages appear, and whether (and with what) the server is asked
      about the e-mail, is decided by the trimmed values alone. */
  function Check(raw: RegisterForm): (v: Verdict)
    ensures Nombre in v.errors <==> Text.Trim(raw.nombre) == []
    ensures Nombre in v.errors ==> v.errors[Nombre] == NombreRequired
    ensures Apellido in v.errors <==> Text.Trim(raw.apellido) == []
    ensures Apellido in v.errors ==> v.errors[Apellido] == ApellidoRequired
    ensures Email in v.errors <==>
      Text.Trim(raw.email) == [] || !EmailFormat.IsValidEmail(Text.Trim(raw.email))
    ensures Email in v.errors ==>
      v.errors[Email] == if Text.Trim(raw.email) == [] then EmailRequired else EmailMalformed
    ensures Password in v.errors <==> |Text.Trim(raw.password)| < MinPasswordLength
    ensures Password in v.errors ==> v.errors[Password] == PasswordTooShort
    ensures ConfirmPassword in v.errors <==> Text.Trim(raw.password) != Text.Trim(raw.confirmPassword)
    ensures ConfirmPassword in v.errors ==> v.errors[ConfirmPassword] == PasswordsDiffer
    ensures v.request.Some? <==> v.errors == map[]
    ensures v.request.Some? ==> v.request.value == CheckRegister(Text.Trim(raw.email))
  {
    Validate(Trimmed(raw))
  }

  /** The handler's response to the server's reply: submit on success;
      otherwise show the server's e-mail message when it is a non-empty
      string, and nothing else. A failed reply without an `errors` object
      makes `result.errors.email` throw, which the `catch` only logs. */
  function React(reply: Reply): (r: Reaction)
    ensures r == SubmitForm <==> reply.success
    ensures r == LogFailure <==> !reply.success && reply.errors.None?
    ensures r.ShowErrors? <==> !reply.success && reply.errors.Some?
    ensures r.ShowErrors? ==>
      r.errors.Keys <= {Email} &&
      (Email in r.errors <==> Truthy(reply.errors.value.email)) &&
      (Email in r.errors ==> r.errors[Email] == reply.errors.value.email.value)
  {
    if !reply.success then
      match reply.errors
      case None => LogFailure
      case Some(errs) =>
        ShowErrors(if Truthy(errs.email) then map[Email := errs.email.value] else map[])
    else
      SubmitForm
  }

  /** One submission: the checks, then, only when they found nothing, the
      server's reply. */
  function Handle(raw: RegisterForm, reply: Reply): (r: Reaction)
    ensures r == SubmitForm <==> Check(raw).errors == map[] && reply.success
    ensures Check(raw).errors != map[] ==> r == ShowErrors(Check(raw).errors)
    ensures Check(raw).errors == map[] ==> r == React(reply)
  {
    var v := Check(raw);
    if v.request.None? then ShowErrors(v.errors) else React(reply)
  }

  /** The checks see only trimmed values: adding white space around any
      field changes nothing. */
  lemma PaddingIgnored(raw: RegisterForm, padded: RegisterForm)
    requires Text.PaddedBy(padded.nombre, raw.nombre)
    requires Text.PaddedBy(padded.apellido, raw.apellido)
    requires Text.PaddedBy(padded.email, raw.email)
    requires Text.PaddedBy(padded.password, raw.password)
    requires Text.PaddedBy(padded.confirmPassword, raw.confirmPassword)
    ensures Check(padded) == Check(raw)
  {
    Text.TrimPadded(padded.nombre, raw.nombre);
    Text.TrimPadded(padded.apellido, raw.apellido);
    Text.TrimPadded(padded.email, raw.email);
    Text.TrimPadded(padded.password, raw.password);
    Text.TrimPadded(padded.confirmPassword, raw.confirmPassword);
  }

  /** What the page does after a submission does not depend on white space
      around the fields either, whatever the server replies. */
  lemma HandlePaddingIgnored(raw: RegisterForm, padded: RegisterForm, reply: Reply)
    requires Text.PaddedBy(padded.nombre, raw.nombre)
    requires Text.PaddedBy(padded.apellido, raw.apellido)
    requires Text.PaddedBy(padded.email, raw.email)
    requires Text.PaddedBy(padded.password, raw.password)
    requires Text.PaddedBy(padded.confirmPassword, raw.confirmPassword)
    ensures Handle(padded, reply) == Handle(raw, reply)
  {
    PaddingIgnored(raw, padded);
  }

  /** An empty password gets the length message, not a "required" one, and
      if the confirmation is not empty as well, the mismatch message too. */
  lemma EmptyPasswordMessages(raw: RegisterForm)
    requires Text.Trim(raw.password) == []
    ensures Check(raw).errors[Password] == PasswordTooShort
    ensures ConfirmPassword in Check(raw).errors <==> Text.Trim(raw.confirmPassword) != []
  {
  }

  /** A short password that also differs from its confirmation gets both
      password messages at once, and no request is sent: an instance of
      `Validate`'s independent `Password` and `ConfirmPassword` clauses and
      of its request-iff-no-message clause. */
  lemma BothPasswordMessages()
    ensures var v := Validate(RegisterForm("Ana", "Diaz", "a@b.com", "abc", "abd"));
      v.errors == map[Password := PasswordTooShort, ConfirmPassword := PasswordsDiffer] &&
      v.request.None?
  {
    assert EmailFormat.MatchAt("a@b.com", 0, 1, 3, 7);
    var v := Validate(RegisterForm("Ana", "Diaz", "a@b.com", "abc", "abd"));
    forall g: Field ensures g in v.errors <==> g == Password || g == ConfirmPassword {
      match g
      case Nombre =>
      case Apellido =>
      case Email =>
      case Password =>
      case ConfirmPassword =>
    }
  }

  /** A well-formed registration is sent on as `check_register` with its
      e-mail: an instance of `Validate`'s five "iff" clauses all being false
      and of its request clauses. */
  lemma CleanFormAsksServer()
    ensures Validate(RegisterForm("Ana", "Diaz", "a@b.com", "secret1", "secret1"))
      == Verdict(map[], Some(CheckRegister("a@b.com")))
  {
    assert EmailFormat.MatchAt("a@b.com", 0, 1, 3, 7);
    var v := Validate(RegisterForm("Ana", "Diaz", "a@b.com", "secret1", "secret1"));
    forall g: Field ensures g !in v.errors {
      match g
      case Nombre =>
      case Apellido =>
      case Email =>
      case Password =>
      case ConfirmPassword =>
    }
  }
}
