/** How the two pages read the same kind of failed reply.

    Both handlers test `result.success` and then look at `result.errors.email`
    the same way; they differ only in what success leads to (submitting the
    registration form, or following the login reply's `redirect_url`) and in
    the login page also showing `result.errors.password`.
 */
module Replies {
  import opened Forms
  import RegisterValidation
  import LoginValidation

  /** For every reply: both pages succeed together, log together, and show
      the server's e-mail message under the same condition and with the same
      text; only the login page ever shows a password message. */
  lemma ReactionsAgree(reply: Reply)
    ensures RegisterValidation.React(reply) == SubmitForm <==>
      LoginValidation.React(reply) == Redirect(reply.redirectUrl)
    ensures RegisterValidation.React(reply) == LogFailure <==>
      LoginValidation.React(reply) == LogFailure
    ensures RegisterValidation.React(reply).ShowErrors? <==>
      LoginValidation.React(reply).ShowErrors?
    ensures RegisterValidation.React(reply).ShowErrors? ==>
      var reg := RegisterValidation.React(reply).errors;
      var log := LoginValidation.React(reply).errors;
      (Email in reg <==> Email in log) &&
      (Email in reg ==> reg[Email] == log[Email]) &&
      reg == log - {Password}
  {
  }
}
