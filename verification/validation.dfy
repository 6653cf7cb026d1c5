/**
 * The checks the create actions run on a submitted form before they touch a
 * collection. Each check yields the message it would store under its field
 * (`None` when the field passes); each action's error map holds the message
 * of every field whose check failed.
 */
module Validation {
  import opened Base
  import opened Text
  import opened Records

  /** The form-level message every create action returns with its field errors. */
  const FixErrors := "Please fix the errors below"

  /** `errors[field] = problem` when the check on `field` found one; the errors so far otherwise. */
  function Noted(errors: map<string, string>, field: string, problem: Option<string>): map<string, string> {
    if problem.Some? then errors[field := problem.value] else errors
  }

  /** `if (!value) errors.key = message` on the trimmed field. */
  function Required(form: Form, key: string, message: string): (problem: Option<string>)
    ensures problem.Some? <==> Missing(form, key)
    ensures problem.Some? ==> problem.value == message
  {
    if Missing(form, key) then Some(message) else None
  }

  /**
   * The email check: a missing or blank email is required; a present one must
   * match `^[^\s@]+@[^\s@]+\.[^\s@]+$` after trimming.
   */
  function EmailProblem(form: Form): (problem: Option<string>)
    ensures problem.None? <==> !Missing(form, "email") && MatchesEmailPattern(Trimmed(form, "email"))
    ensures Missing(form, "email") ==> problem == Some("Email is required")
    ensures !Missing(form, "email") && !MatchesEmailPattern(Trimmed(form, "email")) ==>
      problem == Some("Please enter a valid email address")
  {
    var email := Trimmed(form, "email");
    EmailCheckMatchesPattern(email);
    MissingTrimmed(form, "email");
    if email == "" then Some("Email is required")
    else if !ValidEmail(email) then Some("Please enter a valid email address")
    else None
  }

  /**
   * `if (s) { n = parseInt(s); if (isNaN(n) || n < lo || n > hi) errors.key = message }`:
   * a field that is given must parse to an integer in `lo..hi`.
   */
  function IntRange(form: Form, key: string, lo: int, hi: int, message: string): (problem: Option<string>)
    ensures problem.Some? <==> Given(form, key) && !(ParseInt(form[key]).Some? && lo <= ParseInt(form[key]).value <= hi)
    ensures problem.Some? ==> problem.value == message
  {
    if !Given(form, key) then None
    else
      match ParseInt(form[key])
      case None => Some(message)
      case Some(n) => if n < lo || n > hi then Some(message) else None
  }

  /**
   * The same for `parseFloat`, whose result the caller supplies; `hi` is
   * `None` where the action checks only the lower bound.
   */
  function RealRange(form: Form, key: string, parseFloat: string -> Option<real>, lo: real, hi: Option<real>, message: string): (problem: Option<string>)
    ensures problem.Some? <==> (Given(form, key) &&
      !(parseFloat(form[key]).Some? && lo <= parseFloat(form[key]).value && (hi.None? || parseFloat(form[key]).value <= hi.value)))
    ensures problem.Some? ==> problem.value == message
  {
    if !Given(form, key) then None
    else
      match parseFloat(form[key])
      case None => Some(message)
      case Some(x) => if x < lo || (hi.Some? && x > hi.value) then Some(message) else None
  }
}
