/**
 * What the register and login pages share: the map from field name to the message shown under
 * that field, the email rules, and how editing a field clears its message.
 */
module FormErrors {
  import opened Wrappers
  import opened Text

  /** `FormErrors`: at most one message per field; a field without a message has no entry. */
  type Errors = map<string, string>

  const EmailRequired: string := "Email is required"
  const EmailInvalid: string := "Please enter a valid email address"
  const PasswordRequired: string := "Password is required"

  /** The message shown under `field`, if any. */
  function ErrorAt(errors: Errors, field: string): (r: Option<string>)
    ensures r.Some? <==> field in errors
    ensures r.Some? ==> r.value == errors[field]
  {
    if field in errors then Some(errors[field]) else None
  }

  /** `errors[field]` is truthy: a non-empty message is shown. */
  predicate Shows(errors: Errors, field: string) {
    field in errors && errors[field] != ""
  }

  /** `newErrors.field = message` when the check produced one. */
  function WithError(errors: Errors, field: string, error: Option<string>): (r: Errors)
    ensures ErrorAt(r, field) == if error.Some? then error else ErrorAt(errors, field)
    ensures forall k :: k != field ==> ErrorAt(r, k) == ErrorAt(errors, k)
    ensures r.Keys == errors.Keys + (if error.Some? then {field} else {})
  {
    if error.Some? then errors[field := error.value] else errors
  }

  /** The email check both pages make: present after trimming, then shaped like an address. */
  function EmailError(email: string): (r: Option<string>)
    ensures r == Some(EmailRequired) <==> IsBlank(email)
    ensures r == Some(EmailInvalid) <==> !IsBlank(email) && !IsEmailShaped(email)
    ensures r.None? <==> IsEmailShaped(email)
  {
    if IsBlank(email) then Some(EmailRequired)
    else if !IsEmailShaped(email) then Some(EmailInvalid)
    else
      EmailShapedNotBlank(email);
      None
  }

  /** An address has no email error exactly when it matches `^[^\s@]+@[^\s@]+\.[^\s@]+$`. */
  lemma EmailErrorIffPattern(email: string)
    ensures EmailError(email).None? <==> MatchesEmailPattern(email)
  {
    EmailShapedIffPattern(email);
  }

  /**
   * `handleChange`'s error update: a message shown under the edited field is cleared; every
   * other field keeps its message.
   */
  function ClearOnChange(errors: Errors, field: string): (r: Errors)
    ensures !Shows(r, field)
    ensures forall k :: k != field ==> ErrorAt(r, k) == ErrorAt(errors, k)
    ensures !Shows(errors, field) ==> r == errors
  {
    if Shows(errors, field) then errors - {field} else errors
  }
}
