/**
 * The sign-up page: four fields checked in a fixed order, a message per faulty field, the
 * account request sent only when no field is faulty, and the server's objection shown under the
 * field it names.
 */
module RegisterPage {
  import opened Wrappers
  import opened Text
  import opened FormErrors
  import opened ApiClient

  const UsernameMin: nat := 3
  const PasswordMin: nat := 8

  const UsernameRequired: string := "Username is required"
  const UsernameTooShort: string := "Username must be at least 3 characters"
  const PasswordTooShort: string := "Password must be at least 8 characters"
  const ConfirmRequired: string := "Please confirm your password"
  const PasswordsDiffer: string := "Passwords do not match"

  datatype RegisterForm = RegisterForm(username: string, email: string, password: string, confirmPassword: string)

  datatype Field = Username | Email | Password | ConfirmPassword

  /** The name a field has in the form data and in the errors. */
  function Key(field: Field): (r: string)
    ensures r in FieldKeys
  {
    match field
    case Username => "username"
    case Email => "email"
    case Password => "password"
    case ConfirmPassword => "confirmPassword"
  }

  const FieldKeys: set<string> := {"username", "email", "password", "confirmPassword"}

  /**
   * The username must not be blank; its `.length`, spaces included and counted in UTF-16 code
   * units, must then be at least 3.
   */
  function UsernameError(username: string): (r: Option<string>)
    ensures r == Some(UsernameRequired) <==> IsBlank(username)
    ensures r == Some(UsernameTooShort) <==> !IsBlank(username) && Utf16Length(username) < UsernameMin
    ensures r.None? <==> !IsBlank(username) && Utf16Length(username) >= UsernameMin
  {
    if IsBlank(username) then Some(UsernameRequired)
    else if Utf16Length(username) < UsernameMin then Some(UsernameTooShort)
    else None
  }

  /**
   * The password must be present, then have a `.length` (UTF-16 code units) of at least 8; it
   * is not trimmed.
   */
  function PasswordError(password: string): (r: Option<string>)
    ensures r == Some(PasswordRequired) <==> password == ""
    ensures r == Some(PasswordTooShort) <==> 0 < Utf16Length(password) < PasswordMin
    ensures r.None? <==> Utf16Length(password) >= PasswordMin
  {
    if password == "" then Some(PasswordRequired)
    else if Utf16Length(password) < PasswordMin then Some(PasswordTooShort)
    else None
  }

  /**
   * Lengths are `.length`s: four emoji make an 8-unit password and two make a 4-unit username,
   * both long enough, while three letters are needed for a username.
   */
  lemma AstralCharactersCountTwice()
    ensures PasswordError("\U{1F600}\U{1F600}\U{1F600}\U{1F600}") == None
    ensures UsernameError("\U{1F600}\U{1F600}") == None
    ensures UsernameError("ab") == Some(UsernameTooShort)
  {
    assert Utf16Length("\U{1F600}\U{1F600}\U{1F600}\U{1F600}") == 8 by {
      var s := "\U{1F600}\U{1F600}\U{1F600}\U{1F600}";
      assert s[1..][1..][1..][1..] == [];
    }
    var u := "\U{1F600}\U{1F600}";
    assert Utf16Length(u) == 4 by {
      assert u[1..][1..] == [];
    }
    assert !IsBlank(u) by {
      assert !IsJsSpace(u[0]);
    }
    var a := "ab";
    assert Utf16Length(a) == 2 by {
      assert a[1..][1..] == [];
    }
    assert !IsBlank(a) by {
      assert !IsJsSpace(a[0]);
    }
  }

  /** The confirmation must be present, then equal to the password. */
  function ConfirmError(password: string, confirmPassword: string): (r: Option<string>)
    ensures r == Some(ConfirmRequired) <==> confirmPassword == ""
    ensures r == Some(PasswordsDiffer) <==> confirmPassword != "" && confirmPassword != password
    ensures r.None? <==> confirmPassword != "" && confirmPassword == password
  {
    if confirmPassword == "" then Some(ConfirmRequired)
    else if password != confirmPassword then Some(PasswordsDiffer)
    else None
  }

  /** `validateForm`'s `newErrors`: each field's message, if it has one, and no other entry. */
  function RegisterErrors(f: RegisterForm): (r: Errors)
    ensures r.Keys <= FieldKeys
    ensures ErrorAt(r, "username") == UsernameError(f.username)
    ensures ErrorAt(r, "email") == EmailError(f.email)
    ensures ErrorAt(r, "password") == PasswordError(f.password)
    ensures ErrorAt(r, "confirmPassword") == ConfirmError(f.password, f.confirmPassword)
  {
    var withUsername := WithError(map[], "username", UsernameError(f.username));
    var withEmail := WithError(withUsername, "email", EmailError(f.email));
    var withPassword := WithError(withEmail, "password", PasswordError(f.password));
    WithError(withPassword, "confirmPassword", ConfirmError(f.password, f.confirmPassword))
  }

  /** The registrations the page lets through, stated with the email pattern itself. */
  ghost predicate AcceptableRegistration(f: RegisterForm) {
    && !IsBlank(f.username) && Utf16Length(f.username) >= UsernameMin
    && MatchesEmailPattern(f.email)
    && Utf16Length(f.password) >= PasswordMin
    && f.confirmPassword == f.password
  }

  /** The form has no error exactly when it is an acceptable registration. */
  lemma {:induction false} RegisterErrorsEmptyIff(f: RegisterForm)
    ensures RegisterErrors(f) == map[] <==> AcceptableRegistration(f)
  {
    var r := RegisterErrors(f);
    EmailErrorIffPattern(f.email);
    if AcceptableRegistration(f) {
      assert "username" !in r && "email" !in r && "password" !in r && "confirmPassword" !in r;
      assert r.Keys == {};
    } else {
      assert ErrorAt(r, "username").Some? || ErrorAt(r, "email").Some?
        || ErrorAt(r, "password").Some? || ErrorAt(r, "confirmPassword").Some?;
    }
  }

  /** `{...prev, [field]: value}`. */
  function WithField(f: RegisterForm, field: Field, text: string): (r: RegisterForm)
    ensures field == Username ==> r == f.(username := text)
    ensures field == Email ==> r == f.(email := text)
    ensures field == Password ==> r == f.(password := text)
    ensures field == ConfirmPassword ==> r == f.(confirmPassword := text)
  {
    match field
    case Username => f.(username := text)
    case Email => f.(email := text)
    case Password => f.(password := text)
    case ConfirmPassword => f.(confirmPassword := text)
  }

  /** What `auth.register` is called with: the confirmation stays on the page. */
  datatype RegisterRequest = RegisterRequest(username: string, email: string, password: string)

  /**
   * The errors after a refusal: `{[field]: message}` when the error names a field (a non-empty
   * one), otherwise the errors the successful validation left, which are none.
   */
  function ErrorsAfterRefusal(e: ApiError): (r: Errors)
    ensures e.field.Some? && e.field.value != "" ==> r.Keys == {e.field.value} && r[e.field.value] == e.message
    ensures e.field.None? || e.field.value == "" ==> r == map[]
  {
    if e.field.Some? && e.field.value != "" then map[e.field.value := e.message] else map[]
  }

  /** The errors once `auth.register` has settled, after a validation that found none. */
  function ErrorsAfterReply(reply: AuthReply): (r: Errors)
    ensures reply.Refused? ==> r == ErrorsAfterRefusal(reply.error)
    ensures !reply.Refused? ==> r == map[]
  {
    if reply.Refused? then ErrorsAfterRefusal(reply.error) else map[]
  }

  class Page {
    var formData: RegisterForm
    var errors: Errors

    constructor ()
      ensures formData == RegisterForm("", "", "", "") && errors == map[]
    {
      formData := RegisterForm("", "", "", "");
      errors := map[];
    }

    /**
     * `validateForm`: `newErrors` gets each field's message, field by field in the page's order,
     * is stored, and the form is valid when it has no entry.
     */
    method Validate() returns (valid: bool)
      modifies this`errors
      ensures errors == RegisterErrors(formData)
      ensures valid <==> errors == map[]
    {
      var f := formData;
      var newErrors: Errors := map[];
      newErrors := WithError(newErrors, "username", UsernameError(f.username));
      newErrors := WithError(newErrors, "email", EmailError(f.email));
      newErrors := WithError(newErrors, "password", PasswordError(f.password));
      newErrors := WithError(newErrors, "confirmPassword", ConfirmError(f.password, f.confirmPassword));
      assert newErrors == RegisterErrors(f);
      errors := newErrors;
      valid := newErrors == map[];
    }

    /**
     * `handleSubmit`, given how `auth.register` settles: an invalid form sends nothing. A token
     * is stored (`token`) and the browser sent to "/"; a refusal naming a field shows its message
     * under that field alone; any other failure leaves the page without errors.
     */
    method Submit(reply: AuthReply) returns (request: Option<RegisterRequest>, token: Option<string>, navigateTo: Option<string>)
      modifies this`errors
      ensures request.None? <==> RegisterErrors(formData) != map[]
      ensures request.None? ==> errors == RegisterErrors(formData)
      ensures request.Some? ==>
        && request.value == RegisterRequest(formData.username, formData.email, formData.password)
        && errors == ErrorsAfterReply(reply)
      ensures token == if request.Some? && reply.Signed? then Some(reply.token) else None
      ensures navigateTo == if token.Some? then Some("/") else None
    {
      var valid := Validate();
      if !valid {
        return None, None, None;
      }
      request := Some(RegisterRequest(formData.username, formData.email, formData.password));
      token, navigateTo := None, None;
      match reply
      case Signed(t) =>
        token, navigateTo := Some(t), Some("/");
      case Refused(e) =>
        if e.field.Some? && e.field.value != "" {
          errors := map[e.field.value := e.message];
        }
      case Broken =>
    }

    /** `handleChange`: the field takes the text and its message, if shown, is cleared. */
    method Change(field: Field, text: string)
      modifies this`formData, this`errors
      ensures formData == WithField(old(formData), field, text)
      ensures !Shows(errors, Key(field))
      ensures forall k :: k != Key(field) ==> ErrorAt(errors, k) == ErrorAt(old(errors), k)
    {
      formData := WithField(formData, field, text);
      errors := ClearOnChange(errors, Key(field));
    }
  }
}

/**
 * Sign-up from the service to the page: the service's objection to a taken email, sent by the
 * controller wrapper, read by the API client and shown by the page.
 */
module RegisterFlow {
  import opened Wrappers
  import opened ApiClient
  import ControllerWrapper
  import AuthService
  import opened Exceptions
  import RegisterPage

  /** The API error the client makes of a refused registration, reading the field as written. */
  function RefusalAsWritten(e: LiftError): ApiError {
    var reply := ControllerWrapper.Wrap(ControllerWrapper.Raised(ControllerWrapper.Lift(e)),
                                        ControllerWrapper.DefaultFallback).value;
    ErrorFromResponseAsWritten(reply.status, Some(reply.body))
  }

  /** The same, reading the `key` member the backend sends. */
  function Refusal(e: LiftError): ApiError {
    var reply := ControllerWrapper.Wrap(ControllerWrapper.Raised(ControllerWrapper.Lift(e)),
                                        ControllerWrapper.DefaultFallback).value;
    ErrorFromResponse(reply.status, Some(reply.body))
  }

  /** As written, registering a taken email leaves the page without any message. */
  lemma TakenEmailHiddenAsWritten()
    ensures RegisterPage.ErrorsAfterRefusal(RefusalAsWritten(AuthService.EmailAlreadyRegistered)) == map[]
  {
    FieldLostAsWritten(ControllerWrapper.Raised(ControllerWrapper.Lift(AuthService.EmailAlreadyRegistered)),
                       ControllerWrapper.DefaultFallback);
  }

  /** Reading `key`, the message appears under the email field, and under no other. */
  lemma TakenEmailShown()
    ensures RegisterPage.ErrorsAfterRefusal(Refusal(AuthService.EmailAlreadyRegistered))
      == map["email" := "Email already registered"]
  {
    LiftErrorReachesClient(AuthService.EmailAlreadyRegistered, ControllerWrapper.DefaultFallback);
  }

  /** Reading `key`, a taken username is shown under the username field. */
  lemma TakenUsernameShown()
    ensures RegisterPage.ErrorsAfterRefusal(Refusal(AuthService.UsernameAlreadyTaken))
      == map["username" := "Username already taken"]
  {
    LiftErrorReachesClient(AuthService.UsernameAlreadyTaken, ControllerWrapper.DefaultFallback);
  }
}
