/**
 * The sign-in page: the email checked as on sign-up, the password only for presence, and any
 * refusal from the server shown under the email field.
 */
module LoginPage {
  import opened Wrappers
  import opened Text
  import opened FormErrors
  import opened ApiClient

  datatype LoginForm = LoginForm(email: string, password: string)

  datatype Field = Email | Password

  function Key(field: Field): string {
    match field
    case Email => "email"
    case Password => "password"
  }

  const FieldKeys: set<string> := {"email", "password"}

  /** The password is only required: any non-empty text passes, whatever its length. */
  function PasswordError(password: string): (r: Option<string>)
    ensures r.None? <==> password != ""
    ensures r.Some? ==> r.value == PasswordRequired
  {
    if password == "" then Some(PasswordRequired) else None
  }

  /** `validateForm`'s `newErrors`. */
  function LoginErrors(f: LoginForm): (r: Errors)
    ensures r.Keys <= FieldKeys
    ensures ErrorAt(r, "email") == EmailError(f.email)
    ensures ErrorAt(r, "password") == PasswordError(f.password)
  {
    WithError(WithError(map[], "email", EmailError(f.email)), "password", PasswordError(f.password))
  }

  /** The sign-ins the page lets through, stated with the email pattern itself. */
  ghost predicate AcceptableLogin(f: LoginForm) {
    MatchesEmailPattern(f.email) && f.password != ""
  }

  /** The form has no error exactly when it is an acceptable sign-in. */
  lemma {:induction false} LoginErrorsEmptyIff(f: LoginForm)
    ensures LoginErrors(f) == map[] <==> AcceptableLogin(f)
  {
    var r := LoginErrors(f);
    EmailErrorIffPattern(f.email);
    if AcceptableLogin(f) {
      assert "email" !in r && "password" !in r;
      assert r.Keys == {};
    } else {
      assert ErrorAt(r, "email").Some? || ErrorAt(r, "password").Some?;
    }
  }

  function WithField(f: LoginForm, field: Field, text: string): (r: LoginForm)
    ensures field == Email ==> r == f.(email := text)
    ensures field == Password ==> r == f.(password := text)
  {
    match field
    case Email => f.(email := text)
    case Password => f.(password := text)
  }

  /** The errors once `auth.login` has settled: any `ApiError` is shown under the email field. */
  function ErrorsAfterReply(reply: AuthReply): (r: Errors)
    ensures reply.Refused? ==> r.Keys == {"email"} && r["email"] == reply.error.message
    ensures !reply.Refused? ==> r == map[]
  {
    if reply.Refused? then map["email" := reply.error.message] else map[]
  }

  class Page {
    var formData: LoginForm
    var errors: Errors

    constructor ()
      ensures formData == LoginForm("", "") && errors == map[]
    {
      formData := LoginForm("", "");
      errors := map[];
    }

    /** `validateForm`: the email's message, then the password's, stored; valid when none. */
    method Validate() returns (valid: bool)
      modifies this`errors
      ensures errors == LoginErrors(formData)
      ensures valid <==> errors == map[]
    {
      var f := formData;
      var newErrors: Errors := map[];
      newErrors := WithError(newErrors, "email", EmailError(f.email));
      newErrors := WithError(newErrors, "password", PasswordError(f.password));
      assert newErrors == LoginErrors(f);
      errors := newErrors;
      valid := newErrors == map[];
    }

    /**
     * `handleSubmit`, given how `auth.login` settles: an invalid form sends nothing; a token is
     * stored and the browser sent to "/"; an `ApiError` replaces the errors by its message under
     * the email field; any other failure leaves the page without errors.
     */
    method Submit(reply: AuthReply) returns (request: Option<(string, string)>, token: Option<string>, navigateTo: Option<string>)
      modifies this`errors
      ensures request.None? <==> LoginErrors(formData) != map[]
      ensures request.None? ==> errors == LoginErrors(formData)
      ensures request.Some? ==>
        request.value == (formData.email, formData.password) && errors == ErrorsAfterReply(reply)
      ensures token == if request.Some? && reply.Signed? then Some(reply.token) else None
      ensures navigateTo == if token.Some? then Some("/") else None
    {
      var valid := Validate();
      if !valid {
        return None, None, None;
      }
      request := Some((formData.email, formData.password));
      token, navigateTo := None, None;
      match reply
      case Signed(t) =>
        token, navigateTo := Some(t), Some("/");
      case Refused(e) =>
        errors := map["email" := e.message];
      case Broken =>
    }

    /** `handleChange`: the field takes the text and its message, if shown, is cleared. */
    method Change(field: Field, text: string)
      modifies this`formData, this`errors
      ensures formData == WithField(old(formData), field, text)
      ensures !Shows(errors, Key(field))
      ensures forall k :: k != Key(field) ==> ErrorAt(errors, k) == ErrorAt(old(errors), k)
    {
      formData := WithField(formData, field, text);
      errors := ClearOnChange(errors, Key(field));
    }
  }
}

/** Sign-in from the service to the page. */
module LoginFlow {
  import opened Wrappers
  import opened Exceptions
  import opened ApiClient
  import ControllerWrapper
  import AuthService
  import LoginPage

  /** A wrong password or an unknown email shows "Invalid credentials" under the email field. */
  lemma InvalidCredentialsShownUnderEmail()
    ensures var reply := ControllerWrapper.Wrap(
              ControllerWrapper.Raised(ControllerWrapper.Lift(AuthService.InvalidCredentials)),
              ControllerWrapper.DefaultFallback).value;
      LoginPage.ErrorsAfterReply(Refused(ErrorFromResponse(reply.status, Some(reply.body))))
        == map["email" := "Invalid credentials"]
  {
    LiftErrorReachesClient(AuthService.InvalidCredentials, ControllerWrapper.DefaultFallback);
  }
}
