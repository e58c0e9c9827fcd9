/**
 * The frontend's `api` helper, on a failed response: it reads the JSON body (a body that does not
 * parse counts as `{error: "Request failed"}`) and throws an `ApiError` with the status, the
 * body's message and the field it names.
 */
module ApiClient {
  import opened Wrappers
  import opened Exceptions
  import ControllerWrapper

  datatype ApiError = ApiError(status: int, message: string, field: Option<string>)

  const RequestFailed: string := "Request failed"

  /**
   * What `auth.login` and `auth.register` settle to: the session token, an `ApiError` for a
   * failed response, or some other exception (the network failed, the body was not JSON).
   */
  datatype AuthReply = Signed(token: string) | Refused(error: ApiError) | Broken

  /** A member of a parsed body; None when the body did not parse or lacks the member. */
  function Member(body: Option<map<string, string>>, name: string): (r: Option<string>)
    ensures r.Some? <==> body.Some? && name in body.value
    ensures r.Some? ==> r.value == body.value[name]
  {
    if body.Some? && name in body.value then Some(body.value[name]) else None
  }

  /** `error.error || "Request failed"`: an absent or empty message is replaced. */
  function MessageOf(body: Option<map<string, string>>): (r: string)
    ensures r != ""
    ensures Member(body, "error").Some? && Member(body, "error").value != "" ==>
      r == body.value["error"]
    ensures Member(body, "error") == None || Member(body, "error") == Some("") ==> r == RequestFailed
  {
    var m := Member(body, "error");
    if m.Some? && m.value != "" then m.value else RequestFailed
  }

  /** The error as written: the field is taken from the body's `field` member. */
  function ErrorFromResponseAsWritten(status: int, body: Option<map<string, string>>): (r: ApiError)
    ensures r.status == status && r.message == MessageOf(body)
    ensures r.field.Some? <==> body.Some? && "field" in body.value
    ensures r.field.Some? ==> r.field.value == body.value["field"]
  {
    ApiError(status, MessageOf(body), Member(body, "field"))
  }

  /** The error as intended: the field is the `key` member, which is what the backend sends. */
  function ErrorFromResponse(status: int, body: Option<map<string, string>>): (r: ApiError)
    ensures r.status == status && r.message == MessageOf(body)
    ensures r.field.Some? <==> body.Some? && "key" in body.value
    ensures r.field.Some? ==> r.field.value == body.value["key"]
  {
    ApiError(status, MessageOf(body), Member(body, "key"))
  }

  /** As written, no reply of the backend's wrapper ever yields an error with a field. */
  lemma FieldLostAsWritten(outcome: ControllerWrapper.Outcome, fallback: string)
    requires outcome.Raised?
    ensures var reply := ControllerWrapper.Wrap(outcome, fallback).value;
      ErrorFromResponseAsWritten(reply.status, Some(reply.body)).field == None
  {
    var reply := ControllerWrapper.Wrap(outcome, fallback).value;
    assert "field" !in ControllerWrapper.BodyKeys;
    assert "field" !in reply.body;
  }

  /**
   * Reading `key`, a `LiftError` reaches the client with its status, its key as the field, and
   * its message unless that is empty.
   */
  lemma LiftErrorReachesClient(e: LiftError, fallback: string)
    ensures var reply := ControllerWrapper.Wrap(ControllerWrapper.Raised(ControllerWrapper.Lift(e)), fallback).value;
      ErrorFromResponse(reply.status, Some(reply.body))
        == ApiError(e.code, if e.message != "" then e.message else RequestFailed, e.key)
  {
  }

  /** An unexpected server failure reaches the client with no field and the fallback message. */
  lemma OtherFailureReachesClient(detail: string, fallback: string)
    requires fallback != ""
    ensures var reply := ControllerWrapper.Wrap(ControllerWrapper.Raised(ControllerWrapper.Other(detail)), fallback).value;
      ErrorFromResponse(reply.status, Some(reply.body)) == ApiError(500, fallback, None)
  {
  }
}
