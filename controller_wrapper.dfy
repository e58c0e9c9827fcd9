/**
 * `controllerWrapper`: runs a route handler and turns what it threw into the reply sent to the
 * client. A `LiftError` is answered with its own status, message and key; anything else with 500
 * and a fixed message, so nothing about the failure leaks.
 */
module ControllerWrapper {
  import opened Wrappers
  import opened Exceptions
  import Constants

  /** What the wrapped handler threw, when it threw. */
  datatype Thrown = Lift(error: LiftError) | Other(detail: string)

  /** How the wrapped handler ended. */
  datatype Outcome = Completed | Raised(thrown: Thrown)

  /** A reply: the status and the JSON body, whose `undefined` members are not serialised. */
  datatype Reply = Reply(status: int, body: map<string, string>)

  const DefaultFallback: string := "Internal server error"

  /** The keys a reply body may have. */
  const BodyKeys: set<string> := {"error", "key"}

  /**
   * The wrapper's own reply, or None when the handler completed and so has answered for itself.
   * Every reply the wrapper sends carries an `error` message and nothing beyond `error` and `key`.
   */
  function Wrap(outcome: Outcome, fallback: string): (r: Option<Reply>)
    ensures r.None? <==> outcome.Completed?
    ensures r.Some? ==> "error" in r.value.body && r.value.body.Keys <= BodyKeys
    ensures outcome.Raised? && outcome.thrown.Lift? ==>
      var e := outcome.thrown.error;
      && r.value.status == e.code && r.value.body["error"] == e.message
      && ("key" in r.value.body <==> e.key.Some?)
      && (e.key.Some? ==> r.value.body["key"] == e.key.value)
    ensures outcome.Raised? && outcome.thrown.Other? ==>
      r.value.status == Constants.InternalServerError && r.value.body.Keys == {"error"}
      && r.value.body["error"] == fallback
  {
    match outcome
    case Completed => None
    case Raised(Lift(e)) =>
      var body := map["error" := e.message];
      Some(Reply(e.code, if e.key.Some? then body["key" := e.key.value] else body))
    case Raised(Other(_)) =>
      Some(Reply(Constants.InternalServerError, map["error" := fallback]))
  }

  /** Two unexpected failures are answered identically, whatever they were. */
  lemma OtherFailuresLookAlike(first: string, second: string, fallback: string)
    ensures Wrap(Raised(Other(first)), fallback) == Wrap(Raised(Other(second)), fallback)
  {
  }

  /** A `LiftError` can be read back whole from the reply it becomes. */
  lemma LiftErrorRecoverable(e: LiftError, fallback: string)
    ensures var reply := Wrap(Raised(Lift(e)), fallback).value;
      LiftError(reply.body["error"], reply.status,
                if "key" in reply.body then Some(reply.body["key"]) else None) == e
  {
  }
}
