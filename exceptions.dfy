/** The backend's own error: a message, the HTTP status to answer with, and optionally the request field at fault. */
module Exceptions {
  import opened Wrappers

  datatype LiftError = LiftError(message: string, code: int, key: Option<string>)
}
