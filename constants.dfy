/** The HTTP status codes the backend answers with. */
module Constants {
  const BadRequest: int := 400
  const Unauthorized: int := 401
  const NotFound: int := 404
  const InternalServerError: int := 500
}
