/**
 * The single translation point from a thrown error to an HTTP reply
 * (src/presentation/middlewares/errorHandler.ts). Logging to the console is
 * left out.
 */
module ErrorHandler {
  import opened Errors

  datatype ErrorBody = ErrorBody(error: string)
  datatype Reply = Reply(status: int, body: ErrorBody)

  const InternalMessage := "Erro interno do servidor."

  function HandleError(err: Thrown): (r: Reply)
    ensures err.App? ==> r == Reply(err.error.statusCode, ErrorBody(err.error.message))
    ensures err.Internal? ==> r == Reply(500, ErrorBody(InternalMessage))
  {
    match err
    case App(e) => Reply(e.statusCode, ErrorBody(e.message))
    case Internal(_) => Reply(500, ErrorBody(InternalMessage))
  }

  /** The typed errors reach the client as 400, 401, 403 and 404, message intact. */
  lemma TypedErrorReplies(m: string)
    ensures HandleError(App(ValidationError(m))) == Reply(400, ErrorBody(m))
    ensures HandleError(App(AuthenticationError(m))) == Reply(401, ErrorBody(m))
    ensures HandleError(App(ForbiddenError(m))) == Reply(403, ErrorBody(m))
    ensures HandleError(App(NotFoundError(m))) == Reply(404, ErrorBody(m))
  {
  }

  /** Whatever an unclassified failure says, the reply does not repeat it. */
  lemma InternalDetailNotLeaked(m: string)
    requires m != InternalMessage
    ensures HandleError(Internal(m)).status == 500
    ensures HandleError(Internal(m)).body.error != m
  {
  }
}
