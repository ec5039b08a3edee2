/** The last middleware (server/src/middleware/errorHandler.js): turns an error
    into the JSON error envelope. */
module ErrorHandler {
  import opened Common

  /** A thrown error: `statusCode` 0 stands for a missing (or zero) status, and the
      empty `message` for a missing one. */
  datatype AppError = AppError(statusCode: int, message: string)

  /** Either the error is handed on to Express's default handler (`next(err)`), or
      a response is written. */
  datatype ErrorResponse = Delegate | Respond(status: int, success: bool, message: string)

  function HandleError(err: AppError, headersSent: bool): (r: ErrorResponse)
    ensures headersSent <==> r == Delegate
    ensures r.Respond? ==> !r.success && r.status != 0 && r.message != ""
    ensures r.Respond? && err.statusCode == 0 ==> r.status == 500
    ensures r.Respond? && err.message == "" ==> r.message == "Internal Server Error"
  {
    if headersSent then Delegate
    else Respond(if err.statusCode != 0 then err.statusCode else 500, false,
                 if err.message != "" then err.message else "Internal Server Error")
  }

  /** A handler's failure reply, thrown as an error with its status and message,
      reaches the client unchanged. */
  lemma FailureReachesClient<T>(reply: Reply<T>)
    requires reply.Failure? && reply.code != 0 && reply.message != ""
    ensures HandleError(AppError(reply.code, reply.message), false) == Respond(reply.code, false, reply.message)
  {
  }
}
