/** Values shared by every layer: an optional value, and the HTTP reply envelope
    `{ success, data | message }` that every handler sends with its status code. */
module Common {

  datatype Option<+T> = None | Some(value: T) {
    function GetOr(default: T): T {
      match this
      case Some(v) => v
      case None => default
    }
  }

  /** A handler's answer: `res.status(code).json({ success: true, data })` or
      `res.status(code).json({ success: false, message })`. */
  datatype Reply<+T> = Success(code: int, data: T) | Failure(code: int, message: string)

  /** What a Mongoose `save()`/`create()` rejected by a schema validator ends as:
      the thrown ValidationError carries no `statusCode`, so the error handler answers 500. */
  const ValidationFailed: string := "Validation failed"
}
