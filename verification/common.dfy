/** Shared result types of the back office: optional values (the source's
    nullable references) and the HTTP outcome of a controller action. */
module Common {

  /** A nullable value. */
  datatype Option<+T> = None | Some(value: T) {
    function GetOr(default: T): T
    {
      match this
      case Some(v) => v
      case None => default
    }
  }

  /** `string.IsNullOrEmpty` on a nullable string. */
  predicate NullOrEmpty(s: Option<string>)
  {
    s.None? || |s.value| == 0
  }

  /** The error responses a controller action can produce. */
  datatype ApiError =
    | NotFound(message: string)        // 404
    | BadRequest(message: string)      // 400
    | Invalid                          // 400: the body broke a declared constraint
    | Unauthorized(message: string)    // 401
    | Forbidden                        // 403
    | ServerError(message: string)     // 500
  {
    /** The HTTP status code the error travels with. */
    function Status(): int
    {
      match this
      case NotFound(_) => 404
      case BadRequest(_) => 400
      case Invalid => 400
      case Unauthorized(_) => 401
      case Forbidden => 403
      case ServerError(_) => 500
    }
  }

  /** Either the value an action returns or the error it answers with.
      A failed action never changes the store: the caller keeps its old state. */
  datatype Result<+T> = Success(value: T) | Failure(error: ApiError)

  /** The message every duplicate-email rejection carries. */
  const EmailTaken := "Email já cadastrado"

  /** The payment status of a student who is up to date. */
  const PaidUp := "Em dia"
}
