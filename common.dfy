/** Values shared by the request handlers: optional request fields, handler
    results, the error responses the server sends, and the session check. */
module Common {

  /** A request field or session value that may be absent. */
  datatype Option<+T> = None | Some(value: T) {
    function GetOr(default: T): (r: T) {
      match this
      case Some(v) => v
      case None => default
    }
  }

  /** The error replies of the handlers, one constructor per distinct reply. */
  datatype Error =
    | Invalid(message: string)   // 400, a required field is missing
    | DuplicateEmail             // 400 "Email already registered"
    | InvalidCredentials         // 400 "Invalid email or password"
    | NoFileUploaded             // 400 "No file uploaded"
    | NotAuthenticated           // 401 "Not authenticated"
    | UserNotFound               // 404 "User not found"

  datatype Result<+T> = Success(value: T) | Failure(error: Error)

  const AllFieldsRequired := "All fields are required"
  const CredentialsRequired := "Email and password are required"

  /** HTTP status code the handler answers with for an error. */
  function Status(e: Error): (code: nat) {
    match e
    case NotAuthenticated => 401
    case UserNotFound => 404
    case _ => 400
  }

  /** The `error` text of the JSON reply. */
  function Message(e: Error): (text: string) {
    match e
    case Invalid(m) => m
    case DuplicateEmail => "Email already registered"
    case InvalidCredentials => "Invalid email or password"
    case NoFileUploaded => "No file uploaded"
    case NotAuthenticated => "Not authenticated"
    case UserNotFound => "User not found"
  }

  /** Apart from the field-check replies, each error kind is its own reply:
      two different kinds never share both status code and message. */
  lemma RepliesDistinct(e1: Error, e2: Error)
    requires !e1.Invalid? && !e2.Invalid? && e1 != e2
    ensures (Status(e1), Message(e1)) != (Status(e2), Message(e2))
  {
  }

  /** A request field passes the handlers' `!field` test: it is present and
      is not the empty string. */
  predicate Present(field: Option<string>) {
    field.Some? && field.value != ""
  }

  /** `req.session.userId` is set and truthy; the value is the id's string
      form, as `userId.toString()` yields it. */
  predicate SignedIn(session: Option<string>) {
    session.Some? && session.value != ""
  }
}
