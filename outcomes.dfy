/** Optional values and the HTTP outcomes of the route handlers. */
module Outcomes {

  /** A nullable column or an optional request field. */
  datatype Option<+T> = None | Some(value: T)

  /** The failure responses the route handlers send; `Status` gives the HTTP code. */
  datatype Failure =
    | MissingInput           // 400: a required field is absent or empty
    | NoValidFields          // 400: PUT /items/:id with neither a usable name nor a unit
    | NotFound               // 404: the row does not exist or belongs to another account
    | Conflict               // 409: a UNIQUE constraint rejected the write
    | InvalidCredentials     // 401: "Invalid credentials"
    | InvalidOrExpiredToken  // 400: "Invalid or expired token"

  function Status(f: Failure): int
  {
    match f
    case MissingInput => 400
    case NoValidFields => 400
    case NotFound => 404
    case Conflict => 409
    case InvalidCredentials => 401
    case InvalidOrExpiredToken => 400
  }

  /** Either the success payload or the failure response. */
  datatype Result<+T> = Ok(value: T) | Err(error: Failure)
}
