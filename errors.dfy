/** Outcomes of the announcement endpoints: a value, or the HTTP error the router raises. */
module Errors {

  datatype Option<+T> = None | Some(value: T) {
    function GetOr(default: T): T {
      match this
      case Some(v) => v
      case None => default
    }
  }

  /** An HTTPException: its status code and its detail text. */
  datatype HttpError = HttpError(status: int, detail: string)

  datatype Result<+T> = Ok(value: T) | Err(error: HttpError)

  /** The outcome of a check that returns nothing on success. */
  datatype Outcome = Pass | Fail(error: HttpError)

  const AuthenticationRequired := HttpError(401, "Authentication required for this action")
  const InvalidCredentials := HttpError(401, "Invalid teacher credentials")
  const EmptyMessage := HttpError(400, "Message cannot be empty")
  const MessageTooLong := HttpError(400, "Message too long (max 500 characters)")
  const NotFound := HttpError(404, "Announcement not found")
  const InvalidId := HttpError(400, "Invalid announcement ID")
  const ExpirationInPast := HttpError(400, "Expiration date must be in the future")
  const StartAfterExpiration := HttpError(400, "Start date must be before expiration date")
  const InvalidDateFormat := HttpError(400, "Invalid date format. Use YYYY-MM-DD")
  const InvalidExpirationFormat := HttpError(400, "Invalid expiration date format. Use YYYY-MM-DD")
  const InvalidStartFormat := HttpError(400, "Invalid start date format. Use YYYY-MM-DD")
  const CreateFailed := HttpError(500, "Failed to create announcement")
}
