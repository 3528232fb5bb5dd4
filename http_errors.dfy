/** The error answers of the handlers: the HTTP status code and which check produced it. */
module Http {

  /** Which check failed; each one has its own message in the handlers. */
  datatype Reason =
    | MissingFields           // name, leader or a non-empty members array is missing
    | ValidationFailed        // the schema rejected the document on save
    | DuplicateKey            // a unique index rejected the document on save
    | IdCollision             // the generated teamId is already taken
    | NameAndLeaderRequired
    | MembersNotArray
    | InvalidMembers          // a member without name or college name
    | InvalidStatus
    | InvalidIdFormat
    | InvalidQrData
    | AlreadyCheckedIn
    | NotCheckedIn            // the team must have valid status first
    | InvalidAction
    | InvalidFoodType
    | InvalidRole
    | UserExists
    | SaveFailed              // an exception while saving, answered by the generic handler
    | MissingMembers          // members.map throws: members is missing or not an array

  datatype ApiError =
    | BadRequest(reason: Reason)
    | Forbidden
    | NotFound
    | ServerError(reason: Reason)
    | InsufficientStorage

  /** The HTTP status code each error is answered with. */
  function Code(e: ApiError): nat {
    match e
    case BadRequest(_) => 400
    case Forbidden => 403
    case NotFound => 404
    case ServerError(_) => 500
    case InsufficientStorage => 507
  }
}
