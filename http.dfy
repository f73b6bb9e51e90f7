/**
 * Outcomes of the request handlers: the status code and payload that
 * `res.status(..).json(..)` sends. Every refusal of the source has its own
 * reason (one per distinct message) and a fixed status code.
 */
module Http {

  datatype Reason =
    // express-validator rejected the body (any handler that runs validationResult)
    | InvalidInput
    // eventController.js
    | EventNotFound
    | UserNotFound
    | NotAuthorizedToUpdate
    | NotAuthorizedToDelete
    | NotAuthorizedToView
    | NotAuthorizedToChangeRoles
    | OnlyStudentsRegister
    | ProfileRequiredToRegister
    | RegistrationClosed
    | NoSeatsAvailable
    | AlreadyRegistered
    | NegativeSeats
    | EventIdRequired
    | InvalidEventIdFormat
    // profileController.js
    | OnlyStudentsCreateProfiles
    | ProfileAlreadyExists
    | OnlyStudentsHaveProfiles
    | OnlyStudentsUpdateProfiles
    | ProfileNotFound
    | OnlyStudentsHaveEvents
    // profileCheck.js
    | NoUserIdInToken
    | ProfileRequiredToAccess
    // eventAuth.js
    | NoToken
    | TokenNotValid
    | StudentsCannotManageEvents

  /** The HTTP status code the source sends with each refusal. */
  function StatusOf(r: Reason): (s: int)
    ensures s in {400, 401, 403, 404}
    ensures CarriesProfileRequired(r) ==> s == 403
    ensures s == 401 <==> r in {NoUserIdInToken, NoToken, TokenNotValid}
  {
    match r
    case InvalidInput | RegistrationClosed | NoSeatsAvailable | AlreadyRegistered
      | NegativeSeats | EventIdRequired | InvalidEventIdFormat | ProfileAlreadyExists => 400
    case NoUserIdInToken | NoToken | TokenNotValid => 401
    case NotAuthorizedToUpdate | NotAuthorizedToDelete | NotAuthorizedToView
      | NotAuthorizedToChangeRoles | OnlyStudentsRegister | ProfileRequiredToRegister
      | OnlyStudentsCreateProfiles | OnlyStudentsHaveProfiles | OnlyStudentsUpdateProfiles
      | OnlyStudentsHaveEvents | ProfileRequiredToAccess | StudentsCannotManageEvents => 403
    case EventNotFound | UserNotFound | ProfileNotFound => 404
  }

  /** Refusals whose JSON body carries `profileRequired: true`. */
  predicate CarriesProfileRequired(r: Reason) {
    r == ProfileRequiredToRegister || r == ProfileRequiredToAccess
  }

  /** What a handler answers: a success code with its payload, or a refusal. */
  datatype Reply<+T> = Ok(code: int, value: T) | Err(reason: Reason) {

    function Status(): int {
      if Ok? then code else StatusOf(reason)
    }

    predicate ProfileRequired() {
      Err? && CarriesProfileRequired(reason)
    }
  }
}
