/**
 * The exception hierarchy of backend/Exceptions as one datatype.  Every
 * subclass of DisprzException carries a fixed HTTP status code and the
 * message it was constructed with; any other exception is `Unexpected`.
 */
module Exceptions {

  datatype ErrorKind =
    | BadRequest          // BadRequestException
    | Conflict            // ConflictException
    | EntityNotFound      // EntityNotFoundException
    | InvalidCredentials  // InvalidCredentialsException
    | MalformedJwt        // MalformedJwtException
    | UnauthorizedAccess  // UnauthorizedAccessException
    | EntitySave          // EntitySaveException
    | EntityUpdate        // EntityUpdateException
    | EntityDelete        // EntityDeleteException

  /** The status code each subclass passes to the DisprzException constructor. */
  function StatusCode(kind: ErrorKind): (code: int)
    ensures 400 <= code <= 500
    ensures code == 401 <==> kind == InvalidCredentials || kind == MalformedJwt
    ensures code == 500 <==> kind in {EntitySave, EntityUpdate, EntityDelete}
  {
    match kind
    case BadRequest => 400
    case Conflict => 409
    case EntityNotFound => 404
    case InvalidCredentials => 401
    case MalformedJwt => 401
    case UnauthorizedAccess => 403
    case EntitySave => 500
    case EntityUpdate => 500
    case EntityDelete => 500
  }

  /** A thrown exception: one of the DisprzException family, or anything else. */
  datatype Failure =
    | Disprz(kind: ErrorKind, message: string)
    | Unexpected(detail: string)

  /** A call that either returns a value or throws. */
  datatype Result<+T> = Ok(value: T) | Err(failure: Failure)

  /** A `void` call that either returns or throws. */
  datatype Outcome = Pass | Fail(failure: Failure)
}
