/** Tagged results of the delete-participant use case.

    Every failure the handler can return carries an error kind (the class of
    the validation error: NotFoundError, ForbiddenError or BadRequestError)
    and a reason: one tag per message, so that properties can say which check
    produced the failure.
 */
module Errors {

  datatype Option<+T> = None | Some(value: T)

  /** The class of a validation failure. */
  datatype ErrorKind = NotFound | Forbidden | BadRequest

  /** One tag per failure message. */
  datatype Reason =
    | UserIdNotFound            // no user with the requested id
    | UserCodeNotFound          // no user with the requested access code
    | RoomNotFound              // no room for the given user code or invitation code
    | NotAdmin                  // "User with such code is not admin."
    | SameUser                  // "User with such code and such id is the same user."
    | NotSameRoom               // "Users with such code and such id are not in the same room."
    | RoomClosed                // "Room is already closed."
    | UpdateFailed(message: string)  // the message the room update failed with

  datatype Error = Error(kind: ErrorKind, reason: Reason)

  /** Success with a value, or failure with an error. */
  datatype Result<+T> = Success(value: T) | Failure(error: Error)

  /** Outcome of an operation that returns no value. */
  datatype Outcome<+E> = Pass | Fail(error: E)
}
