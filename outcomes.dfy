/** Optional values, the errors the services raise, and the result of an operation that may raise one. */
module Outcomes {

  /** A value that may be absent: Java's `Optional` and a nullable reference alike. */
  datatype Option<T> = None | Some(value: T)

  /** The exceptions the services throw. */
  datatype Error =
    /** `ResourceNotFoundException(resource, field, value)`: no row, or no row visible under the active-only rule. */
    | NotFound(resource: string, field: string)
    /** `ResourceAlreadyExistsException(resource, field, value)`: the service refused a duplicate. */
    | AlreadyExists(resource: string, field: string)
    /** `UserInactiveException`: soft delete of a user that is already inactive. */
    | UserInactive
    /** The storage layer rejected a write that breaks a unique constraint; the transaction rolls back. */
    | StorageConflict

  /** The outcome of a service call: a value, or the exception that ended it. */
  datatype Result<T> = Ok(value: T) | Err(error: Error)
}
