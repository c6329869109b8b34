/** Optional values, results, and the kinds of failure the registration
    pipeline raises. */
module Results {

  datatype Option<+T> = None | Some(value: T)

  /** The exceptions the services and workers throw, grouped by kind. Each
      carries the message the backend attaches to it. */
  datatype Error =
    | NotFound(message: string)            // NestJS NotFoundException (HTTP 404)
    | BadRequest(message: string)          // NestJS BadRequestException (HTTP 400)
    | Conflict(message: string)            // NestJS ConflictException (HTTP 409)
    | ConstraintViolation(message: string) // the store refusing an insert
    | JobFailed(message: string)           // a plain Error thrown inside a worker

  /** The outcome of a transition: the new state, or the error that aborted
      it. An error carries no state: a failed call changes nothing. */
  datatype Result<+T> = Ok(value: T) | Err(error: Error)
}
