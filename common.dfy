/** Optional values, results and the HTTP exceptions the services throw. */
module Common {

  datatype Option<+T> = None | Some(value: T)

  /** The exceptions the services raise; each carries the message the code passes to it. */
  datatype Exception =
    | NotFound(message: string)       // NestJS NotFoundException (404)
    | BadRequest(message: string)     // NestJS BadRequestException (400)
    | Unauthorized(message: string)   // NestJS UnauthorizedException (401)
    | QueryFailed(message: string)    // a constraint the database rejects on save

  /** An operation either returns a value or throws one exception. */
  datatype Result<+T> = Success(value: T) | Failure(error: Exception)
}
