/** Types shared by both services: identifiers, optional values, the
    error kinds the services raise, and the results they return. */
module Common {

  /** A primary key (a generated UUID). Only equality is observable. */
  type Id(==, !new)

  /** A calendar date as the request carries it (an ISO date string). */
  type Date = string

  /** Page numbers and page sizes are positive once the query is validated. */
  type Positive = n: int | n >= 1 witness 1

  datatype Option<T> = None | Some(value: T) {
    function GetOr(default: T): T {
      match this
      case Some(v) => v
      case None => default
    }
  }

  /** The exceptions the services throw: NotFoundException,
      BadRequestException (a foreign key that names no author) and
      ConflictException. */
  datatype Error = NotFound | BadRequest | Conflict

  datatype Result<T> = Ok(value: T) | Err(error: Error)

  /** The outcome of an operation that returns nothing on success. */
  datatype Outcome = Done | Fail(error: Error)

  function Min(a: int, b: int): int { if a <= b then a else b }

  function Max(a: int, b: int): int { if a <= b then b else a }
}
