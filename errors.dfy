/**
 * The exceptions the services throw, as values. A call that returns
 * normally gives `Ok`, one that throws gives `Err` with the exception.
 */
module Errors {

  /** The HTTP statuses that ResponseStatusException carries in this code. */
  datatype HttpStatus = BadRequest | Forbidden | NotFound | Conflict

  /** The numeric code of each status. */
  function Code(s: HttpStatus): nat
  {
    match s
    case BadRequest => 400
    case Forbidden => 403
    case NotFound => 404
    case Conflict => 409
  }

  datatype Error =
    /** ResponseStatusException(status, reason). */
    | ResponseStatus(status: HttpStatus, reason: string)
    /** Spring Security's AccessDeniedException(message). */
    | AccessDenied(message: string)
    /** The database refused an insert that breaks a unique column. */
    | DataIntegrityViolation

  /** The outcome of a call that either returns a value or throws. */
  datatype Result<+T> = Ok(value: T) | Err(error: Error)
  {
    predicate IsFailure() { Err? }

    function PropagateFailure<U>(): Result<U>
      requires Err?
    {
      Err(error)
    }

    function Extract(): T
      requires Ok?
    {
      value
    }
  }

  function DigitChar(d: nat): char
    requires d < 10
  {
    "0123456789"[d]
  }

  /** Decimal digits of a natural number, as Long.toString writes them. */
  function NatString(n: nat): (s: string)
    ensures |s| >= 1
    decreases n
  {
    if n < 10 then [DigitChar(n)] else NatString(n / 10) + [DigitChar(n % 10)]
  }

  /** An id as string concatenation renders it. */
  function IdString(id: int): string
  {
    if id < 0 then "-" + NatString(-id) else NatString(id)
  }
}
