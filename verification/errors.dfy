/** Failure values of the data layer.

 The source signals every failure with an exception whose class fixes an HTTP
 status; the router turns it into a response. Here each exception class is a
 constructor of `Error` carrying the exception's message, and every operation
 returns a `Result` instead of throwing. Runtime faults the source does not
 catch itself (a null dereference, a division by zero, a failing mail server)
 surface as `InternalServerError`, the status the router gives them.
 */
module Errors {

  datatype Error =
    | BadRequest(message: string)
    | NotFound(message: string)
    | Unauthorized(message: string)
    | InternalServerError(message: string)

  datatype Option<+T> = None | Some(value: T)

  /** Either a value or the error the source would have thrown. Usable with `:-`. */
  datatype Result<+T> = Ok(value: T) | Err(error: Error) {

    predicate IsFailure() {
      Err?
    }

    function PropagateFailure<U>(): Result<U>
      requires Err?
    {
      Err(error)
    }

    function Extract(): T
      requires Ok?
    {
      value
    }
  }

  // Messages of the faults the source raises without an explicit `throw`.
  const NullReference := "Object reference not set to an instance of an object."
  const DivideByZero := "Attempted to divide by zero."
}
