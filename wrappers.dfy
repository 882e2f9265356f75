/** Failure-carrying values standing in for the exceptions thrown by the original code. */
module Wrappers {

  /** The three kinds of exception the core throws: a `RangeError`, a `TypeError`
      (also what reading a property of `undefined` raises) and a plain `Error`. */
  datatype Error =
    | RangeError(message: string)
    | TypeError(message: string)
    | Thrown(message: string)

  /** What every handler the core does not support throws. */
  const NotImplemented: Error := Thrown("Not implemented")

  datatype Option<+T> = None | Some(value: T)

  datatype Result<+T> = Ok(value: T) | Err(error: Error) {
    predicate IsFailure() { Err? }
    function PropagateFailure<U>(): Result<U>
      requires Err?
    {
      Err(error)
    }
    function Extract(): T
      requires Ok?
    {
      value
    }
  }

  /** The result of an operation that returns nothing but may throw. */
  datatype Outcome = Pass | Fail(error: Error) {
    predicate IsFailure() { Fail? }
    function PropagateFailure(): Outcome
      requires Fail?
    {
      this
    }
  }
}
