/**
  Failure-carrying datatypes shared by every module of the model.

  The original system signals failures with Java exceptions
  (`IllegalArgumentException`, `NullPointerException`, a generic
  `RuntimeException` for unsupported HTTP methods) and with the object
  manager's checked exceptions. Here each of them is a value of `Error`.
 */
module Wrappers {

  /** An optional value, standing in for a Java reference that may be null. */
  datatype Option<+T> = None | Some(value: T)

  /** The kinds of failure the modelled code raises. */
  datatype Error =
    | IllegalArgument      // Guava `checkArgument` failed
    | NullPointer          // Guava `checkNotNull` failed
    | UnsupportedMethod    // "http method unsupported" runtime exception
    | PoolEmpty            // no object is available for a read or a delete
    | DuplicateObject      // the object is already under management
    | NotReserved          // a read completion without a matching reservation

  /** Either a value or the error that prevented computing it. */
  datatype Result<+T> = Ok(value: T) | Err(error: Error) {
    predicate IsFailure() {
      Err?
    }

    function PropagateFailure<U>(): Result<U>
      requires Err?
    {
      Err(error)
    }

    function Extract(): T
      requires Ok?
    {
      value
    }
  }

  /** A check that either passes or names the error it found. */
  datatype Outcome = Pass | Fail(error: Error)
}
