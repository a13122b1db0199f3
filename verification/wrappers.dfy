/** Failure-compatible wrappers shared by the reader: `Option` for lookups that
    may miss and `Result` for parse steps that may raise. */
module Wrappers {

  datatype Option<+T> = None | Some(value: T)

  /** A parse step either produces a value or stops the whole read with an error. */
  datatype Result<+R, +E> = Success(value: R) | Failure(error: E) {

    predicate IsFailure() {
      Failure?
    }

    function PropagateFailure<U>(): Result<U, E>
      requires Failure?
    {
      Failure(error)
    }

    function Extract(): R
      requires Success?
    {
      value
    }
  }
}
