/** Failure-compatible wrappers shared by every module of the model: `Option`
    stands for a nullable JavaScript value and `Result` for a function that either
    returns or throws. */
module Wrappers {

  /** A nullable value: `None` is JavaScript's `null`. */
  datatype Option<+T> = None | Some(value: T)

  /** The outcome of an operation that may throw: `Failure` carries the error. */
  datatype Result<+R, +E> = Success(value: R) | Failure(error: E) {
    predicate IsFailure() {
      Failure?
    }

    function PropagateFailure<U>(): Result<U, E>
      requires Failure?
    {
      Failure(error)
    }

    function Extract(): R
      requires Success?
    {
      value
    }
  }

  /** JavaScript truthiness of a nullable string: `null` and `''` are falsy. */
  predicate IsSet(o: Option<string>) {
    o.Some? && o.value != ""
  }
}
