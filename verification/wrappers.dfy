/** Failure-compatible result types shared by the parsers and the interpreter. */
module Wrappers {

  /** Rust's `Option`, and the "no answer" of C functions that fall off their end. */
  datatype Option<+T> = None | Some(value: T)

  /** Rust's `Result`; also the error values that replace the C++ parser's `exit` calls. */
  datatype Result<+T, +E> = Success(value: T) | Failure(error: E) {
    predicate IsFailure() {
      Failure?
    }

    function PropagateFailure<U>(): Result<U, E>
      requires Failure?
    {
      Failure(error)
    }

    function Extract(): T
      requires Success?
    {
      value
    }
  }
}
