/** Failure-compatible result types shared by the whole model. */
module Wrappers {

  /** An optional value: a document that may be absent, a query field that may be unset. */
  datatype Option<+T> = None | Some(value: T)

  /** The success/failure envelope of a service call: a payload or a typed error. */
  datatype Result<+R, +E> = Success(value: R) | Failure(error: E)

  /** A check that either passes or reports one error; `:-` stops at the first failure. */
  datatype Outcome<+E> = Pass | Fail(error: E) {

    predicate IsFailure() {
      Fail?
    }

    function PropagateFailure(): Outcome<E>
      requires Fail?
    {
      this
    }
  }
}
