/** Failure-compatible results, for the source's exceptions and error returns. */
module Wrappers {

  datatype Option<+T> = None | Some(value: T)

  datatype Result<+T, +E> = Success(value: T) | Failure(error: E) {
    predicate IsFailure() {
      Failure?
    }

    function PropagateFailure<U>(): Result<U, E>
      requires Failure?
    {
      Failure(error)
    }

    function Extract(): T
      requires Success?
    {
      value
    }
  }

  /** The outcome of a guard: nothing to extract, only an error to propagate. */
  datatype Outcome<+E> = Pass | Fail(error: E) {
    predicate IsFailure() {
      Fail?
    }

    function PropagateFailure<U>(): Result<U, E>
      requires Fail?
    {
      Failure(error)
    }

    /** This gate first, the next one if it passes. */
    function Then(next: Outcome<E>): Outcome<E> {
      if Pass? then next else this
    }
  }

  /** The first failure of two guards. */
  function Both<E>(first: Outcome<E>, second: Outcome<E>): Outcome<E> {
    if first.Pass? then second else first
  }

  function Need<E>(condition: bool, error: E): Outcome<E> {
    if condition then Pass else Fail(error)
  }
}
