/** Failure-compatible result types shared by every service module.

    A Java service method that either returns a value or throws is modelled
    as a function returning `Result<T, E>`: `Ok` carries the return value
    (usually the updated stores), `Err` carries the kind of exception.
    Because a failing call returns no stores, "a failing action changes
    nothing" holds by construction: the caller keeps the stores it had. */
module Wrappers {

  datatype Option<+T> = None | Some(value: T) {

    function GetOr(default: T): (r: T)
      ensures Some? ==> r == value
      ensures None? ==> r == default
    {
      match this
      case Some(v) => v
      case None => default
    }
  }

  datatype Result<+T, +E> = Ok(value: T) | Err(error: E) {

    predicate IsFailure() {
      Err?
    }

    function PropagateFailure<U>(): Result<U, E>
      requires Err?
    {
      Err(error)
    }

    function Extract(): T
      requires Ok?
    {
      value
    }
  }
}
