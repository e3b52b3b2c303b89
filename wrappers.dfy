/** Option, Result and Attempt values shared by the other modules. */
module Wrappers {

  datatype Option<+T> = None | Some(value: T)

  /** The value of a step, or an exception it raised. */
  datatype Result<+T, +E> = Ok(value: T) | Err(error: E) {
    predicate IsFailure() { Err? }

    function PropagateFailure<U>(): Result<U, E>
      requires Err?
    {
      Err(error)
    }

    function Extract(): T
      requires Ok?
    {
      value
    }
  }

  /** A Python call that either returns `value` or raises some exception
      (a network error, a missing dictionary key, ...). */
  datatype Attempt<+T> = Completed(value: T) | Raised {

    /** The value, or `None` for an exception that was caught and dropped. */
    function ToOption(): Option<T> {
      match this
      case Completed(v) => Some(v)
      case Raised => None
    }
  }
}
