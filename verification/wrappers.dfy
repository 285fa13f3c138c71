/** Failure-carrying datatypes shared by the tag parser and the startup model. */
module Wrappers {

  /** A value that may be absent: a failed file read, an omitted JSON field, an empty slot. */
  datatype Option<+T> = None | Some(value: T) {

    /** The carried value, or `default` when there is none. */
    function GetOr(default: T): (r: T)
      ensures Some? ==> r == value
      ensures None? ==> r == default
    {
      match this
      case Some(v) => v
      case None => default
    }
  }

  /** The outcome of an operation that either produces a value or reports an error. */
  datatype Result<+R, +E> = Ok(value: R) | Err(error: E)
}
