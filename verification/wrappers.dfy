/** Option and Result datatypes used by the note store model.
    - Option<T>: a value that may be absent (a PATCH field the client did not set,
      or the optional `is_done` query filter).
    - Result<T, E>: the outcome of a store operation that may fail.
 */
module Wrappers {

  datatype Option<+T> = None | Some(value: T) {

    /** The wrapped value, or `default` when there is none. */
    function GetOr(default: T): T {
      match this
      case Some(v) => v
      case None => default
    }
  }

  datatype Result<+T, +E> = Ok(value: T) | Err(error: E)
}
