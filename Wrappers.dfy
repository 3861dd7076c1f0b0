/** Optional values and results, for the source's `undefined` fields and thrown errors. */
module Wrappers {

  datatype Option<T> = None | Some(value: T) {
    /** The value, or `default` when absent (a JavaScript destructuring default). */
    function GetOr(default: T): T {
      match this
      case Some(v) => v
      case None => default
    }
  }

  datatype Result<T, E> = Ok(value: T) | Err(error: E)
}
