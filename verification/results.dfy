/** Optional values and success/failure results shared by the backend and client models. */
module Results {

  /** A value that may be absent: Python's `None`, SQL's NULL. */
  datatype Option<+T> = None | Some(value: T) {

    /** The value, or `default` when absent: Python's `x or default` for a list column. */
    function GetOr(default: T): T {
      match this
      case Some(v) => v
      case None => default
    }
  }

  /** The outcome of a request handler: a value, or the error it raised. */
  datatype Result<+T, +E> = Ok(value: T) | Err(error: E)
}
