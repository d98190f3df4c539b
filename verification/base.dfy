/** Failure-carrying values used across the model: `Option` stands for the
    source's `null`/`undefined` results, `Result` for an operation that either
    succeeds or reports an error message to its caller. */
module Base {

  datatype Option<+T> = None | Some(value: T) {

    /** The wrapped value, or `default` when there is none. */
    function GetOr(default: T): T {
      match this
      case Some(v) => v
      case None => default
    }
  }

  datatype Result<+T> = Ok(value: T) | Err(message: string)
}
