/** Failure-carrying values shared by every module: `Option` for the source's
    `null`/`undefined`, `Result` for an operation that may throw. */
module Wrappers {

  datatype Option<+T> = None | Some(value: T) {
    /** `value ?? fallback` */
    function OrElse(fallback: T): T {
      if Some? then value else fallback
    }
  }

  datatype Result<+T, +E> = Success(value: T) | Failure(error: E)
}
