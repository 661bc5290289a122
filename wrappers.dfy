/** Rust's `Option` and `Result`, and the outcome of a call that may panic. */
module Wrappers {

  datatype Option<+T> = None | Some(value: T) {
    /** `Option::unwrap_or`. */
    function UnwrapOr(default: T): T {
      match this
      case Some(v) => v
      case None => default
    }
  }

  datatype Result<+T, +E> = Ok(value: T) | Err(error: E)

  /** A call that either returns normally or panics with a message. */
  datatype Outcome = Done | Panic(message: string)
}
