/** Option and Result values shared by the model's modules. */
module Wrappers {

  /** Rust's `Option<T>`. */
  datatype Option<T> = None | Some(value: T) {
    /** `unwrap_or(default)`. */
    function GetOr(default: T): T {
      match this
      case Some(v) => v
      case None => default
    }
  }

  /** A computation that either yields a value or panics with the given reason. */
  datatype Result<T, E> = Ok(value: T) | Err(error: E)
}
