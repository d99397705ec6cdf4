/** Failure-carrying wrappers used by every other module. */
module Base {

  datatype Option<T> = None | Some(value: T) {
    /** The wrapped value, or `default` when there is none (Rust's `unwrap_or`). */
    function GetOr(default: T): T {
      match this
      case Some(v) => v
      case None => default
    }

    /** Rust's `Option::or`: this value if present, else `other`. */
    function Or(other: Option<T>): Option<T> {
      if Some? then this else other
    }
  }

  datatype Result<T, E> = Ok(value: T) | Err(error: E)
}
