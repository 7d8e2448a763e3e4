/** The Option datatype: `None` stands for Rust's `None` and for a null pointer. */
module Wrappers {

  datatype Option<+T> = None | Some(value: T) {

    /** The wrapped value, or `default` for `None` (Rust's `unwrap_or` / `unwrap_or_default`). */
    function GetOr(default: T): T
    {
      match this
      case Some(v) => v
      case None => default
    }
  }
}
