/** The absent-or-present value the Java code expresses with `null`. */
module Options {

  datatype Option<+T> = None | Some(value: T) {

    /** The value, or `default` when there is none. */
    function GetOr(default: T): T {
      match this
      case Some(v) => v
      case None => default
    }

    /** Apply `f` to the value, if there is one. */
    function Map<U>(f: T -> U): Option<U> {
      match this
      case Some(v) => Some(f(v))
      case None => None
    }

    /** Continue with `f` on the value, if there is one. */
    function Then<U>(f: T -> Option<U>): Option<U> {
      match this
      case Some(v) => f(v)
      case None => None
    }
  }

  /** A value, or the reason there is none (an exception in the Java code). */
  datatype Result<+T, +E> = Ok(value: T) | Err(error: E)
}
