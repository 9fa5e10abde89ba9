/** Optional and fallible values: JavaScript's null/undefined arguments and thrown errors. */
module Wrappers {

  /** A value that may be absent (a null or undefined argument). */
  datatype Option<+T> = None | Some(value: T) {

    /** The value, or `default` when it is absent. */
    function GetOr(default: T): T {
      match this
      case Some(v) => v
      case None => default
    }
  }

  /** Either a value or the error the source would throw. */
  datatype Result<+T, +E> = Ok(value: T) | Err(error: E)

  /** A nullable string as JavaScript's `s || ''` reads it. */
  function OrEmpty(s: Option<string>): string {
    s.GetOr("")
  }
}
