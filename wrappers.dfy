/** The optional-value idiom the store's lookups return (a row or nothing). */
module Wrappers {

  datatype Option<T> = None | Some(value: T) {
    /** The carried value, or `default` when there is none. */
    function GetOr(default: T): T
    {
      match this
      case Some(v) => v
      case None => default
    }
  }
}
