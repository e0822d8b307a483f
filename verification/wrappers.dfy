/** The optional-value type shared by every module of the model. */
module Wrappers {

  /** Ruby's `nil`-or-value, as returned by lookups that may find nothing. */
  datatype Option<+T> = None | Some(value: T) {

    /** The wrapped value, or `default` when there is none. */
    function GetOr(default: T): T {
      match this
      case Some(v) => v
      case None => default
    }
  }
}
