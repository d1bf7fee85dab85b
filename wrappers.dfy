/** Optional value for nullable columns and absent values. */
module Wrappers {

  /** `None` stands for SQL NULL or a Python `None`. */
  datatype Option<+T> = None | Some(value: T) {

    /** The wrapped value, or `default` when there is none. */
    function GetOr(default: T): T {
      match this
      case Some(v) => v
      case None => default
    }
  }
}
