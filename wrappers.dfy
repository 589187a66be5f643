/** Option and Result: a missing value (npos, an absent file) and a thrown error string. */
module Wrappers {

  datatype Option<+T> = None | Some(value: T) {
    function GetOr(default: T): T {
      match this
      case Some(v) => v
      case None => default
    }
  }

  /** A computation that either yields a value or throws a C++ `string`. */
  datatype Result<+T> = Ok(value: T) | Err(msg: string)
}
