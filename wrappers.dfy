/** Option and Result, the two shapes `std::option::Option` and `std::io::Result` take in the model. */
module Wrappers {

  datatype Option<+T> = None | Some(value: T)

  datatype Result<+T, +E> = Ok(value: T) | Err(error: E) {
    /** The value of an `Ok`, or `default` for an `Err`. */
    function GetOr(default: T): T {
      match this
      case Ok(v) => v
      case Err(_) => default
    }
  }
}
