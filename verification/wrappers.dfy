/** Plain wrapper datatypes used throughout the model: `Option` for a lookup
    or parse that may find nothing, `Result` for an operation that either
    returns a value or throws. A JavaScript value that may be null or
    undefined is `Tasks.JsValue`. */
module Wrappers {

  datatype Option<+T> = None | Some(value: T) {

    /** The wrapped value, or `default` when there is none. */
    function GetOr(default: T): T {
      match this
      case Some(v) => v
      case None => default
    }
  }

  datatype Result<+R, +E> = Success(value: R) | Failure(error: E)
}
