/** The optional and error-carrying values shared by the modules of this model. */
module Wrappers {

  /** An optional value: a C null pointer, a missing map key, an empty Tcl result. */
  datatype Option<+T> = None | Some(value: T) {
    function GetOr(default: T): T {
      match this
      case Some(v) => v
      case None => default
    }
  }

  /** Either a value or an error, for the source's error returns. */
  datatype Result<+R, +E> = Success(value: R) | Failure(error: E)
}
