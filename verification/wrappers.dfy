/** Wrappers used by the contact store model. `Option` stands for a
    JavaScript value that may be `null`/`undefined`; `Result` stands for an
    async call that either resolves or throws. */
module Wrappers {

  datatype Option<+T> = None | Some(value: T) {

    /** A stored entry read with `?? default`. */
    function GetOr(default: T): T {
      match this
      case Some(v) => v
      case None => default
    }
  }

  datatype Result<+R, +E> = Success(value: R) | Failure(error: E)
}
