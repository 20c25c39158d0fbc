/** Failure-carrying values shared by every module of the model: `Option`
    stands for a nullable or optional field, `Result` for a call that either
    returns a value or throws. */
module Wrappers {

  datatype Option<+T> = None | Some(value: T) {
    function GetOr(default: T): T {
      match this
      case Some(v) => v
      case None => default
    }
  }

  datatype Result<+R, +E> = Ok(value: R) | Err(error: E)
}
