/** Swift's Optional and the throwing-initialiser outcome, as values. */
module Wrappers {

  /** Swift's `T?`: `None` is `nil`. */
  datatype Option<+T> = None | Some(value: T) {

    /** The `x ?? default` operator. */
    function GetOr(default: T): T {
      match this
      case Some(v) => v
      case None => default
    }
  }

  /** The outcome of an initialiser that may throw. */
  datatype Result<+R, +E> = Success(value: R) | Failure(error: E)
}
