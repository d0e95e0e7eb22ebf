/** Failure-carrying values used across the model: `Option` for Python's
    `None`-or-value results and `Result` for operations that may raise. */
module Wrappers {

  datatype Option<+T> = None | Some(value: T) {

    /** The value if present, else `default`. */
    function GetOr(default: T): T {
      match this
      case Some(v) => v
      case None => default
    }

    /** The zero- or one-element sequence holding the value. */
    function ToSeq(): (s: seq<T>)
      ensures |s| <= 1
      ensures Some? <==> |s| == 1
      ensures Some? ==> s[0] == value
    {
      match this
      case Some(v) => [v]
      case None => []
    }
  }

  datatype Result<+R, +E> = Success(value: R) | Failure(error: E)
}
