/** Option and result wrappers shared by every module of the catalog model. */
module Wrappers {

  /** An optional value; `None` stands for a JavaScript `undefined`/`null`
      or a C# `null`. */
  datatype Option<+T> = None | Some(value: T) {

    /** The wrapped value, or `default` when there is none. */
    function GetOr(default: T): (r: T)
      ensures Some? ==> r == value
      ensures None? ==> r == default
    {
      match this
      case Some(v) => v
      case None => default
    }
  }

  /** The outcome of a database statement: the new value or the error it raised. */
  datatype Result<+R, +E> = Success(value: R) | Failure(error: E)
}
