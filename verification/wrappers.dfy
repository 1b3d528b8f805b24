/** Option and Result, the shapes in which missing JavaScript values and
    thrown exceptions of the extension are modelled. */
module Wrappers {

  /** A value that may be absent: `undefined`, `null` or a failed fetch. */
  datatype Option<+T> = None | Some(value: T) {

    /** The encapsulated value, or `default` when absent (JavaScript's `x || d`
        for values whose truthiness is their presence). */
    function GetOr(default: T): T {
      match this
      case Some(v) => v
      case None => default
    }
  }

  /** Either a computed value or the error that aborted the computation. */
  datatype Result<+R, +E> = Success(value: R) | Failure(error: E)
}
