/** `Option` stands for a value Python may find absent (a missing dictionary
    key, a classifier that was never built); `Result` for a computation that
    either produces its value or stops where the Python code would raise. */
module Wrappers {

  datatype Option<+T> = None | Some(value: T) {

    /** `d.get(key, fallback)` after the lookup: the present value, and
        `fallback` only when nothing is there. */
    function GetOr(fallback: T): (r: T)
      ensures Some? ==> r == value
      ensures None? ==> r == fallback
    {
      if Some? then value else fallback
    }
  }

  datatype Result<+R, +E> = Success(value: R) | Failure(error: E)
}
