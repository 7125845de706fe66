/** Option and Result, the value forms of PHP's `null`/`false` returns and thrown exceptions. */
module Wrappers {

  datatype Option<+T> = None | Some(value: T)

  /** `Failure` stands for an exception thrown by the source; `Success` for a normal return. */
  datatype Result<+R, +E> = Success(value: R) | Failure(error: E)
}
