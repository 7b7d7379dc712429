/** Option and Result, plus the shape of an optional request value. */
module Wrappers {

  datatype Option<+T> = None | Some(value: T)

  /** The outcome of an operation that can be refused with an error value. */
  datatype Result<+R, +E> = Success(value: R) | Failure(error: E)

  /** A request value after the transport layer has read it: not sent at
      all, sent and readable as a `T`, or sent but not convertible to `T`
      (the case where the service's `int(...)`/`float(...)` raises). */
  datatype Arg<+T> = Absent | Given(value: T) | Unparseable
}
