/** Optional values and outcomes that may have failed with a message. */
module Wrappers {

  /** A value that may be absent: Python's `None` or a value. */
  datatype Option<+T> = None | Some(value: T)

  /** The outcome of a call that either returns a value or raises an
      exception, whose `str(e)` is kept as `error`. */
  datatype Result<+R> = Success(value: R) | Failure(error: string)
}
