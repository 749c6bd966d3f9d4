/** Absent values (Ruby's nil) and operations that may raise. */
module Wrappers {

  /** A value that may be absent: `None` stands for Ruby's nil. */
  datatype Option<+T> = None | Some(value: T)

  /** The outcome of an operation that either returns or raises a RuntimeError with a message. */
  datatype Result<+T> = Success(value: T) | Failure(message: string)
}
