/** Failure-carrying values shared by the other modules. */
module Wrappers {

  /** A value that may be absent; `None` stands for a C# `null`. */
  datatype Option<+T> = None | Some(value: T)

  /** The value a converter produces, or the message of the exception it throws. */
  datatype Result<+T> = Success(value: T) | Failure(error: string)

  /** How an awaited `Task` without a value ends: normally, or by throwing an exception
      whose message is `code`. */
  datatype Outcome = Ok | Err(code: string)
}
