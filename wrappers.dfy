/** Option and Result values, and the Java exceptions the model raises as values. */
module Wrappers {

  /** A value that may be missing; `None` stands for Java's `null`. */
  datatype Option<+T> = None | Some(value: T)

  /** The outcome of an operation that may throw. */
  datatype Result<+T, +E> = Success(value: T) | Failure(error: E)

  /** The Java exceptions that the modelled code lets escape. */
  datatype JavaException =
    | IllegalArgument(reason: string)
    | NullPointer
    | FileNotFound(message: string)
}
