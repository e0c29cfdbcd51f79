/** Option and Result, the two failure-carrying wrappers the model uses for
    C# null references, parse failures and thrown exceptions. */
module Wrappers {

  /** `None` stands for a null reference or a value that could not be produced. */
  datatype Option<+T> = None | Some(value: T)

  /** `Failure` stands for an exception the modelled code lets escape. */
  datatype Result<+T, +E> = Success(value: T) | Failure(error: E)
}
