/** Optional values, and the results of operations that can raise one of the
    exceptions the modelled code throws. */
module Wrappers {

  /** A value that may be absent; `None` stands for a .NET null. */
  datatype Option<+T> = None | Some(value: T)

  /** The exceptions raised by the modelled operations. */
  datatype Exception =
    | ArgumentNull(parameter: string)
    | ArgumentNullOrEmpty(parameter: string)
    | NotImplemented(message: string)
    | NotSupported(message: string)
    | NullReference
    | InvalidOperation(message: string)

  /** Either the value an operation returns or the exception it throws. */
  datatype Result<+T> = Success(value: T) | Failure(error: Exception)

  /** The outcome of an operation that returns nothing. */
  datatype Outcome = Pass | Fail(error: Exception)
}
