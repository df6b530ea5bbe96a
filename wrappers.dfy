/** Option for SQL NULL and absent values; Try for Python code that returns or raises. */
module Wrappers {

  datatype Option<+T> = None | Some(value: T)

  /** The result of a Python call that may raise: the exception is kept as its str() text. */
  datatype Try<+T> = Returned(value: T) | Raised(error: string)
}
