/** Error outcomes shared by the modules of this model. Each constructor names
    the C++ exception class the source throws on that path. */
module Errors {

  datatype Failure =
    | InvalidArgument(what: string)
    | OutOfRange(what: string)
    | RuntimeError(what: string)

  /** The value of an operation that either returns normally or throws. */
  datatype Result<+T> = Ok(value: T) | Err(error: Failure)
}
