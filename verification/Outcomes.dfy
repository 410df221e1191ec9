/** Optional values and the error outcomes that stand for the source's exceptions. */
module Outcomes {

  datatype Option<+T> = None | Some(value: T)

  /** Why an operation was refused: one constructor for each check that can throw. */
  datatype Error =
    | BadArgument
    | NotWriteable
    | NoSpace
    | WrongTransaction
    | OutOfRange
    | Mismatch
    | BadState
    | SanityFailed
    | Exhausted

  datatype Result<+T> = Ok(value: T) | Err(error: Error)
}
