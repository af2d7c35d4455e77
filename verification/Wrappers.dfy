/** Failure-carrying values and the errors the modelled crates return. */
module Wrappers {

  newtype Byte = n: int | 0 <= n < 256

  datatype Option<+T> = None | Some(value: T)

  /** The error kinds of `DomainError` and `StoreError` that the modelled code can produce. */
  datatype Error =
    | NotFound
    | Invalid
    | Source(retryable: bool)
    | Storage
    | OutOfSpace
    | EmptyName
    | NoPages

  datatype Result<+T> = Ok(value: T) | Err(error: Error)
}
