/** Failure-carrying values used across the scorer: `Option` for a value that
    may be absent (Python's None), `Result` for a computation that either yields
    a value or fails with an error (a Python exception the caller sees). */
module Wrappers {

  datatype Option<+T> = None | Some(value: T)

  datatype Result<+T, +E> = Ok(value: T) | Err(error: E)
}
