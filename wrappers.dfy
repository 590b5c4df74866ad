/** Optional values (Go's nilable `*T`) and fallible results (Go's `(T, error)` pairs). */
module Wrappers {

  /** `None` stands for a nil `*T`, `Some(v)` for a `*T` holding `v`. */
  datatype Option<+T> = None | Some(value: T)

  /** The outcome of a Go call returning `(value, error)`: the error is its message. */
  datatype Result<+T> = Ok(value: T) | Err(error: string)
}
