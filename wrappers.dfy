/** Failure-carrying values: an optional value, and a result that is either a
    value or the error that aborted the computation (the model's stand-in for
    a raised exception). */
module Wrappers {

  datatype Option<+T> = None | Some(value: T)

  datatype Result<+T, +E> = Ok(value: T) | Err(error: E)
}

/** Octets, as Python's `bytes` holds them. */
module Bytes {

  type Byte = x: int | 0 <= x < 256
}
