/** Failure-carrying results: a fallible field inversion yields an Option,
    an operation that the source aborts with a panic yields a Result. */
module Wrappers {

  datatype Option<+T> = None | Some(value: T)

  datatype Result<+T, +E> = Ok(value: T) | Err(error: E)
}
