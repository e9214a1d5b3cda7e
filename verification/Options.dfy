/** The two wrappers every other module shares: a pointer that may be nil, and a value or an error. */
module Options {
  datatype Option<+T> = None | Some(value: T)

  datatype Result<+T, +E> = Ok(value: T) | Err(error: E)
}
