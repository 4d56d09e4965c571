/** The two shapes the Go code returns: a value that may be nil, and a
    value paired with an error where exactly one of the two is meaningful. */
module Results {

  datatype Option<+T> = None | Some(value: T)

  datatype Result<+T, +E> = Ok(value: T) | Err(error: E)
}
