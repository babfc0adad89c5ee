/** A value that may be missing. */
module Options {
  datatype Option<T> = None | Some(value: T)
}

/** The result of an operation that a fatal error may end, and the process with it. */
module Results {
  datatype Result<T> = Fatal | Ok(value: T)
}
