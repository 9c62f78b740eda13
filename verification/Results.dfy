/** A value that may be missing, and an operation that may end the script. */
module Results {
  datatype Option<+T> = None | Some(value: T)

  datatype Result<+T> = Ok(value: T) | Fatal(message: string)
}
