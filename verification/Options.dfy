/** Stand-ins for Python values that may be `None` and for calls that may raise `ValueError`. */
module Options {
  datatype Option<+T> = None | Some(value: T)

  datatype Result<+T> = Ok(value: T) | ValueError(message: string)
}
