/** A result that may be missing: a NULL pointer or an error return. */
module Options {
  datatype Option<+T> = None | Some(value: T)
}
