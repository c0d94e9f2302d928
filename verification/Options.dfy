/** The usual optional value, for C pointers that may be NULL. */
module Options {
  datatype Option<+T> = None | Some(value: T)
}
