/** The possibly-missing value: NULL pointers and failed allocations. */
module Options {
  datatype Option<+T> = None | Some(value: T)
}
