// Pointers that may be null, and searches that may find nothing.
module Options {
  datatype Option<+T> = None | Some(value: T)
}
