/** A value that may be absent: a null pointer, an end iterator, a lookup that finds nothing. */
module Wrappers {
  datatype Option<+T> = None | Some(value: T)
}
