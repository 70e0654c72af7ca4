/** The optional value used wherever Go returns a nil slice or a nil error. */
module Wrappers {
  datatype Option<+T> = None | Some(value: T)
}
