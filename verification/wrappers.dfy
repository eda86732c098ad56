/** The optional value used where the source works with a possibly-absent value. */
module Wrappers {
  datatype Option<+T> = None | Some(value: T)
}
