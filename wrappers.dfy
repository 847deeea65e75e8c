/** The optional value used where the source has `undefined` or a missing field. */
module Wrappers {
  datatype Option<+T> = None | Some(value: T)
}
