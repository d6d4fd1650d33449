/** The optional value used for the fields a toast record may leave undefined. */
module Wrappers {
  datatype Option<+T> = None | Some(value: T)
}
