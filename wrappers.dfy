/** The optional value used wherever the source has an `Option` or a read that can fail. */
module Wrappers {
  datatype Option<+T> = None | Some(value: T)
}
