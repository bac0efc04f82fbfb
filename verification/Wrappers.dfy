/** A value that may be absent. */
module Wrappers {
  datatype Option<+A> = None | Some(value: A)
}
