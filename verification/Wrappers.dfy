/** A value that may be missing. */
module Wrappers {
  datatype Option<+X> = None | Some(value: X)
}
