/** A value the program may not have. */
module Wrappers {
  datatype Option<+T> = None | Some(value: T)
}
