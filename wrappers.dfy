/** Option: a value, or the absence of one (used where the source can raise). */
module Wrappers {
  datatype Option<+T> = None | Some(value: T)
}
