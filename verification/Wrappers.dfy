/** The optional value both components use for a pointer or result that may be absent. */
module Wrappers {
  datatype Option<+T> = None | Some(value: T)
}
