/** A value that may be missing: a null result, a fault, or no entry. */
module Wrappers {
  datatype Option<+T> = None | Some(value: T)
}
