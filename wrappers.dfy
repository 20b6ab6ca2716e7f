/** The optional value used for "found / not found" results. */
module Wrappers {
  datatype Option<+T> = None | Some(value: T)
}
