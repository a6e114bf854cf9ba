/** The optional result the library returns as `null` when a check fails. */
module Wrappers {
  datatype Option<+T> = None | Some(value: T)
}
