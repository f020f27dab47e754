/** The optional value used wherever the application has a "not found" or
    "no result" case. */
module Wrappers {
  datatype Option<+T> = None | Some(value: T)
}
