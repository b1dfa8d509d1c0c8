/** Python's `None` for the two fields of a match result. */
module Wrappers {

  datatype Option<+T> = None | Some(value: T)
}
