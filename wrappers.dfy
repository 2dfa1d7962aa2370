/** The optional result returned by a lookup that may find nothing. */
module Wrappers {

  datatype Option<+T> = None | Some(value: T)
}
