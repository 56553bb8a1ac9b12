/** The optional value used wherever the navigator may find nothing. */
module Wrappers {

  datatype Option<+T> = None | Some(value: T)
}
