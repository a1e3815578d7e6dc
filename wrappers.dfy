/** The optional value used for a missing upload and a failed open. */
module Wrappers {

  datatype Option<+T> = None | Some(value: T)
}
