/** The optional value used for a file that may be absent and for a match that may not exist. */
module Wrappers {

  datatype Option<+T> = None | Some(value: T)
}
