/** The optional value used wherever the program has null, undefined or a nil error. */
module Wrappers {

  datatype Option<+T> = None | Some(value: T)
}
