/** The optional value used wherever the program returns None or skips a step. */
module Wrappers {

  datatype Option<+T> = None | Some(value: T)
}
