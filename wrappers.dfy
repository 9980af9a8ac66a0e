/** The Option datatype shared by the attendance model. */
module Wrappers {

  datatype Option<+T> = None | Some(value: T)
}
