/** The optional value used wherever the converter may find nothing. */
module Wrappers {

  datatype Option<+T> = None | Some(value: T)
}
