/** The optional value used wherever the source passes or stores `None`. */
module Wrappers {

  datatype Option<+T> = None | Some(value: T)
}
