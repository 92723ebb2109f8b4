/** The optional value used wherever the tracker returns Python's `None`. */
module Wrappers {

  datatype Option<+T> = None | Some(value: T)
}
