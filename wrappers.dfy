/** The optional value used wherever the Python builder returns `None`. */
module Wrappers {

  datatype Option<+T> = None | Some(value: T)
}
