/** The conventional optional-value datatype, used for Python's `None`. */
module Wrappers {

  datatype Option<+T> = None | Some(value: T)
}
