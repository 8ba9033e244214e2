/** The optional result the pools use where the C++ code returns a pointer
    that may be `nullptr`. */
module Wrappers {

  datatype Option<+T> = None | Some(value: T)
}
