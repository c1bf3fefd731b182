/** The optional value used wherever the source returns or stores an optional (`T?`). */
module Wrappers {

  datatype Option<+T> = None | Some(value: T)
}
