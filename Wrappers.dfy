/** The optional value used wherever the Swift code has an Optional (`T?`). */
module Wrappers {

  datatype Option<+T> = None | Some(value: T)
}
