/** The optional value used where the Ruby code yields `nil`. */
module Wrappers {
  datatype Option<+T> = None | Some(value: T)
}
