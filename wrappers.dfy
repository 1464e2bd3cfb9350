/** The optional value used where the Ruby source yields `nil`. */
module Wrappers {
  datatype Option<+T> = None | Some(value: T)
}
