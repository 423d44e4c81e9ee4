/** The nil-or-value shape that the Go code expresses with pointers and `err == nil`. */
module Wrappers {

  datatype Option<+T> = None | Some(value: T)
}
