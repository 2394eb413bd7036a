/** Option, the value-or-nothing result used for Go's nil returns. */
module Wrappers {
  datatype Option<+T> = None | Some(value: T)
}
