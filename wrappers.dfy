/** Ruby's `nil` as a value: `None` is nil, `Some(v)` a present value. */
module Wrappers {
  datatype Option<+T> = None | Some(value: T)
}
