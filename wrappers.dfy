/** The absent-or-present value used wherever the source stores `null`. */
module Wrappers {
  datatype Option<+T> = None | Some(value: T)
}
