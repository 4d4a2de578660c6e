/** The absent-or-present value that JavaScript expresses with `null`. */
module Wrappers {

  datatype Option<+T> = None | Some(value: T)
}
