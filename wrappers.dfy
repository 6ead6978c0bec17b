/** The absent-or-present value used throughout the model: JavaScript's `undefined`
    on one side, an actual value on the other. */
module Wrappers {

  datatype Option<+T> = None | Some(value: T)
}
