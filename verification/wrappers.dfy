/** A value that may still be undefined. */
module Wrappers {

  /** `None` stands for a value that is still `undefined`; `Some(v)` for a defined one. */
  datatype Option<+T> = None | Some(value: T)
}
