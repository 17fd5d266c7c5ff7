/** Failure-compatible wrapper used for lookups that may miss. */
module Wrappers {

  /** `None` stands for Go's `(nil, false)` pair, `Some(v)` for `(v, true)`. */
  datatype Option<+T> = None | Some(value: T)
}
