/** The optional value that stands in for Python's `None`-or-value results. */
module Wrappers {

  /** `None` models Python's `None`; `Some(v)` a present value. */
  datatype Option<+T> = None | Some(value: T)
}
