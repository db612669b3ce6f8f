/** Rust's `Option`: a value that may be absent. */
module Wrappers {

  /** `None` is the absent value; `Some(value)` carries a result. */
  datatype Option<+T> = None | Some(value: T)
}
