/** Java references that may be null. */
module Wrappers {

  /** `None` stands for a Java `null`; `Some(v)` for a non-null reference to `v`. */
  datatype Option<+T> = None | Some(value: T)
}
