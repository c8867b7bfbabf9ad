/** Small shared datatypes. */
module Wrappers {

  /** A value that may be absent: a missing request field, a `null` React state, a failed lookup. */
  datatype Option<+T> = None | Some(value: T)
}
