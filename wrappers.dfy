/** The optional-value datatype used throughout the model. */
module Wrappers {

  /** A value that may be absent: a missing field, an unparseable date, a map miss. */
  datatype Option<+T> = None | Some(value: T)
}
