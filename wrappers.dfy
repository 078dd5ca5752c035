/** The optional-value datatype shared by the modules of this model. */
module Wrappers {

  /** A value that may be absent: a log array the store does not hold, a search that finds nothing. */
  datatype Option<T> = None | Some(value: T)
}
