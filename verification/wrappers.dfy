/** The optional-value datatype used by the scanners of this project. */
module Wrappers {

  /** `None` when a search finds nothing, `Some(value)` otherwise. */
  datatype Option<+T> = None | Some(value: T)
}
