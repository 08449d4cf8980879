/** Failure-compatible result types shared by the modules of the model. */
module Wrappers {

  /** A value that may be missing: the model's stand-in for a NaN pixel or a not-found search. */
  datatype Option<+T> = None | Some(value: T)
}
