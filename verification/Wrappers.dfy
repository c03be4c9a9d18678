/**
 Results shared by the models: a value that may be missing, and the outcome of an operation
 that the source may stop with a fatal error.
 */
module Wrappers {
  datatype Option<T> = None | Some(value: T)

  datatype Outcome<T> = Done(value: T) | Aborted
}
