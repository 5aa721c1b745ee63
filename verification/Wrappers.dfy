/** The one shared sum type for values the Go code returns as possibly nil. */
module Wrappers {
  datatype Option<+T> = None | Some(value: T)
}
