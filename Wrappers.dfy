/** Option, used for Go's `error` results (None is nil) and for lookups that may miss. */
module Wrappers {

  datatype Option<+T> = None | Some(value: T)
}
