/** Option datatype used for the NULL results of the loaders and for searches. */
module Wrappers {

  datatype Option<+T> = None | Some(value: T)
}
