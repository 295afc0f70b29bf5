/** Option, for the PHP values that are either a result or `false`/`null`. */
module Wrappers {
  datatype Option<+T> = None | Some(value: T)
}
