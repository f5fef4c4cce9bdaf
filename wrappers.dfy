/** Optional values: None stands for Ruby's nil (and, for option values, false). */
module Wrappers {
  datatype Option<+T> = None | Some(value: T)
}
