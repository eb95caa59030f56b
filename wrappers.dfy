/** PHP's "a value or `false`" returns. */
module Wrappers {
  datatype Option<T> = None | Some(value: T)
}
