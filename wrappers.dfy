/** PHP's nullable values. */
module Wrappers {

  datatype Option<+T> = None | Some(value: T)
}
