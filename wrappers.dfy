/** An optional result, `None` for a malformed input. */
module Wrappers {

  datatype Option<+T> = None | Some(value: T)
}
