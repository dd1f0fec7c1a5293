/** The optional value used wherever the script tests for `None` or for a
    missing key, instead of raising. */
module Wrappers {

  datatype Option<+T> = None | Some(value: T)
}
