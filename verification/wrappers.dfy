/** The optional value used for PHP variables that may be unset and for
    regex matches that may fail. */
module Wrappers {
  datatype Option<+T> = None | Some(value: T)
}
