/** The optional value used for pronunciations and for "first match" searches. */
module Wrappers {

  datatype Option<+T> = None | Some(value: T)
}
