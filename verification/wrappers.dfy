/** The optional-value type the C code expresses with NULL pointers and -1 sentinels. */
module Wrappers {

  datatype Option<+T> = None | Some(value: T)
}
