/** The optional value used for "no code point here" (the reader's -1 sentinel). */
module Wrappers {

  datatype Option<+T> = None | Some(value: T)
}
