/** The optional value used for "the image header seen so far". */
module Wrappers {

  datatype Option<+T> = None | Some(value: T)
}
