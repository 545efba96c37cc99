/** The optional value used for the C code's nullable pointers: `None` stands for NULL. */
module Wrappers {

  datatype Option<+T> = None | Some(value: T)
}
