/** The optional-value datatype and the byte type shared by the other modules. */
module Wrappers {

  datatype Option<+T> = None | Some(value: T)

  /** One byte of a file's contents. */
  newtype byte = x: int | 0 <= x < 256
}
