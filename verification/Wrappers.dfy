/** The result of an operation that may fail, and bytes. */
module Wrappers {

  datatype Option<+T> = None | Some(value: T)

  newtype Byte = x: int | 0 <= x < 256

  type Bytes = seq<Byte>
}
