/** Types shared by the driver and the server. */
module Basics {
  type Byte = b: int | 0 <= b < 256

  datatype Option<T> = None | Some(value: T)
}
