/** Small failure-carrying datatypes shared by the codec modules. */
module Common {

  datatype Option<T> = None | Some(value: T)

  /** The Python source signals failures by raising; the model returns them. */
  datatype Result<T> = Ok(value: T) | Err(msg: string)

  /** A byte value, as produced by `ord` and consumed by `bytearray`. */
  type Byte = x: int | 0 <= x < 256
}
