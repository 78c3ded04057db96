/** Values shared by the models. */
module Values {
  datatype Option<T> = None | Some(value: T)

  /** A byte as a number. */
  type Byte = b: int | 0 <= b < 256

  /** A byte as eight bits. */
  type Octet = bv8
}
