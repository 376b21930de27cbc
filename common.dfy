/** Small shared vocabulary: an optional value and the byte type of file contents. */
module Common {

  datatype Option<+T> = None | Some(value: T)

  /** One octet of a file or an HTTP body. */
  newtype byte = x: int | 0 <= x < 256
}
