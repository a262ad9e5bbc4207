/** Values shared by every module: optional values and bytes. */
module Base {

  /** A value that may be absent: PHP's `null`, or a JSON key that is not set. */
  datatype Option<T> = None | Some(value: T) {
    function GetOr(default: T): T {
      match this
      case Some(v) => v
      case None => default
    }
  }

  /** One octet, as produced by `random_bytes`. */
  newtype byte = x: int | 0 <= x < 256
}
