/** The bytes of the wire formats, as numbers. */
module Bytes {
  type byte = n: int | 0 <= n < 256
}
