/** Bytes as the wire formats and buffers use them. */
module Octets {
  type byte = b: int | 0 <= b < 256
}
