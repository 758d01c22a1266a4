/** Octets, the unit `Buffer` works in. */
module Bytes {
  type byte = x: int | 0 <= x < 256
}
