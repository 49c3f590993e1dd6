/** An 8-bit byte. */
module Octets {
  type byte = x: int | 0 <= x < 256
}
