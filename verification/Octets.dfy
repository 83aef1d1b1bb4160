/** What texts are encoded to, sealed and authenticated as. */
module Octets {
  type Byte = x: int | 0 <= x < 256
}
