/** The byte of the codecs and buffers. */
module Octets {
  type byte = x: int | 0 <= x < 256
}
