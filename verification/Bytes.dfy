/** Bytes as numbers, for the protocols that do arithmetic on them. */
module Bytes {
  type byte = b: int | 0 <= b < 256
}
