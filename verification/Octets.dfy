/** Bytes as numbers. */
module Octets {
  type Byte = b: nat | b < 256
}
