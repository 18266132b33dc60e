module Bytes {
  /** An `unsigned char`. */
  type byte = b: nat | b < 256
}
