/** The octet type shared by the byte-level parsers. */
module Bytes {
  /** One byte of a buffer, section or packet. */
  type Byte = bv8
}
