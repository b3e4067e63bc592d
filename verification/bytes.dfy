/** Octets, the unit both Base 64 and UTF-8 work on. */
module Bytes {

  type Byte = x: int | 0 <= x < 256
}
