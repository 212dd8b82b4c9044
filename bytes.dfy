/** Octets, as Node's Buffer holds them. */
module Bytes {

  type byte = b: int | 0 <= b < 256
}
