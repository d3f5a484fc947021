/** Bytes, as the heap and the descriptors hold them. */
module Bytes {

  type byte = x: int | 0 <= x < 256
}
