/** The bytes of streams and files. */
module Bytes {
  newtype byte = x: int | 0 <= x < 256
}
