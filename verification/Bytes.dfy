/** Bytes are numbers below 256. */
module Bytes {
  type Byte = x: int | 0 <= x < 256
  type Blob = seq<Byte>
}
