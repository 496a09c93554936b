/** Eight-bit bytes, as streams and files carry them. */
module Octets {
  type Byte = x: int | 0 <= x < 256

  type Bytes = seq<Byte>
}
