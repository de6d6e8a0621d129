/** Octets, as the encoders and the digest produce them. */
module Bytes {

  type Byte = b: int | 0 <= b < 256
}
