/** Octets, as produced by Node's Buffer and consumed by its base64 encoder. */
module Bytes {

  type byte = b: int | 0 <= b < 256
}
