/** The unit the codecs and the crypto layer work in. */
module Bytes {
  /** A byte: the unit of the UTF-8 and base64 codecs, and of a "binary string". */
  type Byte = b: int | 0 <= b < 256
}
