/** Bytes, as memory buffers and devices hold them. */
module ByteType {
  type byte = b: int | 0 <= b < 256
}
