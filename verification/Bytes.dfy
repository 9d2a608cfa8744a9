/** Bytes, and the result of reading a value off the front of a byte string. */
module Bytes {
  type byte = b: int | 0 <= b < 0x100

  type bytes = seq<byte>

  /** `used` is how many bytes the value took; a malformed or truncated value has none. */
  datatype Read<+T> = Malformed | Got(value: T, used: nat)
}
