/** The unsigned char and the unsigned int of linux-0.11. */
module Bytes {
  type Byte = b: nat | b < 256

  type Word32 = w: nat | w < 0x1_0000_0000
}
