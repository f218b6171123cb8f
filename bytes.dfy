/** Symbols shared by both codecs: the bytes of the input buffer and the bits of a code. */
module Bytes {

  /** One byte of the input buffer. The source stores it in a C++ `char`; the model uses its unsigned value. */
  type Byte = x: int | 0 <= x < 256

  /** One bit of a Huffman code; the source writes it as the character '0' or '1'. */
  type Bit = x: int | 0 <= x < 2
}
