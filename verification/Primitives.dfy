/** Bytes, 32-bit words and the characters that count as white space. */
module Primitives {
  const WORD: nat := 0x1_0000_0000

  type Byte = x: nat | x < 256
  type Word = x: nat | x < WORD

  /** The characters that trimming removes and that leave a string blank. */
  predicate IsWhitespace(c: char) {
    || '\U{0009}' <= c <= '\U{000D}' || c == ' ' || c == '\U{0085}' || c == '\U{00A0}' || c == '\U{1680}'
    || '\U{2000}' <= c <= '\U{200A}' || c == '\U{2028}' || c == '\U{2029}' || c == '\U{202F}' || c == '\U{205F}'
    || c == '\U{3000}'
  }
}
