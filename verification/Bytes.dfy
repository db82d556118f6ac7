/** Bytes, as they travel between the terminal and the port. */
module Bytes {
  type byte = b: int | 0 <= b < 256

  const NUL: byte := 0
  const BS: byte := 8
  const TAB: byte := 9
  const LF: byte := 10
  const CR: byte := 13
  const DEL: byte := 127
}
