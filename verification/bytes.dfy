/** Bytes, words and streams cut into chunks, as the codecs share them. */
module Bytes {

  type Byte = n: int | 0 <= n < 0x100

  type Word = n: int | 0 <= n < 0x1_0000

  /** Two bytes, the more significant one first. */
  function Join(msb: int, lsb: int): int {
    msb * 0x100 + lsb
  }

  /** A stream from its chunks, or from its packets. */
  function Concat<T>(chunks: seq<seq<T>>): seq<T> {
    if chunks == [] then [] else chunks[0] + Concat(chunks[1..])
  }
}
