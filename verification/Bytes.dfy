/** The machine integers the programs share. */
module Bytes {
  type byte = bv8
  type word = bv32

  /** Four bytes as one 32-bit word, least significant byte first. */
  function Word(b0: byte, b1: byte, b2: byte, b3: byte): word {
    (b0 as word) | ((b1 as word) << 8) | ((b2 as word) << 16) | ((b3 as word) << 24)
  }

  /** Byte `k` of a word, counted from the least significant one. */
  function ByteOf(w: word, k: nat): byte
    requires k < 4
  {
    match k
    case 0 => (w & 0xff) as byte
    case 1 => ((w >> 8) & 0xff) as byte
    case 2 => ((w >> 16) & 0xff) as byte
    case 3 => ((w >> 24) & 0xff) as byte
  }

  /** A word holds exactly the bytes it was made from. */
  lemma WordBytes(b0: byte, b1: byte, b2: byte, b3: byte)
    ensures ByteOf(Word(b0, b1, b2, b3), 0) == b0
    ensures ByteOf(Word(b0, b1, b2, b3), 1) == b1
    ensures ByteOf(Word(b0, b1, b2, b3), 2) == b2
    ensures ByteOf(Word(b0, b1, b2, b3), 3) == b3
  {
  }
}
