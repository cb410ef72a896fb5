/** Unsigned machine integers of the AVR target: `byte` (8 bits) and
    `word` (16 bits), and the big-endian split of a word into two bytes
    that the EEPROM slots, the IP registers and the master frame all use. */
module Bytes {

  type byte = x: int | 0 <= x < 0x100
  type word = x: int | 0 <= x < 0x1_0000

  /** `(byte)(w >> 8)` */
  function Hi(w: word): byte
  {
    w / 0x100
  }

  /** `(byte)(w & 0xff)` */
  function Lo(w: word): byte
  {
    w % 0x100
  }

  /** `(hi << 8) + lo`: the word whose high byte is `hi` and low byte is `lo`. */
  function WordOf(hi: byte, lo: byte): word
  {
    hi * 0x100 + lo
  }

  /** Joining two bytes into a word and splitting it gives them back. */
  lemma JoinSplit(hi: byte, lo: byte)
    ensures Hi(WordOf(hi, lo)) == hi && Lo(WordOf(hi, lo)) == lo
  {
  }

  /** Splitting a word into its two bytes and joining them gives it back. */
  lemma SplitJoin(w: word)
    ensures WordOf(Hi(w), Lo(w)) == w
  {
  }

  /** Two byte pairs that join to the same word are the same pair. */
  lemma JoinInjective(a: byte, b: byte, c: byte, d: byte)
    requires WordOf(a, b) == WordOf(c, d)
    ensures a == c && b == d
  {
    JoinSplit(a, b);
    JoinSplit(c, d);
  }
}
