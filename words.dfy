/** 16-bit words, bytes, the byte/nibble macros of the driver and the
    kernel error codes it returns. */
module Words {

  /** An unsigned 16-bit value (u16). */
  type Word = x: int | 0 <= x < 0x1_0000
  /** An unsigned 8-bit value (u8). */
  type Byte = x: int | 0 <= x < 0x100

  datatype Option<T> = None | Some(value: T)

  // Kernel error numbers, as returned negated by the driver.
  const EIO := 5
  const ENXIO := 6
  const EAGAIN := 11
  const EBUSY := 16
  const EINVAL := 22
  const ERESTARTSYS := 512

  /** BYTEH: the high byte of a word. */
  function ByteH(w: Word): (b: Byte)
    ensures b * 0x100 <= w < (b + 1) * 0x100
  {
    w / 0x100
  }

  /** BYTEL: the low byte of a word. */
  function ByteL(w: Word): (b: Byte)
    ensures ByteH(w) * 0x100 + b == w
  {
    w % 0x100
  }

  /** HI_NIBBLE of a byte. */
  function HiNibble(b: Byte): (n: int)
    ensures 0 <= n < 16 && n * 16 <= b < (n + 1) * 16
  {
    b / 16
  }

  /** LO_NIBBLE of a byte. */
  function LoNibble(b: Byte): (n: int)
    ensures 0 <= n < 16 && HiNibble(b) * 16 + n == b
  {
    b % 16
  }

  /** The word whose high byte is `hi` and low byte is `lo`. */
  function MakeWord(hi: Byte, lo: Byte): (w: Word)
    ensures ByteH(w) == hi && ByteL(w) == lo
  {
    hi * 0x100 + lo
  }

  /** A word truncated to u16 (C assignment of an int to a u16). */
  function U16(x: int): Word
  {
    x % 0x1_0000
  }

  /** A value truncated to u8 (C assignment of an int to a u8). */
  function U8(x: int): Byte
  {
    x % 0x100
  }

  function Min(a: int, b: int): int
  {
    if a <= b then a else b
  }

  /** `s` with `src` written over it from index `at` on (a memcpy into a
      buffer). */
  function Overwrite<T>(s: seq<T>, at: nat, src: seq<T>): (r: seq<T>)
    requires at + |src| <= |s|
    ensures |r| == |s|
    ensures forall k :: 0 <= k < |src| ==> r[at + k] == src[k]
    ensures forall k :: 0 <= k < |s| && !(at <= k < at + |src|) ==> r[k] == s[k]
  {
    s[..at] + src + s[at + |src|..]
  }

  /** Splitting a word into its bytes and joining them again gives the word back. */
  lemma {:induction false} SplitJoin(w: Word)
    ensures MakeWord(ByteH(w), ByteL(w)) == w
  {
  }
}
