/** Integers of 64 and 32 bits: words, signed integers, and Go's conversions between them. */
module Machine {
  const TWO64: nat := 0x1_0000_0000_0000_0000

  /** Go's uint64. */
  type Word = w: int | 0 <= w < 0x1_0000_0000_0000_0000

  /** Go's int and int64. */
  type Int64 = x: int | -0x8000_0000_0000_0000 <= x < 0x8000_0000_0000_0000

  const MIN_INT: Int64 := -0x8000_0000_0000_0000
  const MAX_INT: Int64 := 0x7fff_ffff_ffff_ffff

  /** int64(w) of a word. */
  function ToInt64(w: Word): Int64 {
    if w < 0x8000_0000_0000_0000 then w else w - TWO64
  }

  /** int64(x): what overflows wraps around. */
  function Wrap(x: int): (r: Int64)
    ensures MIN_INT <= x <= MAX_INT ==> r == x
  {
    if MIN_INT <= x <= MAX_INT then x else (x + 0x8000_0000_0000_0000) % TWO64 - 0x8000_0000_0000_0000
  }

  /** uint64(x): the two's complement bits of an integer. */
  function ToWord(x: int): Word {
    if 0 <= x < TWO64 then x else x % TWO64
  }

  function Min(x: int, y: int): int {
    if x < y then x else y
  }

  function Max(x: int, y: int): int {
    if x > y then x else y
  }

  const MAX_INT32 := 0x7fff_ffff

  type Int32 = x: int | -0x8000_0000 <= x <= 0x7fff_ffff

  /** int32(x) */
  function WrapInt32(x: int): (w: Int32)
    ensures -0x8000_0000 <= x <= 0x7fff_ffff ==> w == x
  {
    if -0x8000_0000 <= x <= 0x7fff_ffff then x else (x + 0x8000_0000) % 0x1_0000_0000 - 0x8000_0000
  }

  type Int16 = x: int | -0x8000 <= x <= 0x7fff

  /** int16(x) */
  function WrapInt16(x: int): (w: Int16)
    ensures -0x8000 <= x <= 0x7fff ==> w == x
  {
    if -0x8000 <= x <= 0x7fff then x else (x + 0x8000) % 0x1_0000 - 0x8000
  }
}
