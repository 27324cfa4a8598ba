/** JavaScript strings: sequences of UTF-16 code units. */
module CodeUnits {

  type CodeUnit = u: nat | u < 0x1_0000

  type Text = seq<CodeUnit>

  predicate IsHigh(u: int) {
    0xD800 <= u < 0xDC00
  }

  predicate IsLow(u: int) {
    0xDC00 <= u < 0xE000
  }

  /** The character of a surrogate pair. */
  function Combined(high: int, low: int): (n: int)
    requires IsHigh(high) && IsLow(low)
    ensures 0x1_0000 <= n <= 0x10_FFFF
  {
    0x1_0000 + (high - 0xD800) * 1024 + (low - 0xDC00)
  }
}
