/** The code units of UTF-16. */
module Utf16 {
  predicate Unit(u: int) {
    0 <= u < 0x10000
  }

  ghost predicate Units(t: seq<int>) {
    forall i | 0 <= i < |t| :: Unit(t[i])
  }

  predicate High(u: int) {
    0xD800 <= u < 0xDC00
  }

  predicate Low(u: int) {
    0xDC00 <= u < 0xE000
  }
}
