/** Fixed-width integers: int64 and time.Duration, int32, and the unsigned counters. */
module Int64 {

  const TWO_31: int := 0x8000_0000
  const TWO_32: int := 0x1_0000_0000
  const TWO_63: int := 0x8000_0000_0000_0000
  const TWO_64: int := 0x1_0000_0000_0000_0000
  const MAX_INT32: int := TWO_31 - 1
  const UINT_MAX: int := TWO_64 - 1

  lemma Widths()
    ensures TWO_32 == 2 * TWO_31 && TWO_64 == 2 * TWO_63 == TWO_32 * TWO_32
  {
  }

  predicate Fits64(x: int) {
    -TWO_63 <= x < TWO_63
  }

  /** The int64 that a mathematical result wraps to. */
  function Wrap64(x: int): (r: int)
    ensures Fits64(r) && (x - r) % TWO_64 == 0
    ensures Fits64(x) ==> r == x
  {
    (x + TWO_63) % TWO_64 - TWO_63
  }

  /** x++ and x - 1 of an int32. */
  function Next32(x: int): int {
    if x == MAX_INT32 then -TWO_31 else x + 1
  }

  function Previous32(x: int): int {
    if x == -TWO_31 then MAX_INT32 else x - 1
  }

  /** Results that differ by a multiple of 2^64 wrap to the same. */
  lemma WrapUnique(x: int, y: int, k: int)
    requires x == y + k * TWO_64
    ensures Wrap64(x) == Wrap64(y)
  {
    var q, r := (y + TWO_63) / TWO_64, (y + TWO_63) % TWO_64;
    assert x + TWO_63 == (q + k) * TWO_64 + r;
  }

  lemma WrapPastTop(x: int)
    requires TWO_63 <= x < TWO_64
    ensures Wrap64(x) < 0
  {
  }
}
