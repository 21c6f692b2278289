/** Rust's `i64`: the width of every reading the collector parses, stores and publishes. */
module Int64 {

  const MIN: int := -0x8000_0000_0000_0000
  const MAX: int := 0x7fff_ffff_ffff_ffff
  const MODULUS: int := 0x1_0000_0000_0000_0000

  type i64 = x: int | MIN <= x <= MAX

  predicate InRange(x: int)
  {
    MIN <= x <= MAX
  }

  /** Two's-complement wrap-around of an unbounded integer into `i64`, which is what
      an unchecked `-` on `i64` does in a release build. */
  function Wrap(x: int): (r: i64)
    ensures InRange(x) ==> r == x
    ensures (x - r) % MODULUS == 0
  {
    (x - MIN) % MODULUS + MIN
  }
}
