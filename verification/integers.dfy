/** The limits of fixed-width integers, and what 64-bit arithmetic makes of a value. */
module Integers {

  const MaxInt32 := 0x7fff_ffff
  const MinInt32 := -0x8000_0000
  const MaxInt64 := 0x7fff_ffff_ffff_ffff
  const MinInt64 := -0x8000_0000_0000_0000

  predicate IsInt64(x: int) { MinInt64 <= x <= MaxInt64 }

  function Wrap64(x: int): (r: int)
    ensures IsInt64(r) && (IsInt64(x) ==> r == x)
  {
    (x - MinInt64) % 0x1_0000_0000_0000_0000 + MinInt64
  }

  /** A sum of two numbers that overflows comes out negative. */
  lemma WrapsDown(x: int)
    requires MaxInt64 < x <= 2 * MaxInt64
    ensures Wrap64(x) == x - 0x1_0000_0000_0000_0000 < 0
  {
  }
}
