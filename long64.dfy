/**
 * Kotlin's 64-bit `Long`, in which the activity keeps its timestamps
 * (milliseconds from `System.currentTimeMillis()`).
 */
module Long64 {
  const MinLong: int := -0x8000_0000_0000_0000
  const MaxLong: int := 0x7FFF_FFFF_FFFF_FFFF
  const Modulus: int := 0x1_0000_0000_0000_0000

  type Long = x: int | MinLong <= x <= MaxLong

  /** `a - b` on `Long`: two's-complement subtraction, which wraps around modulo 2^64. */
  function Minus(a: Long, b: Long): (r: Long)
    ensures (a - b - r) % Modulus == 0
    ensures MinLong <= a - b <= MaxLong ==> r == a - b
  {
    var d := a - b;
    if d > MaxLong then d - Modulus
    else if d < MinLong then d + Modulus
    else d
  }

  /** Two readings of the same sign never overflow when subtracted. */
  lemma MinusSameSignExact(a: Long, b: Long)
    requires (0 <= a && 0 <= b) || (a < 0 && b < 0)
    ensures Minus(a, b) == a - b
  {
  }

  /** The subtraction is the unique `Long` congruent to the true difference. */
  lemma MinusUnique(a: Long, b: Long, r: Long)
    requires (a - b - r) % Modulus == 0
    ensures r == Minus(a, b)
  {
  }
}
