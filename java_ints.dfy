/** Java's 64-bit `long` and the narrowing cast `(int)` the 32-bit code path applies to it. */
module JavaInts {

  const TWO_32: int := 0x1_0000_0000
  const MIN_INT: int := -0x8000_0000
  const MAX_INT: int := 0x7FFF_FFFF

  /** Java's `long`. */
  newtype int64 = x: int | -0x8000_0000_0000_0000 <= x < 0x8000_0000_0000_0000

  /** The range of Java's `int`. */
  predicate IsInt(x: int) {
    MIN_INT <= x <= MAX_INT
  }

  /**
   * `(long) (int) v`: the low 32 bits of `v` read back as a two's-complement `int`,
   * then widened (sign-extended) to a `long`.
   */
  function ToInt(v: int64): (r: int64)
    ensures IsInt(r as int)
    ensures (r as int - v as int) % TWO_32 == 0
  {
    var low := v as int % TWO_32;
    if low <= MAX_INT then low as int64 else (low - TWO_32) as int64
  }

  /** The two facts of ToInt's contract determine its result: an `int` congruent to `v` is ToInt(v). */
  lemma ToIntUnique(v: int64, r: int)
    requires IsInt(r)
    requires (r - v as int) % TWO_32 == 0
    ensures r == ToInt(v) as int
  {
    var q := ToInt(v) as int;
    assert (r - q) % TWO_32 == 0 by {
      assert (r - v as int) % TWO_32 == 0 && (q - v as int) % TWO_32 == 0;
      assert r - q == (r - v as int) - (q - v as int);
    }
    assert -TWO_32 < r - q < TWO_32;
  }

  /** The cast changes a value exactly when the value lies outside the `int` range. */
  lemma ToIntIdentity(v: int64)
    ensures ToInt(v) == v <==> IsInt(v as int)
  {
    if IsInt(v as int) {
      ToIntUnique(v, v as int);
    }
  }
}
