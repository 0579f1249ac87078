/**
 * The few Java language facts the model relies on: 32-bit int arithmetic
 * with wrap-around, String.hashCode, and string prefixes.
 */
module JavaLang {
  const TWO_32: int := 0x1_0000_0000
  const TWO_31: int := 0x8000_0000

  predicate IsInt32(x: int) {
    -TWO_31 <= x < TWO_31
  }

  /** The Java int a mathematical integer wraps around to. */
  function Wrap32(x: int): (r: int)
    ensures IsInt32(r)
    ensures (r - x) % TWO_32 == 0
    ensures IsInt32(x) ==> r == x
  {
    (x + TWO_31) % TWO_32 - TWO_31
  }

  /** Java's `31 * a + b` on ints. */
  function Mul31Add(a: int, b: int): int {
    Wrap32(31 * a + b)
  }

  /** String.hashCode: h = 31 * h + c over the characters, in int arithmetic. */
  function StringHashCode(s: string): (h: int)
    ensures IsInt32(h)
    decreases |s|
  {
    if |s| == 0 then 0 else Mul31Add(StringHashCode(s[..|s| - 1]), s[|s| - 1] as int)
  }

  predicate StartsWith(s: string, prefix: string) {
    |prefix| <= |s| && s[..|prefix|] == prefix
  }

  predicate EndsWith(s: string, suffix: string) {
    |suffix| <= |s| && s[|s| - |suffix|..] == suffix
  }
}
