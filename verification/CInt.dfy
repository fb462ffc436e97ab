/**
 * C integer semantics the sources rely on: `/` and `%` on `int` truncate
 * toward zero, `DWORD` arithmetic wraps modulo 2^32, and a `DWORD` cast to
 * `int` reinterprets the top bit as a sign.
 */
module CInt {
  import opened Align

  const TWO_32: int := 0x1_0000_0000
  const TWO_31: int := 0x8000_0000

  /** A value of a 32-bit unsigned `DWORD`. */
  type dword = x: int | 0 <= x < TWO_32

  /** C's `a / b` on signed integers: the quotient truncated toward zero. */
  function Quot(a: int, b: int): (q: int)
    requires b > 0
    ensures a >= 0 ==> 0 <= a - q * b < b
    ensures a < 0 ==> -b < a - q * b <= 0
  {
    if a >= 0 then a / b else -((-a) / b)
  }

  /** C's `a % b`: the remainder whose sign follows the dividend. */
  function Rem(a: int, b: int): (r: int)
    requires b > 0
    ensures a >= 0 ==> 0 <= r < b
    ensures a < 0 ==> -b < r <= 0
  {
    a - Quot(a, b) * b
  }

  /** Unsigned 32-bit subtraction, as `DWORD - DWORD` computes it. */
  function SubU32(a: dword, b: dword): (r: dword)
    ensures (r + b) % TWO_32 == a
    ensures a >= b ==> r == a - b
    ensures a < b ==> r == a - b + TWO_32
  {
    (a - b) % TWO_32
  }

  /** Unsigned 32-bit addition. */
  function AddU32(a: dword, b: dword): (r: dword)
    ensures a + b < TWO_32 ==> r == a + b
    ensures a + b >= TWO_32 ==> r == a + b - TWO_32
  {
    (a + b) % TWO_32
  }

  /** The `(int)` cast of a `DWORD` on a two's-complement 32-bit target. */
  function ToInt32(x: dword): (r: int)
    ensures -TWO_31 <= r < TWO_31
    ensures r % TWO_32 == x
    ensures x < TWO_31 ==> r == x
  {
    if x < TWO_31 then x else x - TWO_32
  }

  /** A quotient and remainder that put `a` back together are the ones `/` and `%` compute. */
  lemma DivModUnique(a: int, b: int, q: int, r: int)
    requires b > 0 && a == q * b + r && 0 <= r < b
    ensures a / b == q && a % b == r
  {
    assert b * (q - a / b) == a % b - r;
    SmallMultipleIsZero(b, q - a / b);
  }

  /**
   * Halving a span with C's truncating division splits it into two parts
   * that differ by at most one: this is what "centred" means for integer
   * layouts such as `(outer - inner) / 2 + left`.
   */
  lemma HalfSplit(n: int)
    ensures var h := Quot(n, 2); -1 <= (n - h) - h <= 1
  {
  }
}
