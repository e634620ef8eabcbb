/** Facts about Euclidean division that the calendar and the block counts rely on. */
module Arith {

  /** Euclidean division is unique: `a == q * g + r` with `0 <= r < g` fixes quotient and remainder. */
  lemma DivModUnique(a: int, g: int, q: int, r: int)
    requires g >= 1 && 0 <= r < g && a == q * g + r
    ensures a / g == q && a % g == r
  {
    var q', r' := a / g, a % g;
    var d := q' - q;
    assert d * g == r - r' by {
      assert a == q' * g + r';
      assert q' * g == q * g + d * g;
    }
    if d >= 1 {
      MulAtLeast(d, g);
    } else if d <= -1 {
      MulAtLeast(-d, g);
    }
  }

  lemma MulAtLeast(d: int, g: int)
    requires d >= 1 && g >= 1
    ensures d * g >= g
  {
    assert d * g == (d - 1) * g + g;
    assert (d - 1) * g >= 0;
  }

  /** Adding one more `g` adds one to the quotient and leaves the remainder. */
  lemma DivModShift(a: int, g: int)
    requires g >= 1
    ensures (a + g) / g == a / g + 1 && (a + g) % g == a % g
  {
    DivModUnique(a + g, g, a / g + 1, a % g);
  }

  function Abs(n: int): nat {
    if n < 0 then -n else n
  }

  /**
   * Python's `%`: the remainder takes the sign of the divisor (floored division), unlike
   * Dafny's Euclidean `%`, whose remainder is never negative.
   */
  function PyMod(a: int, b: int): (r: int)
    requires b != 0
    ensures b > 0 ==> 0 <= r < b
    ensures b < 0 ==> b < r <= 0
  {
    if b > 0 then a % b else -((-a) % (-b))
  }

  /** In Python `a % b == 0` holds exactly when `a` is a multiple of `b`, whatever the sign of `b`. */
  lemma PyModZero(a: int, b: int)
    requires b != 0
    ensures PyMod(a, b) == 0 <==> a % Abs(b) == 0
  {
    if b < 0 {
      var m := -b;
      if a % m == 0 {
        DivModUnique(-a, m, -(a / m), 0);
      }
      if (-a) % m == 0 {
        DivModUnique(a, m, -((-a) / m), 0);
      }
    }
  }
}
