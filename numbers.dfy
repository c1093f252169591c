/** Scalar helpers shared by the engines: exact reals stand for the source's
    float64 values, and a division by zero (which NumPy/CuPy turn into an
    infinity or NaN rather than an exception) is made explicit. */
module Numbers {

  /** A float64 result: a finite value, or the infinity/NaN that a division by zero yields. */
  datatype Float = Finite(value: real) | NaNOrInf

  function Min(a: int, b: int): (m: int)
    ensures m <= a && m <= b
    ensures m == a || m == b
  {
    if a <= b then a else b
  }

  function Abs(x: real): (r: real)
    ensures r >= 0.0
    ensures r == x || r == -x
  {
    if x < 0.0 then -x else x
  }

  /** `x / y` on floats: finite exactly when the divisor is non-zero. */
  function Div(x: real, y: real): (r: Float)
    ensures r.Finite? <==> y != 0.0
    ensures r.Finite? ==> r.value * y == x
  {
    if y == 0.0 then NaNOrInf else Finite(x / y)
  }

  lemma NonNegMul(x: real, y: real)
    requires x >= 0.0 && y >= 0.0
    ensures x * y >= 0.0
  {
  }

  lemma PosMul(x: real, y: real)
    requires x > 0.0 && y > 0.0
    ensures x * y > 0.0
  {
  }

  /** Dividing by a positive `y` keeps a lower bound `x >= c * y` as `x / y >= c`. */
  lemma QuotientAtLeast(x: real, y: real, c: real)
    requires y > 0.0 && x >= c * y
    ensures x / y >= c
  {
    var q := x / y;
    assert q * y == x;
    assert (c - q) * y == c * y - q * y;
    if q < c {
      PosMul(c - q, y);
    }
  }

  /** Dividing by a positive `y` keeps an upper bound `x <= c * y` as `x / y <= c`. */
  lemma QuotientAtMost(x: real, y: real, c: real)
    requires y > 0.0 && x <= c * y
    ensures x / y <= c
  {
    var q := x / y;
    assert q * y == x;
    assert (q - c) * y == q * y - c * y;
    if q > c {
      PosMul(q - c, y);
    }
  }

  lemma QuotientPositive(x: real, y: real)
    requires x > 0.0 && y > 0.0
    ensures x / y > 0.0
  {
    var q := x / y;
    assert q * y == x;
    assert (-q) * y == -(q * y);
    if q <= 0.0 {
      NonNegMul(-q, y);
    }
  }

  lemma CancelQuotient(x: real, y: real)
    requires y != 0.0
    ensures (x * y) / y == x
  {
  }
}
