/** Small facts about real arithmetic. Each nonlinear step is stated over
    plain real parameters, so that callers apply it to their own terms one
    step at a time. */
module Arith {

  function Abs(x: real): (r: real)
    ensures r >= 0.0
    ensures r == x || r == -x
  {
    if x < 0.0 then -x else x
  }

  /** The square of a real. */
  function Sq(d: real): real
  {
    d * d
  }

  lemma MulNonNegative(a: real, b: real)
    requires a >= 0.0 && b >= 0.0
    ensures a * b >= 0.0
  {
  }

  lemma MulMonotone(a: real, b: real, c: real)
    requires a >= b && c >= 0.0
    ensures a * c >= b * c
  {
  }

  lemma MulPositive(a: real, b: real)
    requires a > 0.0 && b > 0.0
    ensures a * b > 0.0
  {
  }

  lemma DivNonNegative(a: real, b: real)
    requires a >= 0.0 && b > 0.0
    ensures a / b >= 0.0
  {
  }

  lemma AddOne(n: real, c: real)
    ensures (n + 1.0) * c == c + n * c
  {
  }

  /** Dividing by a positive `n` keeps a value between `n * lo` and `n * hi`
      between `lo` and `hi`. */
  lemma DivBounded(a: real, n: real, lo: real, hi: real)
    requires n > 0.0 && n * lo <= a <= n * hi
    ensures lo <= a / n <= hi
  {
    var q := a / n;
    assert a == q * n;
    if q < lo {
      MulStrictMonotone(lo, q, n);
    }
    if q > hi {
      MulStrictMonotone(q, hi, n);
    }
  }

  lemma MulStrictMonotone(a: real, b: real, c: real)
    requires a > b && c > 0.0
    ensures a * c > b * c
  {
    MulPositive(a - b, c);
  }

  /** A square is never negative. */
  lemma SquareNonNegative(d: real)
    ensures Sq(d) >= 0.0
  {
    if d < 0.0 {
      MulNonNegative(-d, -d);
      assert d * d == (-d) * (-d);
    } else {
      MulNonNegative(d, d);
    }
  }

  /** Squaring is strictly monotone on the non-negative reals. */
  lemma SquareStrictlyMonotone(a: real, b: real)
    requires 0.0 <= b < a
    ensures b * b < a * a
  {
    MulPositive(a - b, a + b);
    assert (a - b) * (a + b) == a * a - b * b;
  }

  /** Squaring is monotone on the non-negative reals. */
  lemma SquareMonotone(a: real, b: real)
    requires 0.0 <= b <= a
    ensures b * b <= a * a
  {
    MulMonotone(a, b, b);
    MulMonotone(a, b, a);
    assert b * a == a * b;
  }

  /** For non-negative reals, comparing them is the same as comparing their squares. */
  lemma CompareSquares(a: real, b: real)
    requires a >= 0.0 && b >= 0.0
    ensures a > b <==> a * a > b * b
  {
    if a > b {
      SquareStrictlyMonotone(a, b);
    } else {
      SquareMonotone(b, a);
    }
  }

  /** Exponential smoothing: the weight `alpha` on the new value `a`, the
      rest on the running value `b`. */
  function Blend(alpha: real, a: real, b: real): real
  {
    alpha * a + (1.0 - alpha) * b
  }

  /** A convex combination `r = alpha * x + (1 - alpha) * e` with
      `0 <= alpha <= 1` lies between `e` and `x`, inclusive, and is `e` moved
      toward `x` by the fraction `alpha` of the gap. */
  lemma BlendBetween(alpha: real, x: real, e: real, r: real)
    requires 0.0 <= alpha <= 1.0
    requires r == alpha * x + (1.0 - alpha) * e
    ensures e <= x ==> e <= r <= x
    ensures x <= e ==> x <= r <= e
    ensures r - e == alpha * (x - e)
  {
    BlendGap(alpha, x, e, r);
    if e <= x {
      MulNonNegative(alpha, x - e);
      MulMonotone(1.0, alpha, x - e);
    } else {
      MulNonNegative(alpha, e - x);
      MulMonotone(1.0, alpha, e - x);
      assert alpha * (x - e) == -(alpha * (e - x));
    }
  }

  lemma BlendGap(alpha: real, x: real, e: real, r: real)
    requires r == alpha * x + (1.0 - alpha) * e
    ensures r - e == alpha * (x - e)
  {
  }

  /** A convex combination of non-negative reals is non-negative. */
  lemma BlendNonNegative(alpha: real, a: real, b: real)
    requires 0.0 <= alpha <= 1.0
    requires a >= 0.0 && b >= 0.0
    ensures alpha * a + (1.0 - alpha) * b >= 0.0
  {
    MulNonNegative(alpha, a);
    MulNonNegative(1.0 - alpha, b);
  }

  /** Blending a value with itself gives that value back. */
  lemma BlendSame(alpha: real, c: real)
    ensures alpha * c + (1.0 - alpha) * c == c
  {
  }
}
