/** Conversions between GH/s integers and fractions of a miner, with Go's float64 taken as a real. */
module Arithmetic {

  type pos = n: int | n > 0 witness 1

  /** Go's int(x): the fractional part is dropped, toward zero. */
  function Truncate(x: real): (n: int)
    ensures x >= 0.0 ==> n as real <= x < n as real + 1.0 && n >= 0
    ensures x <= 0.0 ==> n as real - 1.0 < x <= n as real && n <= 0
  {
    if x >= 0.0 then x.Floor else -((-x).Floor)
  }

  /** Hashrate of a share of a miner, in whole GH/s. */
  function ShareGHS(total: int, fraction: real): int {
    Truncate(total as real * fraction)
  }

  /** What the share loses when part GH/s of the miner's total are taken from it: exactly part GH/s. */
  lemma TakeFromShare(total: int, fraction: real, part: int)
    requires total > 0
    requires 0 <= part <= ShareGHS(total, fraction)
    ensures ShareGHS(total, fraction - part as real / total as real) == ShareGHS(total, fraction) - part
  {
    ScaledDifference(total as real, fraction, part as real);
  }

  /** Adding part GH/s of the total to a share of a non-negative fraction gains exactly part GH/s. */
  lemma AddToShare(total: int, fraction: real, part: int)
    requires total > 0
    requires fraction >= 0.0 && part >= 0
    ensures ShareGHS(total, fraction + part as real / total as real) == ShareGHS(total, fraction) + part
  {
    ScaledSum(total as real, fraction, part as real);
    ProductSign(total as real, fraction);
  }

  lemma ScaledDifference(t: real, f: real, r: real)
    requires t > 0.0
    ensures t * (f - r / t) == t * f - r
  {
    assert t * (f - r / t) == t * f - t * (r / t);
    assert t * (r / t) == r;
  }

  lemma ScaledSum(t: real, f: real, r: real)
    requires t > 0.0
    ensures t * (f + r / t) == t * f + r
  {
    assert t * (f + r / t) == t * f + t * (r / t);
    assert t * (r / t) == r;
  }

  lemma ProductSign(t: real, f: real)
    requires t >= 0.0
    ensures f >= 0.0 ==> t * f >= 0.0
    ensures f <= 0.0 ==> t * f <= 0.0
  {
    if f >= 0.0 { assert t * f >= 0.0; } else { assert t * -f >= 0.0; assert t * f == -(t * -f); }
  }

  lemma ProductOrder(t: real, f: real, g: real)
    requires t >= 0.0 && f <= g
    ensures t * f <= t * g
  {
    ProductSign(t, g - f);
    assert t * g == t * f + t * (g - f);
  }

  lemma StrictProductOrder(t: real, f: real, g: real)
    requires t > 0.0 && f < g
    ensures t * f < t * g
  {
    assert t * (g - f) > 0.0;
    assert t * g == t * f + t * (g - f);
  }

  lemma QuotientOrder(r: real, t: real, g: real)
    requires t > 0.0
    ensures r / t < g <==> r < t * g
    ensures r / t > g <==> r > t * g
    ensures r / t == g <==> r == t * g
  {
    assert t * (r / t) == r;
    if r / t < g { StrictProductOrder(t, r / t, g); }
    if r / t > g { StrictProductOrder(t, g, r / t); }
  }

  // ---- whole numbers

  lemma MultipleIsLarge(l: int, d: int)
    requires l > 0
    ensures d >= 1 ==> l * d >= l
    ensures d <= -1 ==> l * d <= -l
  {
  }

  /** The least multiple of a value that reaches a given one is that one. */
  lemma MultipleReached(value: int, n: int, k: int)
    requires value > 0 && value * n >= value * k && value * n - value < value * k
    ensures n == k
  {
    assert value * (n - k - 1) == value * n - value * k - value;
    assert value * (k - n) == value * k - value * n;
    MultipleIsLarge(value, n - k - 1);
    MultipleIsLarge(value, k - n);
  }

  /** The quotient is what a number divides into with a remainder in range. */
  lemma QuotientIs(a: int, l: int, c: int, r: int)
    requires l > 0 && a == l * c + r && 0 <= r < l
    ensures a / l == c
  {
    var d := a / l - c;
    assert a == l * (a / l) + a % l;
    assert l * d == l * (a / l) - l * c;
    MultipleIsLarge(l, d);
  }

  lemma WholeQuotientOrder(a: int, b: int, l: int)
    requires a <= b && l > 0
    ensures a / l <= b / l
  {
    var d := a / l - b / l;
    assert a == l * (a / l) + a % l && b == l * (b / l) + b % l;
    assert l * d == l * (a / l) - l * (b / l);
    MultipleIsLarge(l, d);
  }
}
