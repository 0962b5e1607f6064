/** The two formulas of src/fand/interpolation.c in exact arithmetic. */
module Interpolation {
  /** C's `round` on the non-negative values it is applied to: halves go up. */
  function Round(r: real): int { (r + 0.5).Floor }

  /** `lerp_inverse`, interpolation.c:5. */
  function LerpInverse(a: int, b: int, x: int): real
    requires a < b
  {
    (x - a) as real / (b - a) as real
  }

  /** `lerp`, interpolation.c:9; the source subtracts unsigned numbers, so b must not be below a. */
  function Lerp(a: int, b: int, f: real): int
    requires a <= b
  {
    Round(a as real + (b - a) as real * f)
  }

  /** Interpolating at the position lerp_inverse computes gives the point back. */
  lemma LerpOfInverse(a: int, b: int, x: int)
    requires a < b
    ensures Lerp(a, b, LerpInverse(a, b, x)) == x
  {
  }

  /** The position of an interpolated value is off by rounding only: at most half a unit of the target range. */
  lemma InverseOfLerp(a: int, b: int, f: real)
    requires a < b
    ensures -1.0 / (2 * (b - a)) as real <= LerpInverse(a, b, Lerp(a, b, f)) - f <= 1.0 / (2 * (b - a)) as real
  {
  }

  lemma RoundNearest(r: real)
    ensures Round(r) as real - 0.5 <= r < Round(r) as real + 0.5
  {
  }

  /** Scaling a value within half a unit of v by d. */
  lemma ScaledNearest(x: real, v: int, d: int, y: real)
    requires d > 0 && x * d as real == y && v as real - 0.5 <= x < v as real + 0.5
    ensures (v * d) as real - 0.5 * d as real <= y < (v * d) as real + 0.5 * d as real
  {
    ProductOrder(v as real - 0.5, x, d as real);
    ProductOrder(v as real + 0.5, x, d as real);
    assert (v as real - 0.5) * d as real == v as real * d as real - 0.5 * d as real;
    assert (v as real + 0.5) * d as real == v as real * d as real + 0.5 * d as real;
    assert v as real * d as real == (v * d) as real;
  }

  lemma ProductOfQuotient(rise: int, n: int, d: int)
    requires d > 0
    ensures rise as real * (n as real / d as real) * d as real == (rise * n) as real
  {
    var f := n as real / d as real;
    assert f * d as real == n as real;
    assert rise as real * f * d as real == rise as real * (f * d as real);
    assert rise as real * n as real == (rise * n) as real;
  }

  lemma InverseMeans(a: int, b: int, x: int)
    requires a < b
    ensures LerpInverse(a, b, x) == (x - a) as real / (b - a) as real
  {
  }

  lemma TwiceNearest(p: int, d: int, y: int)
    requires p as real - 0.5 * d as real <= y as real < p as real + 0.5 * d as real
    ensures 2 * y - d < 2 * p <= 2 * y + d
  {
  }

  /** At position n/d between a and b, the rounded value is the integer nearest to the line, the upper one of two. */
  lemma LerpNearest(a: int, b: int, n: int, d: int)
    requires a <= b && d > 0
    ensures var v := Lerp(a, b, n as real / d as real) - a;
      2 * (b - a) * n - d < 2 * d * v <= 2 * (b - a) * n + d
  {
    var x := (b - a) as real * (n as real / d as real);
    var v := Lerp(a, b, n as real / d as real) - a;
    RoundNearest(a as real + x);
    ProductOfQuotient(b - a, n, d);
    ScaledNearest(x, v, d, ((b - a) * n) as real);
    TwiceNearest(v * d, d, (b - a) * n);
    assert 2 * (v * d) == 2 * d * v && 2 * ((b - a) * n) == 2 * (b - a) * n;
  }

  lemma LerpMonotone(a: int, b: int, f: real, g: real)
    requires a <= b && f <= g
    ensures Lerp(a, b, f) <= Lerp(a, b, g)
  {
  }

  lemma LerpEnds(a: int, b: int)
    requires a <= b
    ensures Lerp(a, b, 0.0) == a && Lerp(a, b, 1.0) == b
  {
  }

  /** Between the ends of the range the interpolated value stays between them. */
  lemma LerpBetween(a: int, b: int, f: real)
    requires a <= b && 0.0 <= f <= 1.0
    ensures a <= Lerp(a, b, f) <= b
  {
    LerpEnds(a, b);
    LerpMonotone(a, b, 0.0, f);
    LerpMonotone(a, b, f, 1.0);
  }

  lemma ProductOrder(p: real, q: real, d: real)
    requires d > 0.0
    ensures p <= q <==> p * d <= q * d
  {
    assert (q - p) * d == q * d - p * d;
    if p <= q {
      assert (q - p) * d >= 0.0;
    } else {
      assert (q - p) * d < 0.0;
    }
  }

  lemma QuotientOrder(u: real, v: real, d: real)
    requires d > 0.0 && u <= v
    ensures u / d <= v / d
  {
    var p, q := u / d, v / d;
    assert p * d == u && q * d == v;
    ProductOrder(p, q, d);
  }

  lemma InverseMonotone(a: int, b: int, x: int, y: int)
    requires a < b && x <= y
    ensures LerpInverse(a, b, x) <= LerpInverse(a, b, y)
    ensures LerpInverse(a, b, a) == 0.0 && LerpInverse(a, b, b) == 1.0
  {
    QuotientOrder((x - a) as real, (y - a) as real, (b - a) as real);
  }
}
