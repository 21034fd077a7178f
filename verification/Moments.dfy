/**
  Weighted second moments of pairs of samples, and the Cauchy-Schwarz bound on
  their correlation. Shared by the windowed similarity score and the autocorrelation.
 */
module Moments {

  /** Total weight, and the weighted sums of x, y, x*x, x*y and y*y. */
  datatype Moments = Moments(w: real, xm: real, ym: real, xxm: real, xym: real, yym: real)

  const NONE := Moments(0.0, 0.0, 0.0, 0.0, 0.0, 0.0)

  function AddSample(m: Moments, w: real, x: real, y: real): Moments {
    Moments(m.w + w, m.xm + w * x, m.ym + w * y, m.xxm + w * x * x, m.xym + w * x * y, m.yym + w * y * y)
  }

  /** The weighted sum of (t*x + u*y + c) squared. */
  function Quad(m: Moments, t: real, u: real, c: real): real {
    t * t * m.xxm + u * u * m.yym + c * c * m.w + 2.0 * t * u * m.xym + 2.0 * t * c * m.xm + 2.0 * u * c * m.ym
  }

  /** What every collection of samples with nonnegative weights satisfies. */
  ghost predicate Psd(m: Moments) {
    forall t: real, u: real, c: real :: Quad(m, t, u, c) >= 0.0
  }

  function MeanX(m: Moments): real requires m.w > 0.0 { m.xm / m.w }

  function MeanY(m: Moments): real requires m.w > 0.0 { m.ym / m.w }

  function VarX(m: Moments): real requires m.w > 0.0 { m.xxm / m.w - MeanX(m) * MeanX(m) }

  function VarY(m: Moments): real requires m.w > 0.0 { m.yym / m.w - MeanY(m) * MeanY(m) }

  function Cov(m: Moments): real requires m.w > 0.0 { m.xym / m.w - MeanX(m) * MeanY(m) }

  lemma NonePsd()
    ensures Psd(NONE)
  {}

  lemma QuadOfSample(m: Moments, w: real, x: real, y: real, t: real, u: real, c: real)
    ensures Quad(AddSample(m, w, x, y), t, u, c)
         == Quad(m, t, u, c) + w * ((t * x + u * y + c) * (t * x + u * y + c))
  {
    var p := t * x + u * y + c;
    assert p * p == t * t * x * x + u * u * y * y + c * c
                    + 2.0 * t * u * x * y + 2.0 * t * c * x + 2.0 * u * c * y;
  }

  lemma ProductNonneg(a: real, b: real)
    requires a >= 0.0 && b >= 0.0
    ensures a * b >= 0.0
  {}

  /** x*x under a name of its own, so that its sign is remembered. */
  function Square(x: real): (r: real)
    ensures r >= 0.0 && (x != 0.0 ==> r > 0.0)
  {
    var r := x * x;
    SquarePositive(x, r);
    r
  }

  lemma SquarePositive(x: real, r: real)
    requires r == x * x
    ensures x != 0.0 ==> r > 0.0
  {
    if x > 0.0 {
      PositiveProduct(x, x, r);
    } else if x < 0.0 {
      PositiveProduct(-x, -x, r);
    }
  }

  lemma PositiveProduct(a: real, b: real, c: real)
    requires a > 0.0 && b > 0.0 && c == a * b
    ensures c > 0.0
  {}

  lemma AddPsd(m: Moments, w: real, x: real, y: real)
    requires Psd(m) && w >= 0.0
    ensures Psd(AddSample(m, w, x, y))
  {
    hide Quad, AddSample;
    forall t: real, u: real, c: real ensures Quad(AddSample(m, w, x, y), t, u, c) >= 0.0 {
      QuadGrows(m, w, x, y, t, u, c);
    }
  }

  lemma QuadGrows(m: Moments, w: real, x: real, y: real, t: real, u: real, c: real)
    requires w >= 0.0
    ensures Quad(AddSample(m, w, x, y), t, u, c) >= Quad(m, t, u, c)
  {
    hide Quad, AddSample;
    var p := t * x + u * y + c;
    QuadOfSample(m, w, x, y, t, u, c);
    ProductNonneg(w, Square(p));
  }

  /** The variance of t*x + u*y, as a quadratic form in the variances and the covariance. */
  lemma CenteredForm(m: Moments, t: real, u: real)
    requires m.w > 0.0 && Psd(m)
    ensures t * t * VarX(m) + 2.0 * t * u * Cov(m) + u * u * VarY(m) >= 0.0
  {
    hide Quad, MeanX, MeanY, VarX, VarY, Cov;
    var a, b := MeanX(m), MeanY(m);
    var c := -(t * a + u * b);
    assert Quad(m, t, u, c) >= 0.0;
    var f := t * t * VarX(m) + 2.0 * t * u * Cov(m) + u * u * VarY(m);
    CenteredIdentity(m, t, u, a, b);
    assert Quad(m, t, u, c) == m.w * f;
    PositiveFactor(m.w, f);
  }

  lemma PositiveFactor(a: real, b: real)
    requires a > 0.0 && a * b >= 0.0
    ensures b >= 0.0
  {}

  lemma CenteredIdentity(m: Moments, t: real, u: real, a: real, b: real)
    requires m.w > 0.0 && a == MeanX(m) && b == MeanY(m)
    ensures Quad(m, t, u, -(t * a + u * b))
         == m.w * (t * t * VarX(m) + 2.0 * t * u * Cov(m) + u * u * VarY(m))
  {
    var w, xx, xy, yy := m.w, m.xxm / m.w, m.xym / m.w, m.yym / m.w;
    assert m.xm == w * a && m.ym == w * b && m.xxm == w * xx && m.xym == w * xy && m.yym == w * yy;
    CenteredPolynomial(w, a, b, xx, xy, yy, t, u);
  }

  lemma CenteredPolynomial(w: real, a: real, b: real, xx: real, xy: real, yy: real, t: real, u: real)
    ensures Quad(Moments(w, w * a, w * b, w * xx, w * xy, w * yy), t, u, -(t * a + u * b))
         == w * (t * t * (xx - a * a) + 2.0 * t * u * (xy - a * b) + u * u * (yy - b * b))
  {}

  /** Variances are nonnegative and bound the covariance. */
  lemma CauchySchwarz(m: Moments)
    requires m.w > 0.0 && Psd(m)
    ensures VarX(m) >= 0.0 && VarY(m) >= 0.0
    ensures Cov(m) * Cov(m) <= VarX(m) * VarY(m)
  {
    var p, q, r := VarX(m), VarY(m), Cov(m);
    CenteredForm(m, 1.0, 0.0);
    CenteredForm(m, 0.0, 1.0);
    CenteredForm(m, q, -r);
    CenteredForm(m, r, -p);
    CenteredForm(m, 1.0, 1.0);
    CenteredForm(m, 1.0, -1.0);
    Discriminant(p, q, r);
  }

  lemma Discriminant(p: real, q: real, r: real)
    requires p >= 0.0 && q >= 0.0
    requires q * q * p + 2.0 * q * -r * r + -r * -r * q >= 0.0
    requires r * r * p + 2.0 * r * -p * r + -p * -p * q >= 0.0
    requires p + 2.0 * r + q >= 0.0 && p - 2.0 * r + q >= 0.0
    ensures r * r <= p * q
  {
    assert q * (p * q - r * r) >= 0.0;
    assert p * (p * q - r * r) >= 0.0;
    if q > 0.0 {
      PositiveFactor(q, p * q - r * r);
    } else if p > 0.0 {
      PositiveFactor(p, p * q - r * r);
    } else {
      assert r == 0.0;
    }
  }

  /** The uncentered Cauchy-Schwarz inequality. */
  lemma RawCauchySchwarz(m: Moments)
    requires Psd(m)
    ensures m.xxm >= 0.0 && m.yym >= 0.0 && m.xym * m.xym <= m.xxm * m.yym
  {
    var p, q, r := m.xxm, m.yym, m.xym;
    assert Quad(m, 1.0, 0.0, 0.0) >= 0.0;
    assert Quad(m, 0.0, 1.0, 0.0) >= 0.0;
    assert Quad(m, q, -r, 0.0) >= 0.0;
    assert Quad(m, r, -p, 0.0) >= 0.0;
    assert Quad(m, 1.0, 1.0, 0.0) >= 0.0;
    assert Quad(m, 1.0, -1.0, 0.0) >= 0.0;
    Discriminant(p, q, r);
  }

  lemma ProductMonotone(a: real, b: real, c: real, d: real)
    requires 0.0 <= a <= b && 0.0 <= c <= d
    ensures a * c <= b * d
  {
    ProductNonneg(b - a, c);
    ProductNonneg(b, d - c);
  }

  /** A square root is a nonnegative number whose square is the argument. */
  ghost predicate IsSqrt(sqrt: real -> real) {
    forall x: real :: x >= 0.0 ==> sqrt(x) >= 0.0 && sqrt(x) * sqrt(x) == x
  }

  /** If r*r <= s*s with s nonnegative then r lies between -s and s. */
  lemma BetweenRoots(r: real, s: real)
    requires s >= 0.0 && r * r <= s * s
    ensures -s <= r <= s
  {
    SquareGrows(s, r);
    SquareGrows(s, -r);
    assert -r * -r == r * r;
  }

  lemma SquareGrows(s: real, r: real)
    ensures 0.0 <= s < r ==> s * s < r * r
  {
    if 0.0 <= s < r {
      var d := r * r - s * s;
      assert d == (r - s) * (r + s);
      PositiveProduct(r - s, r + s, d);
    }
  }

  lemma RootOf(sqrt: real -> real, x: real)
    requires IsSqrt(sqrt) && x >= 0.0
    ensures sqrt(x) >= 0.0 && sqrt(x) * sqrt(x) == x
  {}

  lemma RatioBound(n: real, d: real)
    requires d > 0.0 && -d <= n <= d
    ensures -1.0 <= n / d <= 1.0
  {}

  lemma ProductBound(a: real, b: real)
    requires -1.0 <= a <= 1.0 && -1.0 <= b <= 1.0
    ensures -1.0 <= a * b <= 1.0
  {
    ProductNonneg(1.0 - a, 1.0 - b);
    ProductNonneg(1.0 + a, 1.0 + b);
    ProductNonneg(1.0 - a, 1.0 + b);
    ProductNonneg(1.0 + a, 1.0 - b);
  }
}
