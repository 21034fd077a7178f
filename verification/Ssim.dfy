/**
  The windowed similarity score of zc/src/ZC_ssim.c. Images are flattened row
  by row with row width W; x is the column and y the row of a pixel.
 */
module Ssim {
  import opened Arithmetic
  import opened Moments

  type Image = seq<real>

  const KERNEL := 3

  /** The 7-entry kernel: 16 in the middle, and symmetric around it. */
  function Kernel(i: int): (k: int)
    requires 0 <= i <= 6
    ensures k > 0 && (k == 16 <==> i == 3) && (k == 11 <==> i in {2, 4}) && (k == 4 <==> i in {1, 5})
    ensures k == 1 <==> i in {0, 6}
  {
    [1, 4, 11, 16, 11, 4, 1][i]
  }

  function Weight(dx: int, dy: int): (w: real)
    requires -3 <= dx <= 3 && -3 <= dy <= 3
    ensures w > 0.0
  {
    Kernel(3 + dy) as real * Kernel(3 + dx) as real
  }

  lemma PixelIndex(x: nat, y: nat, W: nat, H: nat)
    requires x < W && y < H
    ensures 0 <= y * W + x < W * H
    ensures y * W + W <= W * H
  {
    BlockFits(y, H, W);
  }

  /** The pixel value at column x of row y. */
  function Pixel(a: Image, W: nat, H: nat, x: int, y: int): real
    requires |a| == W * H && 0 <= x < W && 0 <= y < H
  {
    PixelIndex(x, y, W, H);
    a[y * W + x]
  }

  datatype Pair = Pair(org: Image, rec: Image, W: nat, H: nat) {
    ghost predicate Valid() { W > 0 && H > 0 && |org| == |rec| == W * H }
  }

  /** The images lie row by row. */
  lemma PixelIs(p: Pair, x: nat, y: nat)
    requires p.Valid() && x < p.W && y < p.H
    ensures 0 <= y * p.W + x < |p.org|
    ensures Pixel(p.org, p.W, p.H, x, y) == p.org[y * p.W + x] && Pixel(p.rec, p.W, p.H, x, y) == p.rec[y * p.W + x]
  {
    PixelIndex(x, y, p.W, p.H);
  }

  /** m with the samples at columns lo..hi of row y added, weighted around (xo, yo). */
  function AddRow(p: Pair, xo: int, yo: int, y: int, lo: int, hi: int, m: Moments): Moments
    requires p.Valid() && 0 <= y < p.H && yo - 3 <= y <= yo + 3
    requires 0 <= lo && xo - 3 <= lo && hi <= p.W && hi <= xo + 4
    decreases hi - lo
  {
    if hi <= lo then m
    else
      AddSample(AddRow(p, xo, yo, y, lo, hi - 1, m), Weight(hi - 1 - xo, y - yo),
                Pixel(p.org, p.W, p.H, hi - 1, y), Pixel(p.rec, p.W, p.H, hi - 1, y))
  }

  /** The moments over columns lo..hi of rows top..bottom, weighted around (xo, yo). */
  function AddRows(p: Pair, xo: int, yo: int, top: int, bottom: int, lo: int, hi: int): Moments
    requires p.Valid() && 0 <= top && yo - 3 <= top && bottom <= p.H && bottom <= yo + 4
    requires 0 <= lo && xo - 3 <= lo && hi <= p.W && hi <= xo + 4
    decreases bottom - top
  {
    if bottom <= top then NONE
    else AddRow(p, xo, yo, bottom - 1, lo, hi, AddRows(p, xo, yo, top, bottom - 1, lo, hi))
  }

  function ClipLow(o: int): int { if o - KERNEL < 0 then 0 else o - KERNEL }

  function ClipHigh(o: int, size: nat): int { if o + KERNEL > size - 1 then size - 1 else o + KERNEL }

  /** The moments over the part of the 7x7 window around (xo, yo) that lies inside the image. */
  function WindowMoments(p: Pair, xo: int, yo: int): Moments
    requires p.Valid() && 0 <= xo < p.W && 0 <= yo < p.H
  {
    AddRows(p, xo, yo, ClipLow(yo), ClipHigh(yo, p.H) + 1, ClipLow(xo), ClipHigh(xo, p.W) + 1)
  }

  function ClampZero(v: real): real { if v < 0.0 then 0.0 else v }

  /** A stabilising constant: positive as soon as the value range is not zero. */
  function Stabiliser(k: real, range: real): (c: real)
    requires k > 0.0 && range != 0.0
    ensures c > 0.0
  {
    PositiveProduct(Square(k), Square(range), Square(k) * Square(range));
    Square(k) * Square(range)
  }

  /** The luminance factor. */
  function Luminance(a: real, b: real, k: real): (l: real)
    requires k > 0.0
    ensures -1.0 <= l <= 1.0
    ensures a == b ==> l == 1.0
  {
    var aa, bb, ab := Square(a), Square(b), a * b;
    assert Square(a - b) == aa - 2.0 * ab + bb && Square(a + b) == aa + 2.0 * ab + bb;
    RatioBound(2.0 * ab + k, aa + bb + k);
    (2.0 * ab + k) / (aa + bb + k)
  }

  /** The contrast factor of two variances and the root of their product. */
  function Contrast(p: real, q: real, s: real, k: real): (c: real)
    requires p >= 0.0 && q >= 0.0 && s >= 0.0 && s * s == p * q && k > 0.0
    ensures -1.0 <= c <= 1.0
    ensures p == q == s ==> c == 1.0
  {
    assert Square(p - q) == (p + q) * (p + q) - 4.0 * (p * q);
    assert (2.0 * s) * (2.0 * s) == 4.0 * (s * s);
    BetweenRoots(2.0 * s, p + q);
    RatioBound(2.0 * s + k, p + q + k);
    (2.0 * s + k) / (p + q + k)
  }

  /** The structure factor of a covariance and the root of the product of the variances. */
  function Structure(r: real, s: real, k: real): (c: real)
    requires s >= 0.0 && k > 0.0
    ensures r * r <= s * s ==> -1.0 <= c <= 1.0
    ensures r == s ==> c == 1.0
  {
    if r * r <= s * s then
      BetweenRoots(r, s);
      RatioBound(r + k, s + k);
      (r + k) / (s + k)
    else
      (r + k) / (s + k)
  }

  /** Luminance, contrast and structure from the moments, as the source combines them. */
  function Score(m: Moments, range: real, sqrt: real -> real): real
    requires m.w > 0.0 && range != 0.0 && IsSqrt(sqrt)
  {
    ScoreOf(MeanX(m), MeanY(m), ClampZero(VarX(m)), ClampZero(VarY(m)), Cov(m), range, sqrt)
  }

  function ScoreOf(a: real, b: real, sxx: real, syy: real, sxy: real, range: real, sqrt: real -> real): (r: real)
    requires sxx >= 0.0 && syy >= 0.0 && range != 0.0 && IsSqrt(sqrt)
    ensures sxy * sxy <= sxx * syy ==> -1.0 <= r <= 1.0
    ensures a == b && sxx == syy == sxy ==> r == 1.0
  {
    var product := sxx * syy;
    ProductNonneg(sxx, syy);
    RootOf(sqrt, product);
    var sxsy := sqrt(product);
    var l := Luminance(a, b, Stabiliser(0.01, range));
    var c := Contrast(sxx, syy, sxsy, Stabiliser(0.03, range));
    var s := Structure(sxy, sxsy, Stabiliser(0.015, range));
    ScoreOfFactors(sxx, syy, sxy, sxsy, l, c, s);
    l * c * s
  }

  lemma ScoreOfFactors(sxx: real, syy: real, sxy: real, root: real, l: real, c: real, s: real)
    requires sxx >= 0.0 && syy >= 0.0 && root >= 0.0 && root * root == sxx * syy
    requires -1.0 <= l <= 1.0 && -1.0 <= c <= 1.0
    requires sxy * sxy <= root * root ==> -1.0 <= s <= 1.0
    ensures sxy * sxy <= sxx * syy ==> -1.0 <= l * c * s <= 1.0
    ensures sxx == syy ==> root == sxx
  {
    ProductBound(l, c);
    if sxy * sxy <= sxx * syy {
      ProductBound(l * c, s);
    }
    if sxx == syy {
      BetweenRoots(root, sxx);
      BetweenRoots(sxx, root);
    }
  }

  // ----- the moments of a window -----

  lemma {:induction false} AddRowPsd(p: Pair, xo: int, yo: int, y: int, lo: int, hi: int, m: Moments)
    requires p.Valid() && 0 <= y < p.H && yo - 3 <= y <= yo + 3
    requires 0 <= lo && xo - 3 <= lo && hi <= p.W && hi <= xo + 4
    requires Psd(m)
    ensures var r := AddRow(p, xo, yo, y, lo, hi, m);
            Psd(r) && r.w >= m.w && (lo < hi ==> r.w > m.w)
    decreases hi - lo
  {
    hide Pixel, Psd, Weight;
    if lo < hi {
      AddRowPsd(p, xo, yo, y, lo, hi - 1, m);
      AddPsd(AddRow(p, xo, yo, y, lo, hi - 1, m), Weight(hi - 1 - xo, y - yo),
             Pixel(p.org, p.W, p.H, hi - 1, y), Pixel(p.rec, p.W, p.H, hi - 1, y));
    }
  }

  lemma {:induction false} AddRowsPsd(p: Pair, xo: int, yo: int, top: int, bottom: int, lo: int, hi: int)
    requires p.Valid() && 0 <= top && yo - 3 <= top && bottom <= p.H && bottom <= yo + 4
    requires 0 <= lo && xo - 3 <= lo && hi <= p.W && hi <= xo + 4
    ensures var r := AddRows(p, xo, yo, top, bottom, lo, hi);
            Psd(r) && r.w >= 0.0 && (lo < hi && top < bottom ==> r.w > 0.0)
    decreases bottom - top
  {
    hide AddRow, Psd;
    if top < bottom {
      AddRowsPsd(p, xo, yo, top, bottom - 1, lo, hi);
      AddRowPsd(p, xo, yo, bottom - 1, lo, hi, AddRows(p, xo, yo, top, bottom - 1, lo, hi));
    } else {
      NonePsd();
    }
  }

  lemma WindowPsd(p: Pair, xo: int, yo: int)
    requires p.Valid() && 0 <= xo < p.W && 0 <= yo < p.H
    ensures Psd(WindowMoments(p, xo, yo)) && WindowMoments(p, xo, yo).w > 0.0
  {
    hide AddRows;
    AddRowsPsd(p, xo, yo, ClipLow(yo), ClipHigh(yo, p.H) + 1, ClipLow(xo), ClipHigh(xo, p.W) + 1);
  }

  /** The score of the pixel at (xo, yo). */
  function WindowScore(p: Pair, xo: int, yo: int, range: real, sqrt: real -> real): real
    requires p.Valid() && 0 <= xo < p.W && 0 <= yo < p.H
    requires range != 0.0 && IsSqrt(sqrt)
  {
    WindowPsd(p, xo, yo);
    Score(WindowMoments(p, xo, yo), range, sqrt)
  }

  // ----- the range of the score -----

  lemma ScoreBound(m: Moments, range: real, sqrt: real -> real)
    requires m.w > 0.0 && range != 0.0 && IsSqrt(sqrt) && Psd(m)
    ensures -1.0 <= Score(m, range, sqrt) <= 1.0
  {
    hide MeanX, MeanY, VarX, VarY, Cov, Psd, ScoreOf;
    CauchySchwarz(m);
  }

  /** Moments of a sample paired with itself. */
  ghost predicate Diagonal(m: Moments) {
    m.xm == m.ym && m.xxm == m.xym == m.yym
  }

  lemma ScoreOfDiagonal(m: Moments, range: real, sqrt: real -> real)
    requires m.w > 0.0 && range != 0.0 && IsSqrt(sqrt) && Psd(m) && Diagonal(m)
    ensures Score(m, range, sqrt) == 1.0
  {
    hide MeanX, MeanY, VarX, VarY, Cov, Psd, ScoreOf;
    DiagonalFacts(m);
    CauchySchwarz(m);
  }

  lemma DiagonalFacts(m: Moments)
    requires m.w > 0.0 && Diagonal(m)
    ensures MeanX(m) == MeanY(m) && VarX(m) == VarY(m) == Cov(m)
  {}

  // ----- the value of the score -----

  /** x is the quotient of n and d. */
  ghost predicate IsQuotient(x: real, n: real, d: real) {
    d > 0.0 && x * d == n
  }

  lemma QuotientIs(n: real, d: real)
    requires d > 0.0
    ensures IsQuotient(n / d, n, d)
  {}

  /** l weighs the product of two means against their squares; it is 1 for equal means only, and never -1. */
  ghost predicate ComparesMeans(l: real, a: real, b: real, k: real) {
    IsQuotient(l, 2.0 * (a * b) + k, Square(a) + Square(b) + k) && -1.0 < l <= 1.0 && (l == 1.0 <==> a == b)
  }

  /** c weighs the root of the product of two variances against their sum. */
  ghost predicate ComparesVariances(c: real, p: real, q: real, root: real, k: real) {
    IsQuotient(c, 2.0 * root + k, p + q + k) && -1.0 < c <= 1.0 && (c == 1.0 <==> p == q)
  }

  /** s weighs the covariance against the root of the product of the variances. */
  ghost predicate ComparesCovariance(s: real, r: real, root: real, k: real) {
    IsQuotient(s, r + k, root + k) && -1.0 < s <= 1.0 && (s == 1.0 <==> r == root)
  }

  lemma StabiliserIs(range: real)
    requires range != 0.0
    ensures Stabiliser(0.01, range) == 0.0001 * Square(range)
    ensures Stabiliser(0.03, range) == 0.0009 * Square(range)
    ensures Stabiliser(0.015, range) == 0.000225 * Square(range)
  {
    assert Square(0.01) == 0.0001 && Square(0.03) == 0.0009 && Square(0.015) == 0.000225;
  }

  /** A quotient n / d between -1 and 1: where it is 1, and where it is above -1. */
  lemma ExtremeFactor(x: real, n: real, d: real)
    requires IsQuotient(x, n, d)
    ensures x == 1.0 <==> n == d
    ensures n > -d ==> x > -1.0
  {
    assert d * (x - 1.0) == n - d && d * (x + 1.0) == n + d;
    if n == d {
      PositiveFactor(d, x - 1.0);
      PositiveFactor(d, 1.0 - x);
    }
    if n > -d {
      PositiveFactor(d, x + 1.0);
    }
  }

  lemma LuminanceEquation(a: real, b: real, k: real)
    requires k > 0.0
    ensures ComparesMeans(Luminance(a, b, k), a, b, k)
  {
    var l, aa, bb, ab := Luminance(a, b, k), Square(a), Square(b), a * b;
    QuotientIs(2.0 * ab + k, aa + bb + k);
    assert Square(a - b) == aa - 2.0 * ab + bb && Square(a + b) == aa + 2.0 * ab + bb;
    hide Square, Luminance, IsQuotient;
    ExtremeFactor(l, 2.0 * ab + k, aa + bb + k);
  }

  /** The geometric mean of two numbers is at most their arithmetic mean, and equal to it for equal numbers only. */
  lemma RootBelowMean(p: real, q: real, s: real)
    requires p >= 0.0 && q >= 0.0 && s >= 0.0 && s * s == p * q
    ensures 2.0 * s <= p + q
    ensures 2.0 * s == p + q <==> p == q
    ensures p == q ==> s == p
  {
    assert Square(p - q) == (p + q) * (p + q) - 4.0 * (p * q);
    assert (2.0 * s) * (2.0 * s) == 4.0 * (s * s);
    BetweenRoots(2.0 * s, p + q);
    if p == q {
      BetweenRoots(s, p);
      BetweenRoots(p, s);
    } else {
      assert Square(p - q) > 0.0;
    }
  }

  lemma ContrastEquation(p: real, q: real, s: real, k: real)
    requires p >= 0.0 && q >= 0.0 && s >= 0.0 && s * s == p * q && k > 0.0
    ensures ComparesVariances(Contrast(p, q, s, k), p, q, s, k)
  {
    RootBelowMean(p, q, s);
    var c := Contrast(p, q, s, k);
    QuotientIs(2.0 * s + k, p + q + k);
    hide Contrast, IsQuotient;
    ExtremeFactor(c, 2.0 * s + k, p + q + k);
  }

  lemma StructureEquation(r: real, s: real, k: real)
    requires s >= 0.0 && k > 0.0 && r * r <= s * s
    ensures ComparesCovariance(Structure(r, s, k), r, s, k)
  {
    var t := Structure(r, s, k);
    QuotientIs(r + k, s + k);
    hide Structure, IsQuotient;
    BetweenRoots(r, s);
    ExtremeFactor(t, r + k, s + k);
  }

  /** What ScoreOf multiplies. */
  lemma ScoreOfIs(a: real, b: real, p: real, q: real, r: real, range: real, sqrt: real -> real)
    returns (root: real, l: real, c: real, s: real)
    requires p >= 0.0 && q >= 0.0 && range != 0.0 && IsSqrt(sqrt)
    ensures root == sqrt(p * q) >= 0.0 && root * root == p * q
    ensures l == Luminance(a, b, Stabiliser(0.01, range)) && c == Contrast(p, q, root, Stabiliser(0.03, range))
    ensures s == Structure(r, root, Stabiliser(0.015, range))
    ensures ScoreOf(a, b, p, q, r, range, sqrt) == l * c * s
  {
    hide Luminance, Contrast, Structure, Stabiliser, IsSqrt;
    ProductNonneg(p, q);
    RootOf(sqrt, p * q);
    root := sqrt(p * q);
    l, c := Luminance(a, b, Stabiliser(0.01, range)), Contrast(p, q, root, Stabiliser(0.03, range));
    s := Structure(r, root, Stabiliser(0.015, range));
  }

  /**
    The score is the product of three numbers l, c and s, which compare the means, the variances and the covariance
    with the root of the product of the variances; the constants are 0.01, 0.03 and 0.015 times the value range,
    squared.
   */
  lemma ScoreEquations(m: Moments, range: real, sqrt: real -> real) returns (root: real, l: real, c: real, s: real)
    requires m.w > 0.0 && range != 0.0 && IsSqrt(sqrt) && Psd(m)
    ensures Score(m, range, sqrt) == l * c * s
    ensures ComparesMeans(l, MeanX(m), MeanY(m), 0.0001 * Square(range))
    ensures VarX(m) >= 0.0 && VarY(m) >= 0.0 && root >= 0.0 && root * root == VarX(m) * VarY(m)
    ensures ComparesVariances(c, VarX(m), VarY(m), root, 0.0009 * Square(range))
    ensures ComparesCovariance(s, Cov(m), root, 0.000225 * Square(range))
  {
    hide MeanX, MeanY, VarX, VarY, Cov, Psd, ScoreOf, Square, Stabiliser, Luminance, Contrast, Structure, IsSqrt,
         ComparesMeans, ComparesVariances, ComparesCovariance;
    CauchySchwarz(m);
    var a, b, p, q, r := MeanX(m), MeanY(m), VarX(m), VarY(m), Cov(m);
    root, l, c, s := ScoreOfIs(a, b, p, q, r, range, sqrt);
    StabiliserIs(range);
    LuminanceEquation(a, b, 0.0001 * Square(range));
    ContrastEquation(p, q, root, 0.0009 * Square(range));
    StructureEquation(r, root, 0.000225 * Square(range));
  }

  /** The score is 1 exactly for equal means, and variances equal to each other and to the covariance. */
  lemma ScoreIsOne(m: Moments, range: real, sqrt: real -> real)
    requires m.w > 0.0 && range != 0.0 && IsSqrt(sqrt) && Psd(m)
    ensures Score(m, range, sqrt) == 1.0 <==> MeanX(m) == MeanY(m) && VarX(m) == VarY(m) == Cov(m)
  {
    hide MeanX, MeanY, VarX, VarY, Cov, Psd, Score, IsSqrt, IsQuotient;
    var root, l, c, s := ScoreEquations(m, range, sqrt);
    UnitProduct(l, c, s);
    if VarX(m) == VarY(m) {
      RootBelowMean(VarX(m), VarY(m), root);
    }
  }

  /** Three factors above -1 and at most 1 multiply to 1 only if all are 1. */
  lemma UnitProduct(l: real, c: real, s: real)
    requires -1.0 < l <= 1.0 && -1.0 < c <= 1.0 && -1.0 < s <= 1.0
    ensures l * c * s == 1.0 <==> l == c == s == 1.0
  {
    ProductBelow(l, c);
    ProductBelow(l * c, s);
  }

  lemma ProductBelow(x: real, y: real)
    requires -1.0 < x <= 1.0 && -1.0 < y <= 1.0
    ensures -1.0 < x * y <= 1.0
    ensures x * y == 1.0 <==> x == y == 1.0
  {
    ProductAbove(x, y);
    ProductAbove(-x, y);
    assert -x * y == -(x * y);
    if x == 1.0 {
      assert x * y == 1.0 * y;
    }
  }

  /** Twice 1 - x*y is (1 - x)*(1 + y) + (1 + x)*(1 - y). */
  lemma ProductAbove(x: real, y: real)
    requires -1.0 <= x <= 1.0 && -1.0 < y <= 1.0
    ensures x * y <= 1.0
    ensures x * y == 1.0 ==> x == y == 1.0
  {
    var u, v := (1.0 - x) * (1.0 + y), (1.0 + x) * (1.0 - y);
    assert u + v == 2.0 - 2.0 * (x * y);
    ProductNonneg(1.0 - x, 1.0 + y);
    ProductNonneg(1.0 + x, 1.0 - y);
    if x < 1.0 {
      PositiveProduct(1.0 - x, 1.0 + y, u);
    } else {
      assert x * y == 1.0 * y;
    }
  }

  /** Equal variances and covariance: the score is what the means make of it. */
  lemma ScoreOfMeans(m: Moments, range: real, sqrt: real -> real)
    requires m.w > 0.0 && range != 0.0 && IsSqrt(sqrt) && Psd(m)
    requires VarX(m) == VarY(m) == Cov(m)
    ensures var a, b, k := MeanX(m), MeanY(m), 0.0001 * Square(range);
            IsQuotient(Score(m, range, sqrt), 2.0 * (a * b) + k, Square(a) + Square(b) + k)
  {
    hide MeanX, MeanY, VarX, VarY, Cov, Psd, Score, IsSqrt, Square, IsQuotient;
    var root, l, c, s := ScoreEquations(m, range, sqrt);
    RootBelowMean(VarX(m), VarY(m), root);
    OtherFactors(l, c, s);
  }

  /** Equal means and a covariance as large as it can be: the score is what the variances make of it. */
  lemma ScoreOfVariances(m: Moments, range: real, sqrt: real -> real)
    requires m.w > 0.0 && range != 0.0 && IsSqrt(sqrt) && Psd(m)
    requires MeanX(m) == MeanY(m) && Cov(m) >= 0.0 && Cov(m) * Cov(m) == VarX(m) * VarY(m)
    ensures var k := 0.0009 * Square(range);
            IsQuotient(Score(m, range, sqrt), 2.0 * Cov(m) + k, VarX(m) + VarY(m) + k)
  {
    hide MeanX, MeanY, VarX, VarY, Cov, Psd, Score, IsSqrt, Square, IsQuotient;
    var root, l, c, s := ScoreEquations(m, range, sqrt);
    BetweenRoots(Cov(m), root);
    BetweenRoots(root, Cov(m));
    OtherFactors(l, c, s);
  }

  /** Equal means and variances: the score is what the covariance makes of it. */
  lemma ScoreOfCovariance(m: Moments, range: real, sqrt: real -> real)
    requires m.w > 0.0 && range != 0.0 && IsSqrt(sqrt) && Psd(m)
    requires MeanX(m) == MeanY(m) && VarX(m) == VarY(m)
    ensures var k := 0.000225 * Square(range); IsQuotient(Score(m, range, sqrt), Cov(m) + k, VarX(m) + k)
  {
    hide MeanX, MeanY, VarX, VarY, Cov, Psd, Score, IsSqrt, Square, IsQuotient;
    var root, l, c, s := ScoreEquations(m, range, sqrt);
    RootBelowMean(VarX(m), VarY(m), root);
    OtherFactors(l, c, s);
  }

  lemma OtherFactors(l: real, c: real, s: real)
    ensures c == 1.0 && s == 1.0 ==> l * c * s == l
    ensures l == 1.0 && s == 1.0 ==> l * c * s == c
    ensures l == 1.0 && c == 1.0 ==> l * c * s == s
  {}

  // ----- the two kernels -----

  /** The arithmetic shared by both kernels once the sums are known. */
  method FinishScore(ghost m: Moments, iw: real, xm: real, ym: real, xxm: real, xym: real, yym: real,
                     range: real, sqrt: real -> real) returns (score: real)
    requires m.w > 0.0 && range != 0.0 && IsSqrt(sqrt)
    requires iw == 1.0 / m.w && m == Moments(m.w, xm, ym, xxm, xym, yym)
    ensures score == Score(m, range, sqrt)
  {
    hide MeanX, MeanY, VarX, VarY, Cov, ScoreOf;
    var iwx := xm * iw;
    var iwy := ym * iw;
    var sxx := xxm * iw - iwx * iwx;
    var syy := yym * iw - iwy * iwy;
    var sxy := xym * iw - iwx * iwy;
    MeansFromInverse(m, iw, iwx, iwy, sxx, syy, sxy);
    score := ClampAndScore(iwx, iwy, sxx, syy, sxy, range, sqrt);
  }

  method ClampAndScore(iwx: real, iwy: real, sxx0: real, syy0: real, sxy: real, range: real, sqrt: real -> real)
    returns (score: real)
    requires range != 0.0 && IsSqrt(sqrt)
    ensures score == ScoreOf(iwx, iwy, ClampZero(sxx0), ClampZero(syy0), sxy, range, sqrt)
  {
    hide Luminance, Contrast, Structure, Stabiliser, IsSqrt, ScoreOf;
    var sxx, syy := sxx0, syy0;
    if sxx < 0.0 {
      sxx := 0.0;
    }
    if syy < 0.0 {
      syy := 0.0;
    }
    ghost var root, l', c', s' := ScoreOfIs(iwx, iwy, sxx, syy, sxy, range, sqrt);
    var sxsy := sqrt(sxx * syy);
    var range2 := range * range;
    var l := LuminanceFactor(iwx, iwy, 0.01 * 0.01 * range2, range);
    var c := ContrastFactor(sxx, syy, sxsy, 0.03 * 0.03 * range2, range);
    var s := StructureFactor(sxy, sxsy, 0.015 * 0.015 * range2, range);
    score := l * c * s;
    SameProduct(l, c, s, l', c', s');
  }

  lemma SameProduct(l: real, c: real, s: real, l': real, c': real, s': real)
    requires l == l' && c == c' && s == s'
    ensures l * c * s == l' * c' * s'
  {}

  method LuminanceFactor(iwx: real, iwy: real, c11: real, ghost range: real) returns (l: real)
    requires range != 0.0 && c11 == 0.01 * 0.01 * (range * range)
    ensures l == Luminance(iwx, iwy, Stabiliser(0.01, range))
  {
    ghost var k := Stabiliser(0.01, range);
    assert c11 == k;
    assert iwx * iwx == Square(iwx) && iwy * iwy == Square(iwy);
    l := (2.0 * iwx * iwy + c11) / (iwx * iwx + iwy * iwy + c11);
  }

  method ContrastFactor(sxx: real, syy: real, sxsy: real, c22: real, ghost range: real) returns (c: real)
    requires range != 0.0 && c22 == 0.03 * 0.03 * (range * range)
    requires sxx >= 0.0 && syy >= 0.0 && sxsy >= 0.0 && sxsy * sxsy == sxx * syy
    ensures c == Contrast(sxx, syy, sxsy, Stabiliser(0.03, range))
  {
    ghost var k := Stabiliser(0.03, range);
    assert c22 == k;
    c := (2.0 * sxsy + c22) / (sxx + syy + c22);
  }

  method StructureFactor(sxy: real, sxsy: real, c33: real, ghost range: real) returns (s: real)
    requires range != 0.0 && c33 == 0.015 * 0.015 * (range * range)
    requires sxsy >= 0.0
    ensures s == Structure(sxy, sxsy, Stabiliser(0.015, range))
  {
    ghost var k := Stabiliser(0.015, range);
    assert c33 == k;
    s := (sxy + c33) / (sxsy + c33);
  }

  lemma MeansFromInverse(m: Moments, iw: real, iwx: real, iwy: real, sxx: real, syy: real, sxy: real)
    requires m.w > 0.0 && iw == 1.0 / m.w && iwx == m.xm * iw && iwy == m.ym * iw
    requires sxx == m.xxm * iw - iwx * iwx && syy == m.yym * iw - iwy * iwy && sxy == m.xym * iw - iwx * iwy
    ensures iwx == MeanX(m) && iwy == MeanY(m)
    ensures sxx == VarX(m) && syy == VarY(m) && sxy == Cov(m)
  {
    InverseTimes(m.xm, m.w, iw);
    InverseTimes(m.ym, m.w, iw);
    InverseTimes(m.xxm, m.w, iw);
    InverseTimes(m.xym, m.w, iw);
    InverseTimes(m.yym, m.w, iw);
  }

  lemma InverseTimes(x: real, w: real, iw: real)
    requires w > 0.0 && iw == 1.0 / w
    ensures x * iw == x / w
  {}

  /** The five accumulations of the innermost loop. */
  method Accumulate(ghost m: Moments, wxy: real, o: real, r: real,
                    xm: real, ym: real, xxm: real, xym: real, yym: real)
    returns (xm': real, ym': real, xxm': real, xym': real, yym': real)
    requires m == Moments(m.w, xm, ym, xxm, xym, yym)
    ensures AddSample(m, wxy, o, r) == Moments(m.w + wxy, xm', ym', xxm', xym', yym')
  {
    xm' := xm + wxy * o;
    ym' := ym + wxy * r;
    xxm' := xxm + wxy * o * o;
    xym' := xym + wxy * o * r;
    yym' := yym + wxy * r * r;
  }

  lemma AddRowStep(p: Pair, xo: int, yo: int, y: int, lo: int, hi: int, m: Moments)
    requires p.Valid() && 0 <= y < p.H && yo - 3 <= y <= yo + 3
    requires 0 <= lo <= hi && xo - 3 <= lo && hi < p.W && hi <= xo + 3
    ensures AddRow(p, xo, yo, y, lo, hi + 1, m)
         == AddSample(AddRow(p, xo, yo, y, lo, hi, m), Weight(hi - xo, y - yo),
                      Pixel(p.org, p.W, p.H, hi, y), Pixel(p.rec, p.W, p.H, hi, y))
  {
    hide AddSample, Weight, Pixel;
  }

  lemma NothingAdded(p: Pair, xo: int, yo: int, y: int, lo: int, m: Moments)
    requires p.Valid() && 0 <= y < p.H && yo - 3 <= y <= yo + 3
    requires 0 <= lo && xo - 3 <= lo <= p.W && lo <= xo + 4
    ensures AddRow(p, xo, yo, y, lo, lo, m) == m
  {}

  /** zc_get_ssim_double: the kernel clipped at the image border. */
  method GetSsim(p: Pair, xo: nat, yo: nat, range: real, sqrt: real -> real) returns (score: real)
    requires p.Valid() && xo < p.W && yo < p.H
    requires range != 0.0 && IsSqrt(sqrt)
    ensures score == WindowScore(p, xo, yo, range, sqrt)
  {
    hide AddRow, Score;
    var ymin := if yo - KERNEL < 0 then 0 else yo - KERNEL;
    var ymax := if yo + KERNEL > p.H - 1 then p.H - 1 else yo + KERNEL;
    var xmin := if xo - KERNEL < 0 then 0 else xo - KERNEL;
    var xmax := if xo + KERNEL > p.W - 1 then p.W - 1 else xo + KERNEL;
    var w, xm, ym, xxm, xym, yym := 0.0, 0.0, 0.0, 0.0, 0.0, 0.0;
    for y := ymin to ymax + 1
      invariant Moments(w, xm, ym, xxm, xym, yym) == AddRows(p, xo, yo, ymin, y, xmin, xmax + 1)
    {
      w, xm, ym, xxm, xym, yym := SumRow(p, xo, yo, y, xmin, xmax, w, xm, ym, xxm, xym, yym);
    }
    WindowPsd(p, xo, yo);
    score := FinishScore(WindowMoments(p, xo, yo), 1.0 / w, xm, ym, xxm, xym, yym, range, sqrt);
  }

  /** The inner loop of the clipped kernel. */
  method SumRow(p: Pair, xo: nat, yo: nat, y: nat, xmin: nat, xmax: int,
                w0: real, xm0: real, ym0: real, xxm0: real, xym0: real, yym0: real)
    returns (w: real, xm: real, ym: real, xxm: real, xym: real, yym: real)
    requires p.Valid() && y < p.H && yo - 3 <= y <= yo + 3
    requires xo - 3 <= xmin <= xmax + 1 <= p.W && xmax <= xo + 3
    ensures Moments(w, xm, ym, xxm, xym, yym)
         == AddRow(p, xo, yo, y, xmin, xmax + 1, Moments(w0, xm0, ym0, xxm0, xym0, yym0))
  {
    hide AddSample, Pixel, Kernel, Weight, AddRow;
    NothingAdded(p, xo, yo, y, xmin, Moments(w0, xm0, ym0, xxm0, xym0, yym0));
    ghost var start := Moments(w0, xm0, ym0, xxm0, xym0, yym0);
    w, xm, ym, xxm, xym, yym := w0, xm0, ym0, xxm0, xym0, yym0;
    var wy := Kernel(KERNEL + y - yo) as real;
    for x := xmin to xmax + 1
      invariant Moments(w, xm, ym, xxm, xym, yym) == AddRow(p, xo, yo, y, xmin, x, start)
    {
      var wxy := wy * Kernel(KERNEL + x - xo) as real;
      WeightIs(x - xo, y - yo, KERNEL + x - xo, KERNEL + y - yo);
      PixelIs(p, x, y);
      var o, r := p.org[y * p.W + x], p.rec[y * p.W + x];
      ghost var m := Moments(w, xm, ym, xxm, xym, yym);
      AddRowStep(p, xo, yo, y, xmin, x, start);
      w := w + wxy;
      xm, ym, xxm, xym, yym := Accumulate(m, wxy, o, r, xm, ym, xxm, xym, yym);
    }
  }

  /** a times the sum of the first k kernel entries. */
  function PartialWeight(a: real, k: nat): real
    requires k <= 7
  {
    if k == 0 then 0.0 else PartialWeight(a, k - 1) + a * Kernel(k - 1) as real
  }

  lemma {:induction false} AddRowWeight(p: Pair, xo: int, yo: int, y: int, k: nat, m: Moments)
    requires p.Valid() && 0 <= y < p.H && yo - 3 <= y <= yo + 3
    requires 0 <= xo - 3 && k <= 7 && xo - 3 + k <= p.W
    ensures AddRow(p, xo, yo, y, xo - 3, xo - 3 + k, m).w == m.w + PartialWeight(Kernel(3 + y - yo) as real, k)
  {
    hide Kernel, Pixel, AddSample, Weight;
    if k > 0 {
      var x := xo - 3 + (k - 1);
      var before := AddRow(p, xo, yo, y, xo - 3, x, m);
      AddRowWeight(p, xo, yo, y, k - 1, m);
      WeightIs(x - xo, y - yo, k - 1, 3 + y - yo);
      AddSampleWeight(before, Weight(x - xo, y - yo), Pixel(p.org, p.W, p.H, x, y), Pixel(p.rec, p.W, p.H, x, y));
    }
  }

  lemma WeightIs(dx: int, dy: int, i: int, j: int)
    requires -3 <= dx <= 3 && -3 <= dy <= 3 && i == 3 + dx && j == 3 + dy
    ensures Weight(dx, dy) == Kernel(j) as real * Kernel(i) as real
  {}

  /** The integer product of two kernel entries is the weight of the offset it belongs to. */
  lemma FullWeightIs(i: nat, j: nat, wxy: real)
    requires i < 7 && j < 7 && wxy == (Kernel(j) * Kernel(i)) as real
    ensures wxy == Weight(i - 3, j - 3)
  {
    hide Kernel;
    IntProduct(Kernel(j), Kernel(i));
    WeightIs(i - 3, j - 3, i, j);
  }

  lemma AddSampleWeight(m: Moments, w: real, x: real, y: real)
    ensures AddSample(m, w, x, y).w == m.w + w
  {}

  lemma IntProduct(a: int, b: int)
    requires a > 0 && b > 0
    ensures (a * b) as real == a as real * b as real
  {
    if a > 1 {
      IntProduct(a - 1, b);
      assert a * b == (a - 1) * b + b;
    }
  }

  lemma {:induction false} AddRowsWeight(p: Pair, xo: int, yo: int, k: nat)
    requires p.Valid() && 3 <= xo < p.W - 3 && 3 <= yo && k <= 7 && yo - 3 + k <= p.H
    ensures AddRows(p, xo, yo, yo - 3, yo - 3 + k, xo - 3, xo + 4).w == PartialWeight(48.0, k)
  {
    hide Kernel, Pixel, AddRow;
    if k > 0 {
      AddRowsWeight(p, xo, yo, k - 1);
      AddRowWeight(p, xo, yo, yo - 4 + k, 7, AddRows(p, xo, yo, yo - 3, yo - 4 + k, xo - 3, xo + 4));
      FullWeight(Kernel(k - 1) as real);
    }
  }

  lemma FullWeight(a: real)
    ensures PartialWeight(a, 7) == a * 48.0
  {
    assert PartialWeight(a, 1) == a;
    assert PartialWeight(a, 2) == a * 5.0;
    assert PartialWeight(a, 3) == a * 16.0;
    assert PartialWeight(a, 4) == a * 32.0;
    assert PartialWeight(a, 5) == a * 43.0;
    assert PartialWeight(a, 6) == a * 47.0;
  }

  /** Away from the border the window is not clipped and its total weight is 48 * 48. */
  lemma InteriorWeight(p: Pair, xo: int, yo: int)
    requires p.Valid() && 3 <= xo < p.W - 3 && 3 <= yo < p.H - 3
    ensures WindowMoments(p, xo, yo) == AddRows(p, xo, yo, yo - 3, yo + 4, xo - 3, xo + 4)
    ensures WindowMoments(p, xo, yo).w == 2304.0
  {
    hide AddRows, PartialWeight;
    AddRowsWeight(p, xo, yo, 7);
    FullWeight(48.0);
  }

  /** zc_get_ssimfull_kernel_double: the unclipped kernel with its precomputed weight. */
  method GetSsimFullKernel(p: Pair, xo: nat, yo: nat, range: real, sqrt: real -> real) returns (score: real)
    requires p.Valid() && 3 <= xo < p.W - 3 && 3 <= yo < p.H - 3
    requires range != 0.0 && IsSqrt(sqrt)
    ensures score == WindowScore(p, xo, yo, range, sqrt)
  {
    hide AddRow, Score;
    var left, top := xo - KERNEL, yo - KERNEL;
    var xm, ym, xxm, xym, yym := 0.0, 0.0, 0.0, 0.0, 0.0;
    ghost var m := NONE;
    for y' := 0 to 7
      invariant m == AddRows(p, xo, yo, top, top + y', left, left + 7)
      invariant m == Moments(m.w, xm, ym, xxm, xym, yym)
    {
      m, xm, ym, xxm, xym, yym := SumFullRow(p, xo, yo, y', m, xm, ym, xxm, xym, yym);
    }
    InteriorWeight(p, xo, yo);
    WindowPsd(p, xo, yo);
    score := FinishScore(m, 1.0 / 2304.0, xm, ym, xxm, xym, yym, range, sqrt);
  }

  /** The inner loop of the unclipped kernel, which does not sum the weights. */
  method SumFullRow(p: Pair, xo: nat, yo: nat, y': nat, ghost start: Moments,
                    xm0: real, ym0: real, xxm0: real, xym0: real, yym0: real)
    returns (ghost m: Moments, xm: real, ym: real, xxm: real, xym: real, yym: real)
    requires p.Valid() && 3 <= xo < p.W - 3 && 3 <= yo < p.H - 3 && y' < 7
    requires start == Moments(start.w, xm0, ym0, xxm0, xym0, yym0)
    ensures m == AddRow(p, xo, yo, yo - 3 + y', xo - 3, xo + 4, start)
    ensures m == Moments(m.w, xm, ym, xxm, xym, yym)
  {
    hide AddSample, Pixel, Kernel, Weight, AddRow;
    var left, top := xo - KERNEL, yo - KERNEL;
    NothingAdded(p, xo, yo, top + y', left, start);
    m, xm, ym, xxm, xym, yym := start, xm0, ym0, xxm0, xym0, yym0;
    var wy := Kernel(y');
    for x' := 0 to 7
      invariant m == AddRow(p, xo, yo, top + y', left, left + x', start)
      invariant m == Moments(m.w, xm, ym, xxm, xym, yym)
    {
      var wxy := (wy * Kernel(x')) as real;
      FullWeightIs(x', y', wxy);
      PixelIs(p, left + x', top + y');
      var o, r := p.org[(top + y') * p.W + (left + x')], p.rec[(top + y') * p.W + (left + x')];
      AddRowStep(p, xo, yo, top + y', left, left + x', start);
      xm, ym, xxm, xym, yym := Accumulate(m, wxy, o, r, xm, ym, xxm, xym, yym);
      m := AddSample(m, wxy, o, r);
    }
  }
}
