/**
  A volume whose every score is negative, so that the maximum reported by
  zc_calc_ssim_3d_double, which starts at 0, belongs to no layer.
 */
module SsimNegative {
  import opened Arithmetic
  import opened Moments
  import opened Ssim
  import opened SsimImage

  /** Rows of 9 and rows of 11 in turn, and their reflection at 10. */
  function Stripe(y: int): real { if y % 2 == 0 then 9.0 else 11.0 }

  function Stripes(W: nat): (a: Image)
    requires W > 0
    ensures |a| == W * 6
  {
    NatProduct(W, 6);
    seq(W * 6, i requires 0 <= i < W * 6 => Stripe(i / W))
  }

  function Reflected(W: nat): (a: Image)
    requires W > 0
    ensures |a| == W * 6
  {
    NatProduct(W, 6);
    seq(W * 6, i requires 0 <= i < W * 6 => 20.0 - Stripe(i / W))
  }

  function StripePair(W: nat): (p: Pair)
    requires W > 0
    ensures p.Valid() && p.W == W && p.H == 6
  {
    Pair(Stripes(W), Reflected(W), W, 6)
  }

  lemma StripePixels(W: nat, x: nat, y: nat)
    requires W > 0 && x < W && y < 6
    ensures var p := StripePair(W);
            Pixel(p.org, W, 6, x, y) == Stripe(y) && Pixel(p.rec, W, 6, x, y) == 20.0 - Stripe(y)
  {
    hide Stripe;
    PixelIndex(x, y, W, 6);
    QuotRem(y * W + x, y, W, x);
  }

  // ----- a window of stripes -----

  /** The sum of the horizontal kernel entries over columns lo..hi. */
  function Spread(xo: int, lo: int, hi: int): (r: real)
    requires xo - 3 <= lo && hi <= xo + 4
    ensures r >= 0.0 && (lo < hi ==> r > 0.0)
    decreases hi - lo
  {
    if hi <= lo then 0.0 else Spread(xo, lo, hi - 1) + Kernel(3 + hi - 1 - xo) as real
  }

  lemma SampleTwice(m: Moments, a: real, b: real, x: real, y: real)
    ensures AddSample(AddSample(m, a, x, y), b, x, y) == AddSample(m, a + b, x, y)
    ensures AddSample(m, 0.0, x, y) == m
  {}

  lemma SpreadStep(xo: int, lo: int, x: int)
    requires xo - 3 <= lo <= x <= xo + 3
    ensures Spread(xo, lo, lo) == 0.0 && Spread(xo, lo, x + 1) == Spread(xo, lo, x) + Kernel(3 + x - xo) as real
  {}

  /** The weight of row y of a window over columns lo..hi. */
  function RowWeight(xo: int, yo: int, y: int, lo: int, hi: int): real
    requires xo - 3 <= lo && hi <= xo + 4 && yo - 3 <= y <= yo + 3
  {
    Kernel(3 + y - yo) as real * Spread(xo, lo, hi)
  }

  lemma RowWeightStep(xo: int, yo: int, y: int, lo: int, x: int)
    requires xo - 3 <= lo <= x <= xo + 3 && yo - 3 <= y <= yo + 3
    ensures RowWeight(xo, yo, y, lo, lo) == 0.0
    ensures RowWeight(xo, yo, y, lo, x + 1) == RowWeight(xo, yo, y, lo, x) + Weight(x - xo, y - yo)
  {
    hide Kernel, Spread, Weight;
    var k := Kernel(3 + y - yo) as real;
    SpreadStep(xo, lo, x);
    WeightIs(x - xo, y - yo, 3 + x - xo, 3 + y - yo);
    Distribute(k, Spread(xo, lo, x), Kernel(3 + x - xo) as real, Spread(xo, lo, x + 1));
  }

  lemma Distribute(k: real, a: real, b: real, c: real)
    requires c == a + b
    ensures k * c == k * a + k * b
  {}

  /** A row of a stripe counts like one pixel with the weight of them all. */
  lemma {:induction false} StripeRow(W: nat, xo: int, yo: int, y: int, lo: int, hi: int, m: Moments)
    requires W > 0 && 0 <= y < 6 && yo - 3 <= y <= yo + 3
    requires 0 <= lo <= hi && xo - 3 <= lo && hi <= W && lo <= xo + 3 && hi <= xo + 4
    ensures AddRow(StripePair(W), xo, yo, y, lo, hi, m)
         == AddSample(m, RowWeight(xo, yo, y, lo, hi), Stripe(y), 20.0 - Stripe(y))
    decreases hi - lo
  {
    hide AddSample, Pixel, Weight, Stripe, StripePair, AddRow, RowWeight;
    if hi <= lo {
      RowWeightStep(xo, yo, y, lo, lo);
      NothingAdded(StripePair(W), xo, yo, y, lo, m);
      SampleTwice(m, 0.0, 0.0, Stripe(y), 20.0 - Stripe(y));
    } else {
      var x := hi - 1;
      StripeRow(W, xo, yo, y, lo, x, m);
      AddRowStep(StripePair(W), xo, yo, y, lo, x, m);
      StripePixels(W, x, y);
      RowWeightStep(xo, yo, y, lo, x);
      JoinSamples(m, RowWeight(xo, yo, y, lo, x), Weight(x - xo, y - yo), RowWeight(xo, yo, y, lo, hi),
                  Stripe(y), 20.0 - Stripe(y));
    }
  }

  lemma JoinSamples(m: Moments, a: real, b: real, c: real, x: real, y: real)
    requires c == a + b
    ensures AddSample(AddSample(m, a, x, y), b, x, y) == AddSample(m, c, x, y)
  {
    SampleTwice(m, a, b, x, y);
    hide AddSample;
  }

  /** The kernel entries of the window's rows of 9 and of 11. */
  datatype Rows = Rows(nine: real, eleven: real)

  function RowsOf(yo: int, top: int, bottom: int): Rows
    requires yo - 3 <= top && bottom <= yo + 4
    decreases bottom - top
  {
    if bottom <= top then Rows(0.0, 0.0) else AddEntry(RowsOf(yo, top, bottom - 1), yo, bottom - 1)
  }

  function AddEntry(r: Rows, yo: int, y: int): Rows
    requires yo - 3 <= y <= yo + 3
  {
    var k := Kernel(3 + y - yo) as real;
    if y % 2 == 0 then Rows(r.nine + k, r.eleven) else Rows(r.nine, r.eleven + k)
  }

  /** The moments of so many nines and elevens, each weighted by spread. */
  function Mixed(spread: real, r: Rows): Moments {
    var a, b := r.nine, r.eleven;
    Scaled(spread, a + b, 9.0 * a + 11.0 * b, 11.0 * a + 9.0 * b,
           81.0 * a + 121.0 * b, 99.0 * a + 99.0 * b, 121.0 * a + 81.0 * b)
  }

  function Scaled(spread: real, n: real, x: real, y: real, xx: real, xy: real, yy: real): Moments {
    Moments(n * spread, x * spread, y * spread, xx * spread, xy * spread, yy * spread)
  }

  lemma MixedStep(spread: real, r: Rows, k: real, w: real)
    requires w == k * spread
    ensures AddSample(Mixed(spread, r), w, 9.0, 11.0) == Mixed(spread, Rows(r.nine + k, r.eleven))
    ensures AddSample(Mixed(spread, r), w, 11.0, 9.0) == Mixed(spread, Rows(r.nine, r.eleven + k))
  {
    var a, b := r.nine, r.eleven;
    assert (a + k + b) * spread == (a + b) * spread + w && (a + (b + k)) * spread == (a + b) * spread + w;
  }

  lemma StripeValues(y: int)
    ensures Stripe(y) == (if y % 2 == 0 then 9.0 else 11.0) && 20.0 - Stripe(y) == if y % 2 == 0 then 11.0 else 9.0
  {}

  /** One more row of the window. */
  lemma StripeRowsStep(W: nat, xo: int, yo: int, y: int, lo: int, hi: int, r: Rows)
    requires W > 0 && 0 <= y < 6 && yo - 3 <= y <= yo + 3
    requires 0 <= lo <= hi && xo - 3 <= lo <= xo + 3 && hi <= W && hi <= xo + 4
    ensures AddRow(StripePair(W), xo, yo, y, lo, hi, Mixed(Spread(xo, lo, hi), r))
         == Mixed(Spread(xo, lo, hi), AddEntry(r, yo, y))
  {
    hide AddRow, AddSample, Kernel, StripePair, Mixed, Spread, Stripe;
    StripeRow(W, xo, yo, y, lo, hi, Mixed(Spread(xo, lo, hi), r));
    MixedStep(Spread(xo, lo, hi), r, Kernel(3 + y - yo) as real, RowWeight(xo, yo, y, lo, hi));
    StripeValues(y);
  }

  lemma {:induction false} StripeRows(W: nat, xo: int, yo: int, top: int, bottom: int, lo: int, hi: int)
    requires W > 0 && 0 <= top && yo - 3 <= top && bottom <= 6 && bottom <= yo + 4
    requires 0 <= lo <= hi && xo - 3 <= lo <= xo + 3 && hi <= W && hi <= xo + 4
    ensures AddRows(StripePair(W), xo, yo, top, bottom, lo, hi) == Mixed(Spread(xo, lo, hi), RowsOf(yo, top, bottom))
    decreases bottom - top
  {
    hide AddRow, Kernel, StripePair, Mixed, Spread, AddEntry;
    if bottom <= top {
      NothingMixed(Spread(xo, lo, hi));
    } else {
      StripeRows(W, xo, yo, top, bottom - 1, lo, hi);
      StripeRowsStep(W, xo, yo, bottom - 1, lo, hi, RowsOf(yo, top, bottom - 1));
    }
  }

  lemma NothingMixed(spread: real)
    ensures Mixed(spread, Rows(0.0, 0.0)) == NONE
  {}

  // ----- its score -----

  lemma CancelSpread(a: real, b: real, spread: real)
    requires b > 0.0 && spread > 0.0
    ensures b * spread > 0.0 && a * spread / (b * spread) == a / b
  {
    PositiveProduct(b, spread, b * spread);
    var p, q := a * spread / (b * spread), a / b;
    assert p * (b * spread) == a * spread && q * b == a;
    var d := p - q;
    assert d * (b * spread) == p * (b * spread) - q * b * spread;
    assert d * (b * spread) == 0.0;
  }

  lemma ScaledFacts(s: real, n: real, x: real, y: real, xx: real, xy: real, yy: real)
    requires s > 0.0 && n > 0.0
    ensures var m := Scaled(s, n, x, y, xx, xy, yy);
            && m.w > 0.0 && MeanX(m) == x / n && MeanY(m) == y / n
            && VarX(m) == xx / n - x / n * (x / n) && VarY(m) == yy / n - y / n * (y / n)
            && Cov(m) == xy / n - x / n * (y / n)
  {
    CancelSpread(x, n, s);
    CancelSpread(y, n, s);
    CancelSpread(xx, n, s);
    CancelSpread(xy, n, s);
    CancelSpread(yy, n, s);
  }

  /** Mean t, reflected mean 20 - t, equal variances 20t - 99 - t*t and the opposite covariance. */
  lemma MixedMoments(spread: real, r: Rows)
    requires spread > 0.0 && r.nine > 0.0 && r.eleven > 0.0
    ensures var a, b := r.nine, r.eleven;
            var m, t := Mixed(spread, r), (9.0 * a + 11.0 * b) / (a + b);
            && m.w > 0.0 && MeanX(m) == t && MeanY(m) == 20.0 - t
            && VarX(m) == VarY(m) == 20.0 * t - 99.0 - t * t && Cov(m) == -VarX(m)
  {
    hide MeanX, MeanY, VarX, VarY, Cov, Scaled;
    var a, b := r.nine, r.eleven;
    var n := a + b;
    ScaledFacts(spread, n, 9.0 * a + 11.0 * b, 11.0 * a + 9.0 * b,
                81.0 * a + 121.0 * b, 99.0 * a + 99.0 * b, 121.0 * a + 81.0 * b);
    Ratios(a, b, n);
    Opposites((9.0 * a + 11.0 * b) / n);
  }

  lemma Opposites(t: real)
    ensures 301.0 - 20.0 * t - (20.0 - t) * (20.0 - t) == 20.0 * t - 99.0 - t * t
    ensures 99.0 - t * (20.0 - t) == -(20.0 * t - 99.0 - t * t)
  {}

  lemma Ratios(a: real, b: real, n: real)
    requires n == a + b > 0.0
    ensures var t := (9.0 * a + 11.0 * b) / n;
            && (11.0 * a + 9.0 * b) / n == 20.0 - t && (81.0 * a + 121.0 * b) / n == 20.0 * t - 99.0
            && (99.0 * a + 99.0 * b) / n == 99.0 && (121.0 * a + 81.0 * b) / n == 301.0 - 20.0 * t
  {
    var t := (9.0 * a + 11.0 * b) / n;
    assert t * n == 9.0 * a + 11.0 * b;
    QuotientIs(11.0 * a + 9.0 * b, n, 20.0 - t);
    QuotientIs(81.0 * a + 121.0 * b, n, 20.0 * t - 99.0);
    QuotientIs(99.0 * a + 99.0 * b, n, 99.0);
    QuotientIs(121.0 * a + 81.0 * b, n, 301.0 - 20.0 * t);
  }

  lemma QuotientIs(x: real, n: real, q: real)
    requires n > 0.0 && q * n == x
    ensures x / n == q
  {
    var p := x / n;
    assert p * n == x;
    assert (p - q) * n == 0.0;
  }

  /** RowsOf written out from any four rows on. */
  lemma RowsFrom(yo: int, top: int, r: Rows)
    requires yo - 3 <= top && top + 4 <= yo + 4
    requires r.nine == Nine(yo, top) + Nine(yo, top + 1) + Nine(yo, top + 2) + Nine(yo, top + 3)
    requires r.eleven == Eleven(yo, top) + Eleven(yo, top + 1) + Eleven(yo, top + 2) + Eleven(yo, top + 3)
    ensures RowsOf(yo, top, top + 4) == r
  {
    hide RowsOf, Nine, Eleven;
    OneRow(yo, top, top);
    OneRow(yo, top, top + 1);
    OneRow(yo, top, top + 2);
    OneRow(yo, top, top + 3);
  }

  /** Every window of six rows mixes the two values well enough. */
  lemma WindowRows(yo: nat)
    requires yo < 6
    ensures var r := RowsOf(yo, ClipLow(yo), ClipHigh(yo, 6) + 1); 12.0 <= r.nine <= 24.0 && 12.0 <= r.eleven <= 24.0
  {
    hide RowsOf;
    if yo == 0 {
      RowsFrom(0, 0, Rows(20.0, 12.0));
    } else if yo == 1 {
      RowsFrom(1, 0, Rows(22.0, 20.0));
      OneRow(1, 0, 4);
    } else if yo == 2 {
      RowsFrom(2, 0, Rows(20.0, 22.0));
      OneRow(2, 0, 4);
      OneRow(2, 0, 5);
    } else if yo == 3 {
      RowsFrom(3, 0, Rows(12.0, 20.0));
      OneRow(3, 0, 4);
      OneRow(3, 0, 5);
    } else if yo == 4 {
      RowsFrom(4, 1, Rows(20.0, 12.0));
      OneRow(4, 1, 5);
    } else {
      RowsFrom(5, 2, Rows(12.0, 20.0));
    }
  }

  function Nine(yo: int, y: int): real
    requires yo - 3 <= y <= yo + 3
  {
    if y % 2 == 0 then Kernel(3 + y - yo) as real else 0.0
  }

  function Eleven(yo: int, y: int): real
    requires yo - 3 <= y <= yo + 3
  {
    if y % 2 == 0 then 0.0 else Kernel(3 + y - yo) as real
  }

  lemma OneRow(yo: int, top: int, y: int)
    requires yo - 3 <= top <= y <= yo + 3
    ensures RowsOf(yo, top, top) == Rows(0.0, 0.0)
    ensures var r := RowsOf(yo, top, y); RowsOf(yo, top, y + 1) == Rows(r.nine + Nine(yo, y), r.eleven + Eleven(yo, y))
  {
    hide Kernel;
  }

  /** Opposite samples that vary enough score below zero at value range 2. */
  lemma OppositeScore(m: Moments, sqrt: real -> real)
    requires m.w > 0.0 && IsSqrt(sqrt) && MeanX(m) > 0.0 && MeanY(m) > 0.0
    requires VarX(m) == VarY(m) == -Cov(m) > 0.0009
    ensures Score(m, 2.0, sqrt) < 0.0
  {
    var a, b, s := MeanX(m), MeanY(m), VarX(m);
    hide MeanX, MeanY, VarX, VarY, Cov;
    OppositeScoreOf(a, b, s, sqrt);
  }

  lemma OppositeScoreOf(a: real, b: real, s: real, sqrt: real -> real)
    requires IsSqrt(sqrt) && a > 0.0 && b > 0.0 && s > 0.0009
    ensures ScoreOf(a, b, s, s, -s, 2.0, sqrt) < 0.0
  {
    hide Luminance, Contrast, Structure, Stabiliser, IsSqrt;
    var product := s * s;
    PositiveProduct(s, s, product);
    RootOf(sqrt, product);
    var root := sqrt(product);
    BetweenRoots(root, s);
    BetweenRoots(s, root);
    assert root == s;
    var l := Luminance(a, b, Stabiliser(0.01, 2.0));
    var c := Contrast(s, s, s, Stabiliser(0.03, 2.0));
    var st := Structure(-s, s, Stabiliser(0.015, 2.0));
    LuminancePositive(a, b, Stabiliser(0.01, 2.0));
    SmallStabiliser();
    StructureNegative(s, Stabiliser(0.015, 2.0));
    assert c == 1.0;
    PositiveProduct(l, -st, -(l * st));
    assert l * c * st == l * st;
  }

  lemma SmallStabiliser()
    ensures Stabiliser(0.015, 2.0) == 0.0009
  {}

  lemma LuminancePositive(a: real, b: real, k: real)
    requires a > 0.0 && b > 0.0 && k > 0.0
    ensures Luminance(a, b, k) > 0.0
  {
    PositiveProduct(a, b, a * b);
    var n, d := 2.0 * (a * b) + k, Square(a) + Square(b) + k;
    PositiveQuotient(n, d);
  }

  lemma StructureNegative(s: real, k: real)
    requires s > k > 0.0
    ensures Structure(-s, s, k) < 0.0
  {
    PositiveQuotient(s - k, s + k);
    var q := (s - k) / (s + k);
    OppositeQuotient(s - k, s + k);
    assert -s + k == -(s - k);
  }

  lemma PositiveQuotient(n: real, d: real)
    requires n > 0.0 && d > 0.0
    ensures n / d > 0.0
  {
    var q := n / d;
    assert d * q == n;
    PositiveFactor(d, q);
    assert q != 0.0;
  }

  lemma OppositeQuotient(n: real, d: real)
    requires d > 0.0
    ensures -n / d == -(n / d)
  {
    var p, q := -n / d, n / d;
    assert p * d == -n && q * d == n;
    assert (p + q) * d == 0.0;
  }

  /** The mean of at least a third of either value is close to 10. */
  lemma MeanBetween(a: real, b: real, t: real)
    requires 12.0 <= a <= 24.0 && 12.0 <= b <= 24.0 && t * (a + b) == 9.0 * a + 11.0 * b
    ensures 9.5 <= t <= 10.5 && 20.0 * t - 99.0 - t * t > 0.0009
  {
    var n := a + b;
    assert n * (t - 9.5) == 1.5 * b - 0.5 * a;
    assert n * (10.5 - t) == 1.5 * a - 0.5 * b;
    PositiveFactor(n, t - 9.5);
    PositiveFactor(n, 10.5 - t);
    ProductNonneg(t - 9.5, 10.5 - t);
    assert (t - 9.5) * (10.5 - t) == 20.0 * t - t * t - 99.75;
  }

  lemma WindowNegative(W: nat, x: nat, y: nat, sqrt: real -> real)
    requires W > 0 && x < W && y < 6 && IsSqrt(sqrt)
    ensures WindowScore(StripePair(W), x, y, 2.0, sqrt) < 0.0
  {
    hide StripePair, Mixed, RowsOf, IsSqrt, Score, MeanX, MeanY, VarX, VarY, Cov, AddRows, Spread;
    var p := StripePair(W);
    var lo, hi := ClipLow(x), ClipHigh(x, W) + 1;
    var r := RowsOf(y, ClipLow(y), ClipHigh(y, 6) + 1);
    var spread := Spread(x, lo, hi);
    StripeRows(W, x, y, ClipLow(y), ClipHigh(y, 6) + 1, lo, hi);
    WindowRows(y);
    WindowPsd(p, x, y);
    assert WindowMoments(p, x, y) == Mixed(spread, r);
    MixedMoments(spread, r);
    var a, b := r.nine, r.eleven;
    var t := (9.0 * a + 11.0 * b) / (a + b);
    MeanBetween(a, b, t);
    OppositeScore(Mixed(spread, r), sqrt);
  }

  // ----- the image and the volume -----

  lemma StripeRange(W: nat)
    requires W > 0
    ensures ValueRange(Stripes(W)) == 2.0 && !Constant(Stripes(W))
  {
    var a := Stripes(W);
    NatProduct(W, 6);
    Extremes(a, |a|);
    assert a[..|a|] == a;
    QuotRem(0, 0, W, 0);
    QuotRem(W, 1, W, 0);
    assert a[0] == 9.0 && a[W] == 11.0;
    assert forall i :: 0 <= i < |a| ==> 9.0 <= a[i] <= 11.0;
  }

  lemma {:induction false} RowNegative(W: nat, y: nat, hi: nat, sqrt: real -> real)
    requires W > 0 && y < 6 && 0 < hi <= W && IsSqrt(sqrt)
    ensures Scorer(StripePair(W), 2.0, sqrt).Row(y, 0, hi) < 0.0
  {
    hide StripePair, WindowScore, IsSqrt;
    var s := Scorer(StripePair(W), 2.0, sqrt);
    WindowNegative(W, hi - 1, y, sqrt);
    if hi > 1 {
      RowNegative(W, y, hi - 1, sqrt);
    } else {
      assert s.Row(y, 0, 0) == 0.0;
    }
  }

  lemma {:induction false} RowsNegative(W: nat, hi: nat, sqrt: real -> real)
    requires W > 0 && 0 < hi <= 6 && IsSqrt(sqrt)
    ensures Scorer(StripePair(W), 2.0, sqrt).Rows(0, hi) < 0.0
  {
    hide StripePair, WindowScore, IsSqrt, Scorer.Row;
    var s := Scorer(StripePair(W), 2.0, sqrt);
    RowNegative(W, hi - 1, W, sqrt);
    if hi > 1 {
      RowsNegative(W, hi - 1, sqrt);
    } else {
      assert s.Rows(0, 0) == 0.0;
    }
  }

  /** Six rows of stripes against their reflection, at any width. */
  lemma ImageNegative(W: nat, sqrt: real -> real)
    requires W > 0 && IsSqrt(sqrt)
    ensures !Constant(StripePair(W).org) && Ssim2D(StripePair(W), sqrt) < 0.0
  {
    hide Stripes, Reflected, IsSqrt, Scorer.Rows, Scorer.Visited, ValueRange, Constant;
    StripeRange(W);
    var p := StripePair(W);
    RowsNegative(W, 6, sqrt);
    VisitedIsWhole(Scorer(p, 2.0, sqrt));
    SizePositive(W, 6);
    NegativeQuotient(Scorer(p, 2.0, sqrt).Visited(), (W * 6) as real);
  }

  lemma NegativeQuotient(n: real, d: real)
    requires n < 0.0 && d > 0.0
    ensures n / d < 0.0
  {
    PositiveQuotient(-n, d);
    OppositeQuotient(n, d);
  }

  /** The reported maximum of this volume is 0, which is the score of no layer. */
  lemma MaximumOfNoLayer(W: nat, sqrt: real -> real)
    requires W > 0 && IsSqrt(sqrt)
    ensures var v := Volume(Stripes(W), Reflected(W), 1, W, 6);
            && v.Valid() && Reaches(W, 6) && Covered(W, 6)
            && var s := v.ScoresFrom(0, sqrt); s != [] && Greatest(0.0, s) == 0.0 && Greatest(0.0, s) !in s
  {
    hide Stripes, Reflected, IsSqrt, Ssim2D, Constant, StripePair, Volume.Pair;
    ImageNegative(W, sqrt);
    OnlyLayer(W);
    var v := Volume(Stripes(W), Reflected(W), 1, W, 6);
    var x := Ssim2D(v.Pair(0), sqrt);
    assert v.ScoresFrom(0 + v.Step(), sqrt) == [];
    assert v.ScoresFrom(0, sqrt) == [x];
    assert [x][..0] == [];
    assert Greatest(0.0, [x]) == 0.0;
  }

  lemma OnlyLayer(W: nat)
    requires W > 0
    ensures var v := Volume(Stripes(W), Reflected(W), 1, W, 6); v.Valid() && v.Pair(0) == StripePair(W)
  {
    hide Stripes, Reflected;
    var v := Volume(Stripes(W), Reflected(W), 1, W, 6);
    assert 1 * (W * 6) == W * 6;
    LayerBounds(0, 1, W * 6);
    assert Layer(v.org, W * 6, 0) == v.org && Layer(v.rec, W * 6, 0) == v.rec;
  }
}
