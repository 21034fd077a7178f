/**
  The image-level similarity of zc/src/ZC_ssim.c: the mean window score of an
  image, and its extremes and mean over sampled layers of a volume.
 */
module SsimImage {
  import opened Arithmetic
  import opened Moments
  import opened Ssim

  // ----- value range -----

  function MinOf(a: Image, n: nat): real
    requires 0 < n <= |a|
  {
    if n == 1 then a[0] else if MinOf(a, n - 1) > a[n - 1] then a[n - 1] else MinOf(a, n - 1)
  }

  function MaxOf(a: Image, n: nat): real
    requires 0 < n <= |a|
  {
    if n == 1 then a[0] else if MaxOf(a, n - 1) < a[n - 1] then a[n - 1] else MaxOf(a, n - 1)
  }

  function ValueRange(a: Image): real
    requires a != []
  {
    MaxOf(a, |a|) - MinOf(a, |a|)
  }

  ghost predicate Constant(a: Image) {
    forall i, j :: 0 <= i < |a| && 0 <= j < |a| ==> a[i] == a[j]
  }

  lemma {:induction false} Extremes(a: Image, n: nat)
    requires 0 < n <= |a|
    ensures forall i :: 0 <= i < n ==> MinOf(a, n) <= a[i] <= MaxOf(a, n)
    ensures MinOf(a, n) in a[..n] && MaxOf(a, n) in a[..n]
  {
    if n > 1 {
      Extremes(a, n - 1);
      assert a[..n] == a[..n - 1] + [a[n - 1]];
    }
  }

  /** The range is zero exactly for a constant image. */
  lemma RangeIsZero(a: Image)
    requires a != []
    ensures ValueRange(a) >= 0.0
    ensures ValueRange(a) == 0.0 <==> Constant(a)
  {
    Extremes(a, |a|);
    assert a[..|a|] == a;
    assert MinOf(a, |a|) <= a[0] <= MaxOf(a, |a|);
  }

  // ----- sums of scores -----

  /** A pair of images with the range and root function its scores use. */
  datatype Scorer = Scorer(p: Pair, range: real, sqrt: real -> real) {
    ghost predicate Valid() { p.Valid() && range != 0.0 && IsSqrt(sqrt) }

    function At(x: nat, y: nat): real
      requires Valid() && x < p.W && y < p.H
    {
      WindowScore(p, x, y, range, sqrt)
    }

    /** The scores of row y at columns lo..hi. */
    function Row(y: nat, lo: nat, hi: nat): real
      requires Valid() && y < p.H && hi <= p.W
    {
      if hi <= lo then 0.0 else Row(y, lo, hi - 1) + At(hi - 1, y)
    }

    /** The scores of the whole rows lo..hi. */
    function Rows(lo: nat, hi: nat): real
      requires Valid() && hi <= p.H
    {
      if hi <= lo then 0.0 else Rows(lo, hi - 1) + Row(hi - 1, 0, p.W)
    }

    /** The scores of a middle row in the three stretches in which the source visits it. */
    function MiddleRow(y: nat): real
      requires Valid() && y < p.H && p.W >= 3
    {
      Row(y, 0, 3) + Row(y, 3, p.W - 3) + Row(y, p.W - 3, p.W)
    }

    function MiddleRows(lo: nat, hi: nat): real
      requires Valid() && hi <= p.H && (lo < hi ==> p.W >= 3)
    {
      if hi <= lo then 0.0 else MiddleRows(lo, hi - 1) + MiddleRow(hi - 1)
    }

    /** Everything the source adds up: three top rows, the middle, three bottom rows. */
    function Visited(): real
      requires Valid() && Reaches(p.W, p.H)
    {
      Rows(0, 3) + MiddleRows(3, p.H - 3) + Rows(p.H - 3, p.H)
    }
  }

  /** The sizes for which no unsigned subtraction wraps. */
  predicate Reaches(W: nat, H: nat) {
    W > 0 && H >= 3 && (H > 6 ==> W >= 3)
  }

  /** How many window scores the source adds up. */
  function Visits(W: nat, H: nat): int {
    3 * W + (if H > 6 then (H - 6) * (6 + (if W > 6 then W - 6 else 0)) else 0) + 3 * W
  }

  /** The sizes at which every pixel is visited exactly once. */
  predicate Covered(W: nat, H: nat) {
    H >= 6 && (H == 6 || W >= 6)
  }

  lemma VisitsAllOnce(W: nat, H: nat)
    requires Reaches(W, H)
    ensures Visits(W, H) == W * H <==> Covered(W, H)
  {
    if H > 6 {
      assert W * H == (H - 6) * W + 6 * W;
      if W < 6 {
        assert (H - 6) * 6 == (H - 6) * W + (H - 6) * (6 - W);
        assert (H - 6) * (6 - W) > 0;
      }
    } else {
      assert W * H == 6 * W - (6 - H) * W;
      if H < 6 {
        assert (6 - H) * W > 0;
      }
    }
  }

  lemma {:induction false} RowSplit(s: Scorer, y: nat, lo: nat, mid: nat, hi: nat)
    requires s.Valid() && y < s.p.H && lo <= mid <= hi <= s.p.W
    ensures s.Row(y, lo, hi) == s.Row(y, lo, mid) + s.Row(y, mid, hi)
    decreases hi
  {
    if mid < hi {
      RowSplit(s, y, lo, mid, hi - 1);
    }
  }

  lemma {:induction false} RowsSplit(s: Scorer, lo: nat, mid: nat, hi: nat)
    requires s.Valid() && lo <= mid <= hi <= s.p.H
    ensures s.Rows(lo, hi) == s.Rows(lo, mid) + s.Rows(mid, hi)
    decreases hi
  {
    if mid < hi {
      RowsSplit(s, lo, mid, hi - 1);
    }
  }

  lemma {:induction false} MiddleIsWhole(s: Scorer, lo: nat, hi: nat)
    requires s.Valid() && hi <= s.p.H && s.p.W >= 6
    ensures s.MiddleRows(lo, hi) == s.Rows(lo, hi)
    decreases hi
  {
    hide Scorer.Row;
    if lo < hi {
      MiddleIsWhole(s, lo, hi - 1);
      RowSplit(s, hi - 1, 0, 3, s.p.W - 3);
      RowSplit(s, hi - 1, 0, s.p.W - 3, s.p.W);
    }
  }

  /** At covered sizes the source sums each pixel's score exactly once. */
  lemma VisitedIsWhole(s: Scorer)
    requires s.Valid() && Covered(s.p.W, s.p.H)
    ensures s.Visited() == s.Rows(0, s.p.H)
  {
    var h := s.p.H;
    if h > 6 {
      MiddleIsWhole(s, 3, h - 3);
    }
    RowsSplit(s, 0, 3, h - 3);
    RowsSplit(s, 0, h - 3, h);
  }

  lemma {:induction false} RowBound(s: Scorer, y: nat, lo: nat, hi: nat)
    requires s.Valid() && y < s.p.H && lo <= hi <= s.p.W
    ensures -((hi - lo) as real) <= s.Row(y, lo, hi) <= (hi - lo) as real
    decreases hi
  {
    hide Score;
    if lo < hi {
      RowBound(s, y, lo, hi - 1);
      WindowPsd(s.p, hi - 1, y);
      ScoreBound(WindowMoments(s.p, hi - 1, y), s.range, s.sqrt);
    }
  }

  lemma {:induction false} RowsBound(s: Scorer, lo: nat, hi: nat)
    requires s.Valid() && lo <= hi <= s.p.H
    ensures -(((hi - lo) * s.p.W) as real) <= s.Rows(lo, hi) <= ((hi - lo) * s.p.W) as real
    decreases hi
  {
    hide Scorer.Row;
    if lo < hi {
      RowsBound(s, lo, hi - 1);
      RowBound(s, hi - 1, 0, s.p.W);
      assert (hi - lo) * s.p.W == (hi - 1 - lo) * s.p.W + s.p.W;
    }
  }

  lemma {:induction false} AddRowDiagonal(p: Pair, xo: int, yo: int, y: int, lo: int, hi: int, m: Moments)
    requires p.Valid() && p.org == p.rec && 0 <= y < p.H && yo - 3 <= y <= yo + 3
    requires 0 <= lo && xo - 3 <= lo && hi <= p.W && hi <= xo + 4
    requires Diagonal(m)
    ensures Diagonal(AddRow(p, xo, yo, y, lo, hi, m))
    decreases hi - lo
  {
    hide Pixel, Weight;
    if lo < hi {
      AddRowDiagonal(p, xo, yo, y, lo, hi - 1, m);
    }
  }

  lemma {:induction false} AddRowsDiagonal(p: Pair, xo: int, yo: int, top: int, bottom: int, lo: int, hi: int)
    requires p.Valid() && p.org == p.rec
    requires 0 <= top && yo - 3 <= top && bottom <= p.H && bottom <= yo + 4
    requires 0 <= lo && xo - 3 <= lo && hi <= p.W && hi <= xo + 4
    ensures Diagonal(AddRows(p, xo, yo, top, bottom, lo, hi))
    decreases bottom - top
  {
    hide AddRow;
    if top < bottom {
      AddRowsDiagonal(p, xo, yo, top, bottom - 1, lo, hi);
      AddRowDiagonal(p, xo, yo, bottom - 1, lo, hi, AddRows(p, xo, yo, top, bottom - 1, lo, hi));
    }
  }

  /** A window compared with itself scores 1. */
  lemma IdenticalWindow(s: Scorer, x: nat, y: nat)
    requires s.Valid() && s.p.org == s.p.rec && x < s.p.W && y < s.p.H
    ensures s.At(x, y) == 1.0
  {
    hide AddRows, Score;
    WindowPsd(s.p, x, y);
    AddRowsDiagonal(s.p, x, y, ClipLow(y), ClipHigh(y, s.p.H) + 1, ClipLow(x), ClipHigh(x, s.p.W) + 1);
    ScoreOfDiagonal(WindowMoments(s.p, x, y), s.range, s.sqrt);
  }

  lemma {:induction false} IdenticalRow(s: Scorer, y: nat, lo: nat, hi: nat)
    requires s.Valid() && s.p.org == s.p.rec && y < s.p.H && hi <= s.p.W
    ensures s.Row(y, lo, hi) == (if lo < hi then hi - lo else 0) as real
    decreases hi
  {
    hide Scorer.At;
    if lo < hi {
      IdenticalRow(s, y, lo, hi - 1);
      IdenticalWindow(s, hi - 1, y);
    }
  }

  lemma {:induction false} IdenticalRows(s: Scorer, lo: nat, hi: nat)
    requires s.Valid() && s.p.org == s.p.rec && lo <= hi <= s.p.H
    ensures s.Rows(lo, hi) == ((hi - lo) * s.p.W) as real
    decreases hi
  {
    hide Scorer.Row;
    if lo < hi {
      IdenticalRows(s, lo, hi - 1);
      IdenticalRow(s, hi - 1, 0, s.p.W);
      assert (hi - lo) * s.p.W == (hi - 1 - lo) * s.p.W + s.p.W;
    }
  }

  lemma {:induction false} IdenticalMiddle(s: Scorer, lo: nat, hi: nat)
    requires s.Valid() && s.p.org == s.p.rec && lo <= hi <= s.p.H && s.p.W >= 3
    ensures s.MiddleRows(lo, hi) == ((hi - lo) * (6 + (if s.p.W > 6 then s.p.W - 6 else 0))) as real
    decreases hi
  {
    hide Scorer.Row;
    var w := 6 + (if s.p.W > 6 then s.p.W - 6 else 0);
    if lo < hi {
      IdenticalMiddle(s, lo, hi - 1);
      IdenticalRow(s, hi - 1, 0, 3);
      IdenticalRow(s, hi - 1, 3, s.p.W - 3);
      IdenticalRow(s, hi - 1, s.p.W - 3, s.p.W);
      assert (hi - lo) * w == (hi - 1 - lo) * w + w;
    }
  }

  /** For identical images the source adds up one per visit. */
  lemma IdenticalVisited(s: Scorer)
    requires s.Valid() && s.p.org == s.p.rec && Reaches(s.p.W, s.p.H)
    ensures s.Visited() == Visits(s.p.W, s.p.H) as real
  {
    hide Scorer.Rows, Scorer.MiddleRow;
    var w, h := s.p.W, s.p.H;
    IdenticalRows(s, 0, 3);
    IdenticalRows(s, h - 3, h);
    if h > 6 {
      IdenticalMiddle(s, 3, h - 3);
    }
  }

  // ----- the image score -----

  /** What zc_calc_ssim_2d_double returns. */
  function Ssim2D(p: Pair, sqrt: real -> real): real
    requires p.Valid() && Reaches(p.W, p.H) && !Constant(p.org) && IsSqrt(sqrt)
  {
    RangeIsZero(p.org);
    Scorer(p, ValueRange(p.org), sqrt).Visited() / (p.W * p.H) as real
  }

  lemma SizePositive(W: nat, H: nat)
    requires W > 0 && H > 0
    ensures W * H > 0
  {}

  /** At covered sizes the result is the mean over the pixels, and lies between -1 and 1. */
  lemma MeanScore(p: Pair, sqrt: real -> real)
    requires p.Valid() && Covered(p.W, p.H) && Reaches(p.W, p.H) && !Constant(p.org) && IsSqrt(sqrt)
    ensures ValueRange(p.org) != 0.0
    ensures Ssim2D(p, sqrt) * (p.W * p.H) as real == Scorer(p, ValueRange(p.org), sqrt).Rows(0, p.H)
    ensures -1.0 <= Ssim2D(p, sqrt) <= 1.0
  {
    hide Constant, ValueRange, Scorer.Rows, Scorer.Visited;
    RangeIsZero(p.org);
    var s, n := Scorer(p, ValueRange(p.org), sqrt), p.W * p.H;
    SizePositive(p.W, p.H);
    VisitedIsWhole(s);
    RowsBound(s, 0, p.H);
    assert (p.H - 0) * p.W == n;
    RatioBound(s.Visited(), n as real);
    RatioTimes(s.Visited(), n as real);
  }

  lemma RatioTimes(a: real, d: real)
    requires d > 0.0
    ensures a / d * d == a
    ensures a / d == 1.0 <==> a == d
  {}

  /** An image compared with itself scores exactly 1 at the covered sizes and at no others. */
  lemma IdenticalScore(p: Pair, sqrt: real -> real)
    requires p.Valid() && Reaches(p.W, p.H) && !Constant(p.org) && IsSqrt(sqrt) && p.org == p.rec
    ensures Ssim2D(p, sqrt) == 1.0 <==> Covered(p.W, p.H)
  {
    hide Constant, ValueRange, Scorer.Visited;
    RangeIsZero(p.org);
    SizePositive(p.W, p.H);
    IdenticalVisited(Scorer(p, ValueRange(p.org), sqrt));
    RatioTimes(Visits(p.W, p.H) as real, (p.W * p.H) as real);
    VisitsAllOnce(p.W, p.H);
  }

  /** The weighted sum of the squared differences of the samples. */
  ghost function Gap(m: Moments): real {
    Quad(m, 1.0, -1.0, 0.0)
  }

  lemma GapOfSample(m: Moments, w: real, x: real, y: real)
    requires w > 0.0
    ensures Gap(AddSample(m, w, x, y)) >= Gap(m)
    ensures Gap(AddSample(m, w, x, y)) == Gap(m) ==> x == y
  {
    hide Quad, AddSample, Square;
    QuadOfSample(m, w, x, y, 1.0, -1.0, 0.0);
    var d := 1.0 * x + -1.0 * y + 0.0;
    assert d == x - y;
    SquarePositive(d, d * d);
    if d * d > 0.0 {
      PositiveProduct(w, d * d, w * (d * d));
    }
  }

  lemma {:induction false} GapOfRow(p: Pair, xo: int, yo: int, y: int, lo: int, hi: int, m: Moments)
    requires p.Valid() && 0 <= y < p.H && yo - 3 <= y <= yo + 3
    requires 0 <= lo && xo - 3 <= lo && hi <= p.W && hi <= xo + 4
    ensures var r := AddRow(p, xo, yo, y, lo, hi, m);
            && Gap(r) >= Gap(m)
            && (Gap(r) == Gap(m) ==>
                  forall x :: lo <= x < hi ==> Pixel(p.org, p.W, p.H, x, y) == Pixel(p.rec, p.W, p.H, x, y))
    decreases hi - lo
  {
    hide Pixel, Weight, Gap, AddSample;
    if lo < hi {
      GapOfRow(p, xo, yo, y, lo, hi - 1, m);
      GapOfSample(AddRow(p, xo, yo, y, lo, hi - 1, m), Weight(hi - 1 - xo, y - yo),
                  Pixel(p.org, p.W, p.H, hi - 1, y), Pixel(p.rec, p.W, p.H, hi - 1, y));
    }
  }

  lemma {:induction false} GapOfRows(p: Pair, xo: int, yo: int, top: int, bottom: int, lo: int, hi: int)
    requires p.Valid() && 0 <= top && yo - 3 <= top && bottom <= p.H && bottom <= yo + 4
    requires 0 <= lo && xo - 3 <= lo && hi <= p.W && hi <= xo + 4
    ensures var r := AddRows(p, xo, yo, top, bottom, lo, hi);
            && Gap(r) >= 0.0
            && (Gap(r) == 0.0 ==>
                  forall x, y :: lo <= x < hi && top <= y < bottom ==>
                    Pixel(p.org, p.W, p.H, x, y) == Pixel(p.rec, p.W, p.H, x, y))
    decreases bottom - top
  {
    hide Pixel, Gap, AddRow;
    if top < bottom {
      GapOfRows(p, xo, yo, top, bottom - 1, lo, hi);
      GapOfRow(p, xo, yo, bottom - 1, lo, hi, AddRows(p, xo, yo, top, bottom - 1, lo, hi));
    } else {
      NoGap();
    }
  }

  lemma NoGap()
    ensures Gap(NONE) == 0.0
  {}

  lemma NoGapOfEqualMoments(m: Moments)
    requires m.w > 0.0 && MeanX(m) == MeanY(m) && VarX(m) == VarY(m) == Cov(m)
    ensures Gap(m) == 0.0
  {
    var a := MeanX(m) * MeanX(m);
    assert m.xxm / m.w == m.yym / m.w == m.xym / m.w == VarX(m) + a;
    assert m.xxm == m.xxm / m.w * m.w && m.yym == m.yym / m.w * m.w && m.xym == m.xym / m.w * m.w;
  }

  /** A window scores 1 only if the images agree at all its pixels. */
  lemma PerfectWindow(s: Scorer, xo: nat, yo: nat, x: nat, y: nat)
    requires s.Valid() && xo < s.p.W && yo < s.p.H && s.At(xo, yo) == 1.0
    requires x < s.p.W && y < s.p.H && xo - 3 <= x <= xo + 3 && yo - 3 <= y <= yo + 3
    ensures Pixel(s.p.org, s.p.W, s.p.H, x, y) == Pixel(s.p.rec, s.p.W, s.p.H, x, y)
  {
    hide AddRows, Score, MeanX, MeanY, VarX, VarY, Cov, Pixel, IsSqrt, Psd, Gap;
    var m := WindowMoments(s.p, xo, yo);
    WindowPsd(s.p, xo, yo);
    ScoreIsOne(m, s.range, s.sqrt);
    NoGapOfEqualMoments(m);
    GapOfRows(s.p, xo, yo, ClipLow(yo), ClipHigh(yo, s.p.H) + 1, ClipLow(xo), ClipHigh(xo, s.p.W) + 1);
  }

  lemma {:induction false} PerfectRow(s: Scorer, y: nat, lo: nat, hi: nat)
    requires s.Valid() && y < s.p.H && lo <= hi <= s.p.W
    requires s.Row(y, lo, hi) == (hi - lo) as real
    ensures forall x :: lo <= x < hi ==> s.At(x, y) == 1.0
    decreases hi
  {
    hide Scorer.At;
    if lo < hi {
      RowBound(s, y, lo, hi - 1);
      RowBound(s, y, hi - 1, hi);
      PerfectRow(s, y, lo, hi - 1);
    }
  }

  lemma {:induction false} PerfectRows(s: Scorer, lo: nat, hi: nat)
    requires s.Valid() && lo <= hi <= s.p.H
    requires s.Rows(lo, hi) == ((hi - lo) * s.p.W) as real
    ensures forall x, y :: 0 <= x < s.p.W && lo <= y < hi ==> s.At(x, y) == 1.0
    decreases hi
  {
    hide Scorer.Row, Scorer.At;
    if lo < hi {
      RowsBound(s, lo, hi - 1);
      RowBound(s, hi - 1, 0, s.p.W);
      assert (hi - lo) * s.p.W == (hi - 1 - lo) * s.p.W + s.p.W;
      PerfectRows(s, lo, hi - 1);
      PerfectRow(s, hi - 1, 0, s.p.W);
    }
  }

  /** At covered sizes the score of an image is 1 only against itself. */
  lemma PerfectScore(p: Pair, sqrt: real -> real)
    requires p.Valid() && Covered(p.W, p.H) && Reaches(p.W, p.H) && !Constant(p.org) && IsSqrt(sqrt)
    ensures Ssim2D(p, sqrt) == 1.0 <==> p.org == p.rec
  {
    hide Constant, ValueRange, Scorer.Rows, Scorer.Visited, Scorer.At, Pixel, IsSqrt;
    if p.org == p.rec {
      IdenticalScore(p, sqrt);
    }
    if Ssim2D(p, sqrt) == 1.0 {
      MeanScore(p, sqrt);
      var s := Scorer(p, ValueRange(p.org), sqrt);
      assert (p.H - 0) * p.W == p.W * p.H;
      PerfectRows(s, 0, p.H);
      forall i | 0 <= i < |p.org| ensures p.org[i] == p.rec[i] {
        var x, y := PixelOf(p, i);
        PerfectWindow(s, x, y, x, y);
      }
    }
  }

  lemma ProductGrows(a: nat, b: nat, c: nat)
    requires b <= c
    ensures a * b <= a * c
  {
    NatProduct(a, c - b);
    assert a * c == a * b + a * (c - b);
  }

  /** Every index of an image belongs to a pixel. */
  lemma PixelOf(p: Pair, i: nat) returns (x: nat, y: nat)
    requires p.Valid() && i < p.W * p.H
    ensures x < p.W && y < p.H
    ensures Pixel(p.org, p.W, p.H, x, y) == p.org[i] && Pixel(p.rec, p.W, p.H, x, y) == p.rec[i]
  {
    x, y := i % p.W, i / p.W;
    assert i == p.W * y + x;
    if y >= p.H {
      ProductGrows(p.W, p.H, y);
    }
  }

  /** The loop that finds the smallest and largest pixel. */
  method FindRange(a: Image, W: nat, H: nat) returns (range: real)
    requires |a| == W * H && W > 0 && H > 0
    ensures range == ValueRange(a)
  {
    PixelIndex(0, 0, W, H);
    var min, max := a[0], a[0];
    for i := 0 to H
      invariant i * W <= |a|
      invariant i == 0 ==> min == max == a[0]
      invariant i > 0 ==> i * W > 0 && min == MinOf(a, i * W) && max == MaxOf(a, i * W)
    {
      PixelIndex(0, i, W, H);
      for j := 0 to W
        invariant i * W + j == 0 ==> min == max == a[0]
        invariant i * W + j > 0 ==> min == MinOf(a, i * W + j) && max == MaxOf(a, i * W + j)
      {
        PixelIndex(j, i, W, H);
        var v := a[i * W + j];
        if min > v { min := v; }
        if max < v { max := v; }
      }
      assert (i + 1) * W == i * W + W;
    }
    range := max - min;
  }

  /** zc_calc_ssim_2d_double. */
  method CalcSsim2D(org: Image, rec: Image, r2: nat, r1: nat, sqrt: real -> real) returns (ssim: real)
    requires Pair(org, rec, r1, r2).Valid() && Reaches(r1, r2) && !Constant(org) && IsSqrt(sqrt)
    ensures ssim == Ssim2D(Pair(org, rec, r1, r2), sqrt)
    ensures Covered(r1, r2) ==> -1.0 <= ssim <= 1.0 && (ssim == 1.0 <==> org == rec)
  {
    hide ValueRange, Constant, Scorer.At;
    var p := Pair(org, rec, r1, r2);
    if Covered(r1, r2) {
      MeanScore(p, sqrt);
      PerfectScore(p, sqrt);
    }
    RangeIsZero(org);
    var range := FindRange(org, r1, r2);
    ghost var s := Scorer(p, range, sqrt);
    var total := 0.0;
    for j := 0 to KERNEL
      invariant total == s.Rows(0, j)
    {
      total := SumScores(p, j, 0, r1, range, sqrt, total);
    }
    total := SumMiddle(p, range, sqrt, total);
    ghost var above := total;
    for j := r2 - KERNEL to r2
      invariant total == above + s.Rows(r2 - KERNEL, j)
    {
      total := SumScores(p, j, 0, r1, range, sqrt, total);
    }
    SizePositive(r1, r2);
    ssim := total / (r1 * r2) as real;
  }

  /** The loop over the middle rows, which switches to the unclipped kernel between the borders. */
  method SumMiddle(p: Pair, range: real, sqrt: real -> real, start: real) returns (total: real)
    requires p.Valid() && Reaches(p.W, p.H) && range != 0.0 && IsSqrt(sqrt)
    ensures total == start + Scorer(p, range, sqrt).MiddleRows(3, p.H - 3)
  {
    hide Scorer.At, Scorer.Row;
    ghost var s := Scorer(p, range, sqrt);
    total := start;
    var j := KERNEL;
    while j < p.H - KERNEL
      invariant 3 <= j <= p.H && (p.H > 6 ==> j <= p.H - 3) && (p.H <= 6 ==> j == 3)
      invariant total == start + s.MiddleRows(3, j)
    {
      total := SumScores(p, j, 0, KERNEL, range, sqrt, total);
      total := SumFullScores(p, j, range, sqrt, total);
      total := SumScores(p, j, p.W - KERNEL, p.W, range, sqrt, total);
      j := j + 1;
    }
  }

  /** One stretch of a row with the clipped kernel. */
  method SumScores(p: Pair, j: nat, lo: nat, hi: nat, range: real, sqrt: real -> real, start: real)
    returns (total: real)
    requires p.Valid() && j < p.H && lo <= hi <= p.W && range != 0.0 && IsSqrt(sqrt)
    ensures total == start + Scorer(p, range, sqrt).Row(j, lo, hi)
  {
    hide WindowScore;
    total := start;
    for i := lo to hi
      invariant total == start + Scorer(p, range, sqrt).Row(j, lo, i)
    {
      var score := GetSsim(p, i, j, range, sqrt);
      total := total + score;
    }
  }

  /** The stretch of a middle row with the unclipped kernel. */
  method SumFullScores(p: Pair, j: nat, range: real, sqrt: real -> real, start: real) returns (total: real)
    requires p.Valid() && 3 <= j < p.H - 3 && p.W >= 3 && range != 0.0 && IsSqrt(sqrt)
    ensures total == start + Scorer(p, range, sqrt).Row(j, 3, p.W - 3)
  {
    hide WindowScore;
    total := start;
    var i := KERNEL;
    while i < p.W - KERNEL
      invariant 3 <= i && (p.W > 6 ==> i <= p.W - 3) && i <= p.W
      invariant p.W <= 6 ==> i == 3
      invariant total == start + Scorer(p, range, sqrt).Row(j, 3, i)
    {
      var score := GetSsimFullKernel(p, i, j, range, sqrt);
      total := total + score;
      i := i + 1;
    }
  }

  // ----- volumes -----

  function Layer(a: Image, n: nat, i: nat): (r: Image)
    requires (i + 1) * n <= |a|
    ensures |r| == n
  {
    a[i * n..i * n + n]
  }

  /** A volume of depth layers, each W x H. */
  datatype Volume = Volume(org: Image, rec: Image, depth: nat, W: nat, H: nat) {
    ghost predicate Valid() {
      W > 0 && H > 0 && |org| == |rec| == depth * (W * H)
    }

    function Pair(i: nat): (p: Ssim.Pair)
      requires Valid() && i < depth
      ensures p.Valid() && p.W == W && p.H == H
    {
      LayerBounds(i, depth, W * H);
      Ssim.Pair(Layer(org, W * H, i), Layer(rec, W * H, i), W, H)
    }

    /** Every layer up to 20, about 20 evenly spaced ones beyond. */
    function Step(): (k: nat)
      ensures k > 0
    {
      if depth > 20 then depth / 20 else 1
    }

    /** Layer i is scored: every Step()-th layer is, unless it is constant. */
    ghost predicate Sampled(i: nat)
      requires Valid() && i < depth
    {
      i % Step() == 0 && !Constant(Pair(i).org)
    }

    ghost function LayerScore(i: nat, sqrt: real -> real): real
      requires Valid() && Reaches(W, H) && IsSqrt(sqrt) && i < depth && Sampled(i)
    {
      Ssim2D(Pair(i), sqrt)
    }

    /** The scores of the layers i, i + Step(), i + 2*Step(), ... that are not constant. */
    ghost function ScoresFrom(i: nat, sqrt: real -> real): seq<real>
      requires Valid() && Reaches(W, H) && IsSqrt(sqrt)
      decreases depth - i
    {
      if i >= depth then []
      else (if Constant(Pair(i).org) then [] else [Ssim2D(Pair(i), sqrt)]) + ScoresFrom(i + Step(), sqrt)
    }
  }

  ghost function MultiplesBelow(k: nat, d: nat): set<nat>
    requires k > 0
  {
    set i: nat | i < d && i % k == 0
  }

  lemma {:induction false} CountMultiples(k: nat, d: nat, c: nat)
    requires k > 0 && (if c == 0 then d == 0 else (c - 1) * k < d <= c * k)
    ensures |MultiplesBelow(k, d)| == c
    decreases c
  {
    if c == 0 {
      assert MultiplesBelow(k, d) == {};
    } else {
      var e := (c - 1) * k;
      NatProduct(c - 1, k);
      assert c > 1 ==> (c - 2) * k == e - k;
      CountMultiples(k, e, c - 1);
      QuotRem(e, c - 1, k, 0);
      assert c * k == e + k;
      forall i: nat | e < i < d ensures i % k != 0 {
        Between(e, i, k);
      }
      assert MultiplesBelow(k, d) == MultiplesBelow(k, e) + {e};
    }
  }

  /** All layers are looked at up to depth 20, and between 20 and 39 of them beyond. */
  lemma LayersLookedAt(v: Volume)
    ensures v.depth <= 20 ==> forall i: nat :: i < v.depth ==> i % v.Step() == 0
    ensures v.depth > 20 ==> 20 <= |set i: nat | i < v.depth && i % v.Step() == 0| <= 39
  {
    var d, k := v.depth, v.Step();
    if d > 20 {
      var c := (d + k - 1) / k;
      assert d + k - 1 == k * c + (d + k - 1) % k;
      assert c * k - k < d <= c * k;
      CountBetween(k, c, d);
      assert (c - 1) * k == c * k - k;
      CountMultiples(k, d, c);
      assert (set i: nat | i < v.depth && i % v.Step() == 0) == MultiplesBelow(k, d);
    }
  }

  lemma CountBetween(k: nat, c: nat, d: nat)
    requires k > 0 && c * k - k < d <= c * k && 20 * k <= d < 20 * k + 20
    ensures 20 <= c <= 39
  {
    assert k * c == c * k;
    if c < 20 {
      ProductGrows(k, c, 19);
    } else if c > 39 {
      ProductGrows(k, 40, c);
    }
  }

  lemma LayerBounds(i: nat, depth: nat, n: nat)
    requires i < depth
    ensures i * n + n == (i + 1) * n <= depth * n
  {
    BlockFits(i, depth, n);
  }

  /** The smaller of init and the smallest score; likewise for the largest. */
  function Least(init: real, s: seq<real>): real {
    if s == [] then init
    else var l := Least(init, s[..|s| - 1]); if l > s[|s| - 1] then s[|s| - 1] else l
  }

  function Greatest(init: real, s: seq<real>): real {
    if s == [] then init
    else var g := Greatest(init, s[..|s| - 1]); if g < s[|s| - 1] then s[|s| - 1] else g
  }

  function Total(s: seq<real>): real {
    if s == [] then 0.0 else Total(s[..|s| - 1]) + s[|s| - 1]
  }

  lemma {:induction false} LeastGreatest(lo: real, hi: real, s: seq<real>)
    ensures forall x :: x in s ==> Least(hi, s) <= x <= Greatest(lo, s)
    ensures Least(hi, s) <= hi && lo <= Greatest(lo, s)
    ensures Least(hi, s) == hi || Least(hi, s) in s
    ensures Greatest(lo, s) == lo || Greatest(lo, s) in s
  {
    if s != [] {
      LeastGreatest(lo, hi, s[..|s| - 1]);
      assert s == s[..|s| - 1] + [s[|s| - 1]];
    }
  }

  lemma {:induction false} TotalBounds(s: seq<real>, lo: real, hi: real)
    requires forall x :: x in s ==> lo <= x <= hi
    ensures |s| as real * lo <= Total(s) <= |s| as real * hi
  {
    if s != [] {
      var t := s[..|s| - 1];
      assert forall x :: x in t ==> x in s;
      TotalBounds(t, lo, hi);
      assert s[|s| - 1] in s;
      OneMore(|t|, lo);
      OneMore(|t|, hi);
    }
  }

  lemma OneMore(n: nat, x: real)
    ensures (n + 1) as real * x == n as real * x + x
  {}

  lemma {:induction false} ScoresBounded(v: Volume, i: nat, sqrt: real -> real)
    requires v.Valid() && Reaches(v.W, v.H) && Covered(v.W, v.H) && IsSqrt(sqrt)
    ensures forall x :: x in v.ScoresFrom(i, sqrt) ==> -1.0 <= x <= 1.0
    decreases v.depth - i
  {
    hide Ssim2D, Constant, Volume.Pair, ValueRange, Scorer.Rows, IsSqrt, Reaches, Covered;
    if i < v.depth {
      var rest := v.ScoresFrom(i + v.Step(), sqrt);
      ScoresBounded(v, i + v.Step(), sqrt);
      if Constant(v.Pair(i).org) {
        assert v.ScoresFrom(i, sqrt) == [] + rest == rest;
      } else {
        MeanScore(v.Pair(i), sqrt);
        assert v.ScoresFrom(i, sqrt) == [Ssim2D(v.Pair(i), sqrt)] + rest;
      }
    }
  }

  /** The list of scores is that of the sampled layers. */
  lemma {:induction false} ScoresAre(v: Volume, i: nat, sqrt: real -> real, x: real)
    requires v.Valid() && Reaches(v.W, v.H) && IsSqrt(sqrt) && i % v.Step() == 0
    ensures x in v.ScoresFrom(i, sqrt) <==>
            exists j :: i <= j < v.depth && v.Sampled(j) && x == v.LayerScore(j, sqrt)
    decreases v.depth - i
  {
    hide Ssim2D, Constant, Volume.Pair;
    if i < v.depth {
      var k, rest := v.Step(), v.ScoresFrom(i + v.Step(), sqrt);
      ModShift(i + k, k);
      ScoresAre(v, i + k, sqrt, x);
      forall j | i < j < i + k && j < v.depth ensures !v.Sampled(j) {
        Between(i, j, k);
      }
      if v.Sampled(i) {
        assert v.ScoresFrom(i, sqrt) == [Ssim2D(v.Pair(i), sqrt)] + rest;
      } else {
        assert v.ScoresFrom(i, sqrt) == [] + rest == rest;
      }
    }
  }

  /** No multiple of k lies strictly between two neighbouring ones. */
  lemma Between(i: nat, j: nat, k: nat)
    requires k > 0 && i % k == 0 && i < j < i + k
    ensures j % k != 0
  {
    assert i == k * (i / k);
    QuotRem(j, i / k, k, j - i);
  }

  /**
    The reported minimum, which starts at 1, is the least sampled score exactly when some score is at most 1, as at
    all covered sizes; the reported maximum, which starts at 0, is the greatest exactly when some sampled layer's
    score is not negative. The mean lies between them.
   */
  lemma VolumeExtremes(v: Volume, sqrt: real -> real)
    requires v.Valid() && Reaches(v.W, v.H) && IsSqrt(sqrt)
    requires exists i :: 0 <= i < v.depth && v.Sampled(i)
    ensures var s := v.ScoresFrom(0, sqrt);
            && s != [] && (forall x :: x in s ==> Least(1.0, s) <= x <= Greatest(0.0, s))
            && (Least(1.0, s) in s <==>
                  exists i :: 0 <= i < v.depth && v.Sampled(i) && v.LayerScore(i, sqrt) <= 1.0)
            && (Covered(v.W, v.H) ==> Least(1.0, s) in s)
            && (Greatest(0.0, s) in s <==>
                  exists i :: 0 <= i < v.depth && v.Sampled(i) && v.LayerScore(i, sqrt) >= 0.0)
            && Least(1.0, s) <= Total(s) / |s| as real <= Greatest(0.0, s)
  {
    hide Least, Greatest, Total, Volume.Sampled, Volume.LayerScore, Volume.ScoresFrom, Covered, Reaches, IsSqrt;
    var s := v.ScoresFrom(0, sqrt);
    LayerScores(v, sqrt);
    var i :| 0 <= i < v.depth && v.Sampled(i);
    assert v.LayerScore(i, sqrt) in s;
    ScoreListExtremes(s);
    if Covered(v.W, v.H) {
      ScoresBounded(v, 0, sqrt);
    }
  }

  lemma LayerScores(v: Volume, sqrt: real -> real)
    requires v.Valid() && Reaches(v.W, v.H) && IsSqrt(sqrt)
    ensures forall x :: x in v.ScoresFrom(0, sqrt) ==>
              exists j :: 0 <= j < v.depth && v.Sampled(j) && x == v.LayerScore(j, sqrt)
    ensures forall j :: 0 <= j < v.depth && v.Sampled(j) ==> v.LayerScore(j, sqrt) in v.ScoresFrom(0, sqrt)
  {
    hide Volume.Sampled, Volume.LayerScore, Volume.ScoresFrom, Reaches, IsSqrt;
    forall x | x in v.ScoresFrom(0, sqrt)
      ensures exists j :: 0 <= j < v.depth && v.Sampled(j) && x == v.LayerScore(j, sqrt)
    {
      ScoresAre(v, 0, sqrt, x);
    }
    forall j | 0 <= j < v.depth && v.Sampled(j) ensures v.LayerScore(j, sqrt) in v.ScoresFrom(0, sqrt) {
      ScoresAre(v, 0, sqrt, v.LayerScore(j, sqrt));
    }
  }

  lemma ScoreListExtremes(s: seq<real>)
    requires s != []
    ensures forall x :: x in s ==> Least(1.0, s) <= x <= Greatest(0.0, s)
    ensures Least(1.0, s) in s <==> exists x :: x in s && x <= 1.0
    ensures Greatest(0.0, s) in s <==> exists x :: x in s && x >= 0.0
    ensures Least(1.0, s) <= Total(s) / |s| as real <= Greatest(0.0, s)
  {
    hide Least, Greatest, Total;
    LeastGreatest(0.0, 1.0, s);
    TotalBounds(s, Least(1.0, s), Greatest(0.0, s));
    MeanBounds(Total(s), |s| as real, Least(1.0, s), Greatest(0.0, s));
    assert s[0] in s;
  }

  lemma MeanBounds(t: real, n: real, lo: real, hi: real)
    requires n > 0.0 && n * lo <= t <= n * hi
    ensures lo <= t / n <= hi
  {
    var m := t / n;
    assert m * n == t;
    if m < lo {
      PositiveProduct(lo - m, n, (lo - m) * n);
    } else if m > hi {
      PositiveProduct(m - hi, n, (m - hi) * n);
    }
  }

  /** One more score in each of the three accumulators. */
  lemma OneMoreScore(s: seq<real>, x: real)
    ensures Least(1.0, s + [x]) == (if Least(1.0, s) > x then x else Least(1.0, s))
    ensures Greatest(0.0, s + [x]) == (if Greatest(0.0, s) < x then x else Greatest(0.0, s))
    ensures Total(s + [x]) == Total(s) + x
  {
    assert (s + [x])[..|s|] == s;
  }

  /** The scores from layer i on: its own, if it is not constant, and then those from the next sampled layer on. */
  lemma ScoresStep(v: Volume, i: nat, sqrt: real -> real, done: seq<real>)
    requires v.Valid() && Reaches(v.W, v.H) && IsSqrt(sqrt) && i < v.depth
    ensures var p, rest := v.Pair(i), v.ScoresFrom(i + v.Step(), sqrt);
            if Constant(p.org) then done + v.ScoresFrom(i, sqrt) == done + rest
            else done + v.ScoresFrom(i, sqrt) == done + [Ssim2D(p, sqrt)] + rest
  {
    hide Ssim2D, Constant, Volume.Pair, IsSqrt;
    var p, rest := v.Pair(i), v.ScoresFrom(i + v.Step(), sqrt);
    if Constant(p.org) {
      assert [] + rest == rest;
    } else {
      assert done + [Ssim2D(p, sqrt)] + rest == done + ([Ssim2D(p, sqrt)] + rest);
    }
  }

  /** zc_calc_ssim_3d_double. With no layer to score the source divides 0 by 0; avg is then unspecified. */
  method CalcSsim3D(org: Image, rec: Image, r3: nat, r2: nat, r1: nat, sqrt: real -> real)
    returns (minSsim: real, avgSsim: real, maxSsim: real, counter: nat)
    requires Volume(org, rec, r3, r1, r2).Valid() && Reaches(r1, r2) && IsSqrt(sqrt)
    ensures var s := Volume(org, rec, r3, r1, r2).ScoresFrom(0, sqrt);
            && minSsim == Least(1.0, s) && maxSsim == Greatest(0.0, s) && counter == |s|
            && (counter > 0 ==> avgSsim == Total(s) / counter as real)
  {
    hide Ssim2D, ValueRange, Constant, Least, Greatest, Total, Volume.ScoresFrom, IsSqrt, Reaches;
    ghost var v := Volume(org, rec, r3, r1, r2);
    minSsim, maxSsim, avgSsim, counter := 1.0, 0.0, 0.0, 0;
    var intv := if r3 > 20 then r3 / 20 else 1;
    var nbEle := r2 * r1;
    assert nbEle == r1 * r2;
    SizePositive(r1, r2);
    ghost var done := [];
    NoScores(v, sqrt);
    var i := 0;
    while i < r3
      invariant done + v.ScoresFrom(i, sqrt) == v.ScoresFrom(0, sqrt)
      invariant minSsim == Least(1.0, done) && maxSsim == Greatest(0.0, done)
      invariant avgSsim == Total(done) && counter == |done|
    {
      LayerBounds(i, r3, nbEle);
      var p, q := org[i * nbEle..i * nbEle + nbEle], rec[i * nbEle..i * nbEle + nbEle];
      assert Pair(p, q, r1, r2) == v.Pair(i);
      var range := FindRange(p, r1, r2);
      RangeIsZero(p);
      ScoresStep(v, i, sqrt, done);
      if range != 0.0 {
        counter := counter + 1;
        var ssim := CalcSsim2D(p, q, r2, r1, sqrt);
        OneMoreScore(done, ssim);
        if minSsim > ssim { minSsim := ssim; }
        if maxSsim < ssim { maxSsim := ssim; }
        avgSsim := avgSsim + ssim;
        done := done + [ssim];
      }
      i := i + intv;
    }
    AllScored(v, i, sqrt, done);
    if counter > 0 {
      avgSsim := avgSsim / counter as real;
    }
  }

  lemma NoScores(v: Volume, sqrt: real -> real)
    requires v.Valid() && Reaches(v.W, v.H) && IsSqrt(sqrt)
    ensures [] + v.ScoresFrom(0, sqrt) == v.ScoresFrom(0, sqrt)
    ensures Least(1.0, []) == 1.0 && Greatest(0.0, []) == 0.0 && Total([]) == 0.0
  {}

  lemma AllScored(v: Volume, i: nat, sqrt: real -> real, done: seq<real>)
    requires v.Valid() && Reaches(v.W, v.H) && IsSqrt(sqrt) && i >= v.depth
    ensures done + v.ScoresFrom(i, sqrt) == done
  {}
}
