/** The one-dimensional autocorrelation of zc/src/ZC_DataProperty_double.c. */
module Autocorrelation {
  import opened Moments

  const AUTOCORR_SIZE := 100
  const LARGE := 4096

  // ----- large inputs: one mean, one variance -----

  /** The sum of (data[i] - avg)^2 over lo <= i < hi. */
  function SumSquares(data: seq<real>, avg: real, lo: nat, hi: nat): (r: real)
    requires hi <= |data|
    ensures r >= 0.0
    decreases hi
  {
    if hi <= lo then 0.0 else SumSquares(data, avg, lo, hi - 1) + Square(data[hi - 1] - avg)
  }

  /** The sum of (data[i] - avg) * (data[i + delta] - avg) over i < m. */
  function SumLagged(data: seq<real>, avg: real, delta: nat, m: nat): real
    requires m + delta <= |data|
  {
    if m == 0 then 0.0
    else SumLagged(data, avg, delta, m - 1) + (data[m - 1] - avg) * (data[m - 1 + delta] - avg)
  }

  /** The coefficient at lag delta for more than 4096 elements. */
  function LargeCoefficient(data: seq<real>, avg: real, delta: nat): real
    requires delta < |data|
  {
    var cov := SumSquares(data, avg, 0, |data|) / |data| as real;
    if cov == 0.0 then 0.0
    else SumLagged(data, avg, delta, |data| - delta) / (|data| - delta) as real / cov
  }

  /** The deviations and their lagged copies as sample pairs. */
  ghost function LagMoments(data: seq<real>, avg: real, delta: nat, m: nat): Moments
    requires m + delta <= |data|
  {
    if m == 0 then NONE
    else AddSample(LagMoments(data, avg, delta, m - 1), 1.0, data[m - 1] - avg, data[m - 1 + delta] - avg)
  }

  lemma {:induction false} LagMomentsAre(data: seq<real>, avg: real, delta: nat, m: nat)
    requires m + delta <= |data|
    ensures var q := LagMoments(data, avg, delta, m);
            && Psd(q) && q.xym == SumLagged(data, avg, delta, m)
            && q.xxm == SumSquares(data, avg, 0, m) && q.yym == SumSquares(data, avg, delta, m + delta)
  {
    hide Psd;
    if m == 0 {
      NonePsd();
    } else {
      LagMomentsAre(data, avg, delta, m - 1);
      var q := LagMoments(data, avg, delta, m - 1);
      AddPsd(q, 1.0, data[m - 1] - avg, data[m - 1 + delta] - avg);
      AddOne(q, data[m - 1] - avg, data[m - 1 + delta] - avg);
    }
  }

  lemma AddOne(m: Moments, x: real, y: real)
    ensures var r := AddSample(m, 1.0, x, y);
            && r.xxm == m.xxm + Square(x) && r.yym == m.yym + Square(y) && r.xym == m.xym + x * y
            && r.xm == m.xm + x && r.ym == m.ym + y && r.w == m.w + 1.0
  {}

  lemma {:induction false} SumSquaresSplit(data: seq<real>, avg: real, lo: nat, mid: nat, hi: nat)
    requires lo <= mid <= hi <= |data|
    ensures SumSquares(data, avg, lo, hi) == SumSquares(data, avg, lo, mid) + SumSquares(data, avg, mid, hi)
    decreases hi
  {
    hide Square;
    if mid < hi {
      SumSquaresSplit(data, avg, lo, mid, hi - 1);
    }
  }

  /** The lagged sum is at most the sum of squares in magnitude. */
  lemma LaggedBound(data: seq<real>, avg: real, delta: nat)
    requires delta <= |data|
    ensures var s := SumSquares(data, avg, 0, |data|);
            -s <= SumLagged(data, avg, delta, |data| - delta) <= s
  {
    hide SumSquares, SumLagged, LagMoments, Psd, Quad;
    var n := |data|;
    var m := LagMoments(data, avg, delta, n - delta);
    LagMomentsAre(data, avg, delta, n - delta);
    RawCauchySchwarz(m);
    SumSquaresSplit(data, avg, 0, n - delta, n);
    SumSquaresSplit(data, avg, 0, delta, n);
    assert n - delta + delta == n;
    BoundedRoot(m.xxm, m.yym, m.xym, SumSquares(data, avg, 0, n));
  }

  lemma BoundedRoot(p: real, q: real, r: real, s: real)
    requires 0.0 <= p <= s && 0.0 <= q <= s && r * r <= p * q
    ensures -s <= r <= s
  {
    ProductMonotone(p, s, q, s);
    BetweenRoots(r, s);
  }

  /** In the large branch the coefficient at lag delta has magnitude at most n/(n - delta). */
  lemma LargeBound(data: seq<real>, avg: real, delta: nat)
    requires delta < |data|
    ensures var b := |data| as real / (|data| - delta) as real;
            -b <= LargeCoefficient(data, avg, delta) <= b
  {
    var n, k := |data| as real, (|data| - delta) as real;
    var s, t := SumSquares(data, avg, 0, |data|), SumLagged(data, avg, delta, |data| - delta);
    LaggedBound(data, avg, delta);
    hide SumSquares, SumLagged;
    if s / n != 0.0 {
      ScaledRatio(s, t, n, k);
    } else {
      assert n / k >= 0.0;
    }
  }

  lemma ScaledRatio(s: real, t: real, n: real, k: real)
    requires -s <= t <= s && n > 0.0 && k > 0.0 && s / n != 0.0
    ensures -(n / k) <= t / k / (s / n) <= n / k
  {
    var c := s / n;
    assert c * n == s;
    assert s > 0.0;
    assert c > 0.0;
    var r := t / s;
    RatioBound(t, s);
    assert r * s == t;
    var b, q := n / k, t / k / c;
    assert b * k == n;
    assert q * c * k == t;
    assert r * b * c * k == r * b * k * c == r * n * c == r * s;
    CancelProduct(q, r * b, c * k);
    ProductNonneg(1.0 - r, b);
    ProductNonneg(1.0 + r, b);
  }

  lemma CancelProduct(x: real, y: real, d: real)
    requires d != 0.0 && x * d == y * d
    ensures x == y
  {}

  lemma SquareIs(x: real)
    ensures Square(x) == x * x
  {}

  lemma {:induction false} LevelSquares(data: seq<real>, avg: real, m: nat, c: real)
    requires m <= |data| && forall i :: 0 <= i < m ==> Square(data[i] - avg) == c
    ensures SumSquares(data, avg, 0, m) == m as real * c
  {
    hide Square;
    if m > 0 {
      LevelSquares(data, avg, m - 1, c);
      OneMoreTerm(m - 1, c);
    }
  }

  lemma {:induction false} LevelProducts(data: seq<real>, avg: real, delta: nat, m: nat, e: real)
    requires m + delta <= |data| && forall i :: 0 <= i < m ==> (data[i] - avg) * (data[i + delta] - avg) == e
    ensures SumLagged(data, avg, delta, m) == m as real * e
  {
    if m > 0 {
      LevelProducts(data, avg, delta, m - 1, e);
      OneMoreTerm(m - 1, e);
    }
  }

  lemma OneMoreTerm(n: nat, x: real)
    ensures (n + 1) as real * x == n as real * x + x
  {}

  /**
    Where every square is c and every lagged product is e, as for data that repeats itself after delta elements or
    repeats itself mirrored, the coefficient is the quotient of the two, however short the overlap is.
   */
  lemma LargeLevel(data: seq<real>, avg: real, delta: nat, c: real, e: real)
    requires delta < |data| && c > 0.0 && forall i :: 0 <= i < |data| ==> Square(data[i] - avg) == c
    requires forall i :: 0 <= i < |data| - delta ==> (data[i] - avg) * (data[i + delta] - avg) == e
    ensures LargeCoefficient(data, avg, delta) == e / c
  {
    hide SumSquares, SumLagged, Square;
    LevelSquares(data, avg, |data|, c);
    LevelProducts(data, avg, delta, |data| - delta, e);
    MeanOfLevel(|data| as real, c, SumSquares(data, avg, 0, |data|));
    MeanOfLevel((|data| - delta) as real, e, SumLagged(data, avg, delta, |data| - delta));
  }

  lemma MeanOfLevel(n: real, c: real, sum: real)
    requires n > 0.0 && sum == n * c
    ensures sum / n == c
  {}

  // ----- up to 4096 elements: separate means and deviations for every lag -----

  /** The samples and their lagged copies as sample pairs. */
  ghost function PairMoments(data: seq<real>, delta: nat, m: nat): Moments
    requires m + delta <= |data|
  {
    if m == 0 then NONE
    else AddSample(PairMoments(data, delta, m - 1), 1.0, data[m - 1], data[m - 1 + delta])
  }

  lemma {:induction false} PairMomentsPsd(data: seq<real>, delta: nat, m: nat)
    requires m + delta <= |data|
    ensures Psd(PairMoments(data, delta, m)) && PairMoments(data, delta, m).w == m as real
  {
    hide Psd;
    if m == 0 {
      NonePsd();
    } else {
      PairMomentsPsd(data, delta, m - 1);
      AddPsd(PairMoments(data, delta, m - 1), 1.0, data[m - 1], data[m - 1 + delta]);
    }
  }

  /** The overlap of the data with its copy shifted by delta. */
  ghost function Overlap(data: seq<real>, delta: nat): (m: Moments)
    requires delta < |data|
    ensures m.w > 0.0
  {
    PairMomentsPsd(data, delta, |data| - delta);
    PairMoments(data, delta, |data| - delta)
  }

  /** One of the two deviations at this lag is zero. */
  ghost predicate Degenerate(data: seq<real>, delta: nat, sqrt: real -> real)
    requires delta < |data| && IsSqrt(sqrt)
  {
    sqrt(VarX(Overlap(data, delta))) * sqrt(VarY(Overlap(data, delta))) == 0.0
  }

  /** The coefficient at lag delta when neither deviation is zero. */
  ghost function SmallCoefficient(data: seq<real>, delta: nat, sqrt: real -> real): real
    requires delta < |data| && IsSqrt(sqrt) && !Degenerate(data, delta, sqrt)
  {
    var m := Overlap(data, delta);
    Cov(m) / (sqrt(VarX(m)) * sqrt(VarY(m)))
  }

  /** Each coefficient computed from its own means and deviations is a correlation. */
  lemma SmallBound(data: seq<real>, delta: nat, sqrt: real -> real)
    requires delta < |data| && IsSqrt(sqrt) && !Degenerate(data, delta, sqrt)
    ensures -1.0 <= SmallCoefficient(data, delta, sqrt) <= 1.0
  {
    hide VarX, VarY, Cov, Psd, IsSqrt, PairMoments;
    var m := Overlap(data, delta);
    PairMomentsPsd(data, delta, |data| - delta);
    CauchySchwarz(m);
    RootOf(sqrt, VarX(m));
    RootOf(sqrt, VarY(m));
    Correlation(VarX(m), VarY(m), Cov(m), sqrt(VarX(m)), sqrt(VarY(m)));
  }

  lemma Correlation(p: real, q: real, r: real, a: real, b: real)
    requires a >= 0.0 && b >= 0.0 && a * a == p && b * b == q && r * r <= p * q && a * b != 0.0
    ensures -1.0 <= r / (a * b) <= 1.0
  {
    var s := a * b;
    assert s * s == p * q;
    ProductNonneg(a, b);
    BetweenRoots(r, s);
    RatioBound(r, s);
  }

  /** What the source stores for lags 1 to AUTOCORR_SIZE: one degenerate lag turns every entry into 1. */
  ghost predicate SmallResult(data: seq<real>, sqrt: real -> real, r: seq<real>)
    requires |data| > AUTOCORR_SIZE && IsSqrt(sqrt) && |r| == AUTOCORR_SIZE + 1
  {
    if exists d :: 1 <= d <= AUTOCORR_SIZE && Degenerate(data, d, sqrt)
    then forall d :: 1 <= d <= AUTOCORR_SIZE ==> r[d] == 1.0
    else forall d :: 1 <= d <= AUTOCORR_SIZE ==> r[d] == SmallCoefficient(data, d, sqrt)
  }

  /** Every stored coefficient of the small branch lies between -1 and 1. */
  lemma SmallResultBound(data: seq<real>, sqrt: real -> real, r: seq<real>)
    requires |data| > AUTOCORR_SIZE && IsSqrt(sqrt) && |r| == AUTOCORR_SIZE + 1
    requires SmallResult(data, sqrt, r)
    ensures forall d :: 1 <= d <= AUTOCORR_SIZE ==> -1.0 <= r[d] <= 1.0
  {
    forall d | 1 <= d <= AUTOCORR_SIZE ensures -1.0 <= r[d] <= 1.0 {
      if !exists e :: 1 <= e <= AUTOCORR_SIZE && Degenerate(data, e, sqrt) {
        SmallBound(data, d, sqrt);
      }
    }
  }

  /** With 101 elements the longest lag overlaps in one element, so every entry is 1 whatever the data. */
  lemma ShortestInput(data: seq<real>, sqrt: real -> real, r: seq<real>)
    requires |data| == AUTOCORR_SIZE + 1 && IsSqrt(sqrt) && |r| == AUTOCORR_SIZE + 1
    requires SmallResult(data, sqrt, r)
    ensures forall d :: 1 <= d <= AUTOCORR_SIZE ==> r[d] == 1.0
  {
    hide Overlap, PairMoments;
    LastOverlap(data);
    var m := Overlap(data, AUTOCORR_SIZE);
    RootOf(sqrt, 0.0);
    BetweenRoots(sqrt(0.0), 0.0);
    assert sqrt(VarX(m)) == 0.0;
    assert Degenerate(data, AUTOCORR_SIZE, sqrt);
  }

  lemma LastOverlap(data: seq<real>)
    requires |data| == AUTOCORR_SIZE + 1
    ensures VarX(Overlap(data, AUTOCORR_SIZE)) == 0.0
  {
    assert PairMoments(data, AUTOCORR_SIZE, 0) == NONE;
    assert Overlap(data, AUTOCORR_SIZE) == AddSample(NONE, 1.0, data[0], data[AUTOCORR_SIZE]);
  }

  // ----- the code -----

  /** ZC_compute_autocorrelation1D_double; avg is whatever mean the caller passes. */
  method Autocorrelation1D(data: seq<real>, avg: real, sqrt: real -> real) returns (autocorr: array<real>)
    requires |data| > AUTOCORR_SIZE && IsSqrt(sqrt)
    ensures fresh(autocorr) && autocorr.Length == AUTOCORR_SIZE + 1 && autocorr[0] == 1.0
    ensures |data| > LARGE ==>
              forall d :: 1 <= d <= AUTOCORR_SIZE ==> autocorr[d] == LargeCoefficient(data, avg, d)
    ensures |data| <= LARGE ==> SmallResult(data, sqrt, autocorr[..])
  {
    autocorr := new real[AUTOCORR_SIZE + 1];
    if |data| > LARGE {
      LargeBranch(data, avg, autocorr);
    } else {
      SmallBranch(data, sqrt, autocorr);
    }
    ghost var before := autocorr[..];
    autocorr[0] := 1.0;
    assert forall d :: 1 <= d <= AUTOCORR_SIZE ==> autocorr[..][d] == before[d];
  }

  method LargeBranch(data: seq<real>, avg: real, autocorr: array<real>)
    requires |data| > AUTOCORR_SIZE && autocorr.Length == AUTOCORR_SIZE + 1
    modifies autocorr
    ensures forall d :: 1 <= d <= AUTOCORR_SIZE ==> autocorr[d] == LargeCoefficient(data, avg, d)
  {
    hide SumSquares, SumLagged;
    var cov := SquareLoop(data, avg);
    cov := cov / |data| as real;
    if cov == 0.0 {
      for delta := 1 to AUTOCORR_SIZE + 1
        invariant forall d :: 1 <= d < delta ==> autocorr[d] == LargeCoefficient(data, avg, d)
      {
        autocorr[delta] := 0.0;
      }
    } else {
      for delta := 1 to AUTOCORR_SIZE + 1
        invariant forall d :: 1 <= d < delta ==> autocorr[d] == LargeCoefficient(data, avg, d)
      {
        var sum := LagLoop(data, avg, delta);
        autocorr[delta] := sum / (|data| - delta) as real / cov;
      }
    }
  }

  method SquareLoop(data: seq<real>, avg: real) returns (sum: real)
    ensures sum == SumSquares(data, avg, 0, |data|)
  {
    hide Square;
    sum := 0.0;
    for i := 0 to |data|
      invariant sum == SumSquares(data, avg, 0, i)
    {
      SquareIs(data[i] - avg);
      sum := sum + (data[i] - avg) * (data[i] - avg);
    }
  }

  method LagLoop(data: seq<real>, avg: real, delta: nat) returns (sum: real)
    requires delta <= |data|
    ensures sum == SumLagged(data, avg, delta, |data| - delta)
  {
    sum := 0.0;
    for i := 0 to |data| - delta
      invariant sum == SumLagged(data, avg, delta, i)
    {
      sum := sum + (data[i] - avg) * (data[i + delta] - avg);
    }
  }

  /** The lag loop of the small branch; it reuses its own loop variable to overwrite everything and stop. */
  method SmallBranch(data: seq<real>, sqrt: real -> real, autocorr: array<real>)
    requires |data| > AUTOCORR_SIZE && autocorr.Length == AUTOCORR_SIZE + 1 && IsSqrt(sqrt)
    modifies autocorr
    ensures SmallResult(data, sqrt, autocorr[..])
  {
    hide Degenerate, SmallCoefficient;
    var delta := 1;
    while delta <= AUTOCORR_SIZE
      invariant 1 <= delta <= AUTOCORR_SIZE + 1
      invariant forall d :: 1 <= d < delta ==> !Degenerate(data, d, sqrt)
      invariant forall d :: 1 <= d < delta ==> autocorr[d] == SmallCoefficient(data, d, sqrt)
    {
      var product, cov := LagStatistics(data, delta, sqrt);
      if product == 0.0 {
        delta := 1;
        while delta <= AUTOCORR_SIZE
          invariant 1 <= delta <= AUTOCORR_SIZE + 1
          invariant forall d :: 1 <= d < delta ==> autocorr[d] == 1.0
        {
          autocorr[delta] := 1.0;
          delta := delta + 1;
        }
        return;
      } else {
        autocorr[delta] := cov / product;
      }
      delta := delta + 1;
    }
  }

  /** The product of the two deviations and the covariance at one lag. */
  method LagStatistics(data: seq<real>, delta: nat, sqrt: real -> real) returns (product: real, cov: real)
    requires delta < |data| && IsSqrt(sqrt)
    ensures product == 0.0 <==> Degenerate(data, delta, sqrt)
    ensures product != 0.0 ==> cov / product == SmallCoefficient(data, delta, sqrt)
  {
    hide MeanX, MeanY, VarX, VarY, Cov, PairMoments;
    var avg0, avg1 := LagMeans(data, delta);
    var cov0, cov1 := LagDeviations(data, delta, avg0, avg1);
    product := sqrt(cov0) * sqrt(cov1);
    cov := LagCovariance(data, delta, avg0, avg1);
  }

  method LagMeans(data: seq<real>, delta: nat) returns (avg0: real, avg1: real)
    requires delta < |data|
    ensures avg0 == MeanX(Overlap(data, delta)) && avg1 == MeanY(Overlap(data, delta))
  {
    hide AddSample;
    var n := |data| - delta;
    avg0, avg1 := 0.0, 0.0;
    for i := 0 to n
      invariant avg0 == PairMoments(data, delta, i).xm && avg1 == PairMoments(data, delta, i).ym
    {
      AddOne(PairMoments(data, delta, i), data[i], data[i + delta]);
      avg0 := avg0 + data[i];
      avg1 := avg1 + data[i + delta];
    }
    PairMomentsPsd(data, delta, n);
    avg0 := avg0 / n as real;
    avg1 := avg1 / n as real;
  }

  method LagDeviations(data: seq<real>, delta: nat, avg0: real, avg1: real) returns (cov0: real, cov1: real)
    requires delta < |data|
    requires avg0 == MeanX(Overlap(data, delta)) && avg1 == MeanY(Overlap(data, delta))
    ensures cov0 == VarX(Overlap(data, delta)) && cov1 == VarY(Overlap(data, delta))
  {
    hide AddSample, Quad, MeanX, MeanY, VarX, VarY, Square;
    var n := |data| - delta;
    cov0, cov1 := 0.0, 0.0;
    QuadOfNone(avg0, avg1);
    for i := 0 to n
      invariant cov0 == Quad(PairMoments(data, delta, i), 1.0, 0.0, -avg0)
      invariant cov1 == Quad(PairMoments(data, delta, i), 0.0, 1.0, -avg1)
    {
      DeviationOfSample(PairMoments(data, delta, i), data[i], data[i + delta], avg0, avg1);
      SquareIs(data[i] - avg0);
      SquareIs(data[i + delta] - avg1);
      cov0 := cov0 + (data[i] - avg0) * (data[i] - avg0);
      cov1 := cov1 + (data[i + delta] - avg1) * (data[i + delta] - avg1);
    }
    PairMomentsPsd(data, delta, n);
    OverlapVariances(Overlap(data, delta), avg0, avg1);
    cov0 := cov0 / n as real;
    cov1 := cov1 / n as real;
  }

  lemma QuadOfNone(a: real, b: real)
    ensures Quad(NONE, 1.0, 0.0, -a) == 0.0 == Quad(NONE, 0.0, 1.0, -b)
  {}

  lemma DeviationOfSample(m: Moments, x: real, y: real, a: real, b: real)
    ensures Quad(AddSample(m, 1.0, x, y), 1.0, 0.0, -a) == Quad(m, 1.0, 0.0, -a) + Square(x - a)
    ensures Quad(AddSample(m, 1.0, x, y), 0.0, 1.0, -b) == Quad(m, 0.0, 1.0, -b) + Square(y - b)
  {
    hide Quad, AddSample;
    QuadOfSample(m, 1.0, x, y, 1.0, 0.0, -a);
    QuadOfSample(m, 1.0, x, y, 0.0, 1.0, -b);
    assert 1.0 * x + 0.0 * y + -a == x - a && 0.0 * x + 1.0 * y + -b == y - b;
  }

  lemma OverlapVariances(m: Moments, a: real, b: real)
    requires m.w > 0.0 && a == MeanX(m) && b == MeanY(m)
    ensures Quad(m, 1.0, 0.0, -a) / m.w == VarX(m)
    ensures Quad(m, 0.0, 1.0, -b) / m.w == VarY(m)
  {
    CenteredIdentity(m, 1.0, 0.0, a, b);
    CenteredIdentity(m, 0.0, 1.0, a, b);
    QuotientOf(VarX(m), m.w);
    QuotientOf(VarY(m), m.w);
  }

  lemma QuotientOf(v: real, w: real)
    requires w > 0.0
    ensures w * v / w == v
  {}

  method LagCovariance(data: seq<real>, delta: nat, avg0: real, avg1: real) returns (cov: real)
    requires delta < |data|
    requires avg0 == MeanX(Overlap(data, delta)) && avg1 == MeanY(Overlap(data, delta))
    ensures cov == Cov(Overlap(data, delta))
  {
    hide AddSample, MeanX, MeanY, Cov;
    var n := |data| - delta;
    cov := 0.0;
    for i := 0 to n
      invariant cov == Cross(PairMoments(data, delta, i), avg0, avg1)
    {
      hide Cross;
      CrossOfSample(PairMoments(data, delta, i), data[i], data[i + delta], avg0, avg1);
      cov := cov + (data[i] - avg0) * (data[i + delta] - avg1);
    }
    PairMomentsPsd(data, delta, n);
    OverlapCovariance(Overlap(data, delta), avg0, avg1);
    cov := cov / n as real;
  }

  /** The sum of (x - a) * (y - b). */
  function Cross(m: Moments, a: real, b: real): real {
    m.xym - b * m.xm - a * m.ym + a * b * m.w
  }

  lemma CrossOfSample(m: Moments, x: real, y: real, a: real, b: real)
    ensures Cross(AddSample(m, 1.0, x, y), a, b) == Cross(m, a, b) + (x - a) * (y - b)
  {}

  lemma OverlapCovariance(m: Moments, a: real, b: real)
    requires m.w > 0.0 && a == MeanX(m) && b == MeanY(m)
    ensures Cross(m, a, b) / m.w == Cov(m)
  {
    var w, c := m.w, m.xym / m.w;
    assert m.xm == w * a && m.ym == w * b && m.xym == w * c;
    assert Cross(m, a, b) == w * (c - a * b);
    QuotientOf(c - a * b, w);
  }
}
