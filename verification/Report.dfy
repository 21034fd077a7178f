/**
  What the comparison of zc/src/ZC_CompareData_double.cpp reports about a block,
  in terms of the block alone: sums over its elements, extremes among them and
  counts of them.
 */
module Report {
  import opened Arithmetic
  import opened ErrorStats

  /** A floating-point quotient whose divisor may be zero. */
  datatype Quotient = Finite(value: real) | Infinite(positive: bool) | NotANumber

  /** The part of the comparison result that is modelled. */
  datatype Result = Result(
    minAbsErr: real, maxAbsErr: real, avgAbsErr: real,
    minRelErr: Quotient, maxRelErr: Quotient, avgRelErr: Quotient,
    minPWRErr: real, maxPWRErr: real, avgPWRErr: Quotient,
    rmse: real, nrmse: Quotient,
    absErrPDF: seq<real>, errInterval: real, errMinValue: real,
    pearsonCorr: real, valErrCorr: real)

  function Sum(s: seq<real>, m: nat): real
    requires m <= |s|
  {
    if m == 0 then 0.0 else Sum(s, m - 1) + s[m - 1]
  }

  function Diffs(b: Block): (s: seq<real>)
    requires b.Valid()
    ensures |s| == b.Length()
  {
    seq(b.Length(), i requires 0 <= i < b.Length() => b.data2[i] - b.data1[i])
  }

  function Errors(b: Block): (s: seq<real>)
    requires b.Valid()
    ensures |s| == b.Length()
  {
    seq(b.Length(), i requires 0 <= i < b.Length() => Abs(b.data2[i] - b.data1[i]))
  }

  function Squares(b: Block): (s: seq<real>)
    requires b.Valid()
    ensures |s| == b.Length()
  {
    seq(b.Length(), i requires 0 <= i < b.Length() =>
      (b.data2[i] - b.data1[i]) * (b.data2[i] - b.data1[i]))
  }

  /** The difference relative to the original value; 0 where that is 0. */
  function Ratio(b: Block, i: nat): real
    requires b.Valid() && i < b.Length()
  {
    if b.data1[i] == 0.0 then 0.0 else (b.data2[i] - b.data1[i]) / b.data1[i]
  }

  function RelErrors(b: Block): (s: seq<real>)
    requires b.Valid()
    ensures |s| == b.Length()
  {
    seq(b.Length(), i requires 0 <= i < b.Length() => Abs(Ratio(b, i)))
  }

  ghost function Nonzero(b: Block, m: nat): set<nat> {
    set i: nat | i < m && i < |b.data1| && b.data1[i] != 0.0
  }

  // ----- what the statistics are -----

  /** The sums and the count over the first m elements. */
  ghost predicate SumsAre(s: Stats, b: Block, m: nat)
    requires b.Valid() && m <= b.Length()
  {
    && s.sum1 == Sum(b.data1, m) && s.sum2 == Sum(b.data2, m) && s.sumDiff == Sum(Diffs(b), m)
    && s.sumErr == Sum(Errors(b), m) && s.sumErrSqr == Sum(Squares(b), m)
    && s.sumErrRel == Sum(RelErrors(b), m) && s.nRel == |Nonzero(b, m)|
  }

  /** lo and hi are elements that bound the first m elements. */
  ghost predicate Bounds(lo: real, hi: real, s: seq<real>, m: nat)
    requires m <= |s|
  {
    lo in s && hi in s && forall i :: 0 <= i < m ==> lo <= s[i] <= hi
  }

  /** x is the least of init and the values at nonzero originals, or the greatest. */
  ghost predicate LeastRatio(x: real, init: real, b: Block, m: nat, absolute: bool)
    requires b.Valid() && m <= b.Length()
  {
    && (x == init || exists i :: 0 <= i < b.Length() && b.data1[i] != 0.0 && x == RatioOf(b, i, absolute))
    && x <= init && forall i :: 0 <= i < m && b.data1[i] != 0.0 ==> x <= RatioOf(b, i, absolute)
  }

  ghost predicate GreatestRatio(x: real, init: real, b: Block, m: nat, absolute: bool)
    requires b.Valid() && m <= b.Length()
  {
    && (x == init || exists i :: 0 <= i < b.Length() && b.data1[i] != 0.0 && x == RatioOf(b, i, absolute))
    && x >= init && forall i :: 0 <= i < m && b.data1[i] != 0.0 ==> x >= RatioOf(b, i, absolute)
  }

  function RatioOf(b: Block, i: nat, absolute: bool): real
    requires b.Valid() && i < b.Length()
  {
    if absolute then Abs(Ratio(b, i)) else Ratio(b, i)
  }

  ghost predicate ExtremesAre(s: Stats, b: Block, m: nat)
    requires b.Valid() && m <= b.Length()
  {
    && Bounds(s.minDiff, s.maxDiff, Diffs(b), m) && Bounds(s.minErr, s.maxErr, Errors(b), m)
    && LeastRatio(s.minDiffRel, HUGE, b, m, false) && GreatestRatio(s.maxDiffRel, -HUGE, b, m, false)
    && LeastRatio(s.minErrRel, HUGE, b, m, true) && GreatestRatio(s.maxErrRel, 0.0, b, m, true)
  }

  /** The statistics that one pass accumulates are the sums, the count and the extremes over the block. */
  lemma {:induction false} StatsAre(b: Block, m: nat)
    requires b.Valid() && m <= b.Length()
    ensures SumsAre(StatsOf(b, m), b, m) && ExtremesAre(StatsOf(b, m), b, m)
  {
    hide Step, SumsAre, ExtremesAre;
    if m == 0 {
      NoStats(b);
    } else {
      StatsAre(b, m - 1);
      SumsStep(StatsOf(b, m - 1), b, m - 1);
      BoundsStep(StatsOf(b, m - 1), b, m - 1);
    }
  }

  lemma NoStats(b: Block)
    requires b.Valid()
    ensures SumsAre(StatsOf(b, 0), b, 0) && ExtremesAre(StatsOf(b, 0), b, 0)
  {
    assert Nonzero(b, 0) == {};
    assert Diffs(b)[0] == b.data2[0] - b.data1[0] && Errors(b)[0] == Abs(b.data2[0] - b.data1[0]);
  }

  lemma SumsStep(s: Stats, b: Block, m: nat)
    requires b.Valid() && m < b.Length() && SumsAre(s, b, m)
    ensures SumsAre(Step(s, b.data1[m], b.data2[m]), b, m + 1)
  {
    hide Step, Nonzero, Ratio, Abs;
    SumsGrow(b, m);
    StepSums(s, b, m);
    CountStep(b, m);
  }

  lemma SumsGrow(b: Block, m: nat)
    requires b.Valid() && m < b.Length()
    ensures var d := b.data2[m] - b.data1[m];
            && Diffs(b)[m] == d && Errors(b)[m] == Abs(d) && Squares(b)[m] == d * d
            && RelErrors(b)[m] == Abs(Ratio(b, m))
  {}

  lemma StepSums(s: Stats, b: Block, m: nat)
    requires b.Valid() && m < b.Length()
    ensures var x, y, t := b.data1[m], b.data2[m], Step(s, b.data1[m], b.data2[m]);
            && t.sum1 == s.sum1 + x && t.sum2 == s.sum2 + y && t.sumDiff == s.sumDiff + (y - x)
            && t.sumErr == s.sumErr + Abs(y - x) && t.sumErrSqr == s.sumErrSqr + (y - x) * (y - x)
            && t.sumErrRel == s.sumErrRel + Abs(Ratio(b, m)) && t.nRel == s.nRel + if x != 0.0 then 1 else 0
  {
    SquareOfAbs(b.data2[m] - b.data1[m]);
  }

  lemma SquareOfAbs(d: real)
    ensures Abs(d) * Abs(d) == d * d
  {}

  lemma CountStep(b: Block, m: nat)
    requires m < |b.data1|
    ensures |Nonzero(b, m + 1)| == |Nonzero(b, m)| + if b.data1[m] != 0.0 then 1 else 0
  {
    var n := Nonzero(b, m);
    assert Nonzero(b, m + 1) == if b.data1[m] != 0.0 then n + {m} else n;
    assert m !in n;
    hide Nonzero;
  }

  lemma BoundsStep(s: Stats, b: Block, m: nat)
    requires b.Valid() && m < b.Length() && ExtremesAre(s, b, m)
    ensures ExtremesAre(Step(s, b.data1[m], b.data2[m]), b, m + 1)
  {
    var d := b.data2[m] - b.data1[m];
    var t := Step(s, b.data1[m], b.data2[m]);
    assert Diffs(b)[m] == d && Errors(b)[m] == Abs(d);
    BoundsGrow(s.minDiff, s.maxDiff, Diffs(b), m);
    BoundsGrow(s.minErr, s.maxErr, Errors(b), m);
    StepExtremes(s, b, m);
    RatiosGrow(s.minDiffRel, t.minDiffRel, s.maxDiffRel, t.maxDiffRel, HUGE, -HUGE, b, m, false);
    RatiosGrow(s.minErrRel, t.minErrRel, s.maxErrRel, t.maxErrRel, HUGE, 0.0, b, m, true);
    hide Step, Diffs, Errors, LeastRatio, GreatestRatio, Bounds, Min, Max;
  }

  /** What one step does to the extremes. */
  lemma StepExtremes(s: Stats, b: Block, m: nat)
    requires b.Valid() && m < b.Length()
    ensures var d, t, x := b.data2[m] - b.data1[m], Step(s, b.data1[m], b.data2[m]), b.data1[m];
            && t.minDiff == Min(s.minDiff, d) && t.maxDiff == Max(s.maxDiff, d)
            && t.minErr == Min(s.minErr, Abs(d)) && t.maxErr == Max(s.maxErr, Abs(d))
            && t.minDiffRel == (if x == 0.0 then s.minDiffRel else Min(s.minDiffRel, Ratio(b, m)))
            && t.maxDiffRel == (if x == 0.0 then s.maxDiffRel else Max(s.maxDiffRel, Ratio(b, m)))
            && t.minErrRel == (if x == 0.0 then s.minErrRel else Min(s.minErrRel, Abs(Ratio(b, m))))
            && t.maxErrRel == (if x == 0.0 then s.maxErrRel else Max(s.maxErrRel, Abs(Ratio(b, m))))
  {
    hide Abs, Min, Max;
  }

  lemma BoundsGrow(lo: real, hi: real, s: seq<real>, m: nat)
    requires m < |s| && Bounds(lo, hi, s, m)
    ensures Bounds(Min(lo, s[m]), Max(hi, s[m]), s, m + 1)
  {}

  lemma RatiosGrow(lo: real, lo': real, hi: real, hi': real, least: real, greatest: real,
                   b: Block, m: nat, absolute: bool)
    requires b.Valid() && m < b.Length()
    requires LeastRatio(lo, least, b, m, absolute) && GreatestRatio(hi, greatest, b, m, absolute)
    requires var r := RatioOf(b, m, absolute);
             if b.data1[m] == 0.0 then lo' == lo && hi' == hi else lo' == Min(lo, r) && hi' == Max(hi, r)
    ensures LeastRatio(lo', least, b, m + 1, absolute) && GreatestRatio(hi', greatest, b, m + 1, absolute)
  {
    hide Ratio;
  }

  // ----- what a result says -----

  ghost predicate IsOver(q: Quotient, x: real, d: real) {
    if d != 0.0 then q.Finite? && q.value * d == x
    else q == if x > 0.0 then Infinite(true) else if x < 0.0 then Infinite(false) else NotANumber
  }

  /** The elements whose difference lies in cell k; the last cell has its upper end as well. */
  ghost function Cell(b: Block, m: nat, k: nat, min: real, interval: real): set<nat>
    requires b.Valid() && m <= b.Length()
  {
    set i: nat | i < m && InCell(b.data2[i] - b.data1[i], k, min, interval)
  }

  ghost predicate InCell(d: real, k: nat, min: real, interval: real) {
    || min + k as real * interval <= d < min + (k + 1) as real * interval
    || (k == 1999 && d == min + 2000.0 * interval)
  }

  /** The products of the deviations of u from p and of v from q. */
  function Deviations(u: seq<real>, p: real, v: seq<real>, q: real): (s: seq<real>)
    requires |u| == |v|
    ensures |s| == |u|
  {
    seq(|u|, i requires 0 <= i < |u| => (u[i] - p) * (v[i] - q))
  }

  /** c is the correlation coefficient for these sums of products: its square and its sign say so. */
  ghost predicate IsCoefficient(c: real, prodSum: real, sum1: real, sum2: real) {
    if sum1 == 0.0 || sum2 == 0.0 then c == 0.0
    else c * c * (sum1 * sum2) == prodSum * prodSum && (c > 0.0 <==> prodSum > 0.0) && (c < 0.0 <==> prodSum < 0.0)
  }

  /** c correlates u with v around the means that division by n gives. */
  ghost predicate Correlates(c: real, u: seq<real>, v: seq<real>, n: nat)
    requires |u| == |v| && n > 0
  {
    var m, p, q := |u|, Sum(u, |u|) / n as real, Sum(v, |v|) / n as real;
    IsCoefficient(c, Sum(Deviations(u, p, v, q), m), Sum(Deviations(u, p, u, p), m), Sum(Deviations(v, q, v, q), m))
  }

  ghost predicate ErrorsAre(r: Result, b: Block, n: nat, range: real)
    requires b.Valid() && n > 0
  {
    var m, t := b.Length(), n as real;
    && Bounds(r.minAbsErr, r.maxAbsErr, Errors(b), m) && r.avgAbsErr * t == Sum(Errors(b), m)
    && IsOver(r.minRelErr, r.minAbsErr, range) && IsOver(r.maxRelErr, r.maxAbsErr, range)
    && IsOver(r.avgRelErr, r.avgAbsErr, range)
    && LeastRatio(r.minPWRErr, HUGE, b, m, true) && GreatestRatio(r.maxPWRErr, 0.0, b, m, true)
    && IsOver(r.avgPWRErr, Sum(RelErrors(b), m), |Nonzero(b, m)| as real)
    && r.rmse >= 0.0 && r.rmse * r.rmse * t == Sum(Squares(b), m) && IsOver(r.nrmse, r.rmse, range)
  }

  /** The histogram: cell k holds the share of the differences that lie in it. */
  ghost predicate HistogramIs(r: Result, b: Block, n: nat)
    requires b.Valid() && n > 0
  {
    var m := b.Length();
    && Bounds(r.errMinValue, r.errMinValue + 2000.0 * r.errInterval, Diffs(b), m)
    && if r.errInterval == 0.0 then r.absErrPDF == [0.0]
       else |r.absErrPDF| == 2000 && forall k: nat :: k < 2000 ==>
              r.absErrPDF[k] * n as real == |Cell(b, m, k, r.errMinValue, r.errInterval)| as real
  }

  /** The result r describes block b when means are taken over n elements. */
  ghost predicate Describes(r: Result, b: Block, n: nat, range: real)
    requires b.Valid() && n > 0
  {
    && ErrorsAre(r, b, n, range) && HistogramIs(r, b, n)
    && Correlates(r.pearsonCorr, b.data1, b.data2, n) && Correlates(r.valErrCorr, b.data1, Diffs(b), n)
  }
}
