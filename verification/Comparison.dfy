/**
  ZC_compareData_double and ZC_compareData_double_online of
  zc/src/ZC_CompareData_double.cpp: error bounds, mean errors, the histogram of
  absolute errors and the two correlations.
 */
module Comparison {
  import opened Arithmetic
  import opened ErrorStats
  import opened Report
  import Moments

  const PDF_INTERVALS := 2000

  // ----- histogram -----

  function Diff(b: Block, i: nat): real
    requires b.Valid() && i < b.Length()
  {
    b.data2[i] - b.data1[i]
  }

  /** The histogram bin of a difference. */
  function Bin(d: real, min: real, interval: real): int
    requires interval != 0.0
  {
    var index := ((d - min) / interval).Floor;
    if index == PDF_INTERVALS then PDF_INTERVALS - 1 else index
  }

  /** How many of the first m differences fall into bin k. */
  function CountIn(b: Block, m: nat, k: int, min: real, interval: real): nat
    requires b.Valid() && m <= b.Length() && interval != 0.0
  {
    if m == 0 then 0
    else CountIn(b, m - 1, k, min, interval) + if Bin(Diff(b, m - 1), min, interval) == k then 1 else 0
  }

  lemma ExtremeDiffs(b: Block, m: nat)
    requires b.Valid() && m <= b.Length()
    ensures forall i :: 0 <= i < m ==> StatsOf(b, m).minDiff <= Diff(b, i) <= StatsOf(b, m).maxDiff
    ensures exists i :: 0 <= i < b.Length() && StatsOf(b, m).minDiff == Diff(b, i)
    ensures exists i :: 0 <= i < b.Length() && StatsOf(b, m).maxDiff == Diff(b, i)
  {
    hide StatsOf, SumsAre;
    StatsAre(b, m);
    assert forall i :: 0 <= i < b.Length() ==> Diffs(b)[i] == Diff(b, i);
  }

  /** Every difference between the extremes has a bin inside the histogram. */
  lemma BinInRange(d: real, min: real, max: real)
    requires min <= d <= max && min < max
    ensures 0 <= Bin(d, min, (max - min) / PDF_INTERVALS as real) < PDF_INTERVALS
  {
    var interval := (max - min) / PDF_INTERVALS as real;
    assert interval * 2000.0 == max - min;
    var q := (d - min) / interval;
    assert q * interval == d - min;
    QuotientBounds(q, interval);
  }

  lemma QuotientBounds(q: real, c: real)
    requires c > 0.0 && 0.0 <= q * c <= 2000.0 * c
    ensures 0.0 <= q <= 2000.0
  {
    Moments.PositiveFactor(c, q);
    assert c * (2000.0 - q) == 2000.0 * c - q * c;
    Moments.PositiveFactor(c, 2000.0 - q);
  }

  /** The counts of bins 0..k added up. */
  function TotalIn(b: Block, m: nat, k: nat, min: real, interval: real): nat
    requires b.Valid() && m <= b.Length() && interval != 0.0
  {
    if k == 0 then 0 else TotalIn(b, m, k - 1, min, interval) + CountIn(b, m, k - 1, min, interval)
  }

  lemma {:induction false} TotalStep(b: Block, m: nat, k: nat, min: real, interval: real)
    requires b.Valid() && 0 < m <= b.Length() && interval != 0.0
    ensures TotalIn(b, m, k, min, interval)
         == TotalIn(b, m - 1, k, min, interval) + if 0 <= Bin(Diff(b, m - 1), min, interval) < k then 1 else 0
  {
    hide Bin;
    if k > 0 {
      TotalStep(b, m, k - 1, min, interval);
    }
  }

  lemma {:induction false} TotalEmpty(b: Block, k: nat, min: real, interval: real)
    requires b.Valid() && interval != 0.0
    ensures TotalIn(b, 0, k, min, interval) == 0
  {
    if k > 0 {
      TotalEmpty(b, k - 1, min, interval);
    }
  }

  /** When every difference is in range, each is counted in exactly one bin. */
  lemma {:induction false} TotalIsLength(b: Block, m: nat, min: real, interval: real)
    requires b.Valid() && m <= b.Length() && interval != 0.0
    requires forall i :: 0 <= i < m ==> 0 <= Bin(Diff(b, i), min, interval) < PDF_INTERVALS
    ensures TotalIn(b, m, PDF_INTERVALS, min, interval) == m
  {
    hide Bin, TotalIn;
    if m == 0 {
      TotalEmpty(b, PDF_INTERVALS, min, interval);
    } else {
      TotalIsLength(b, m - 1, min, interval);
      TotalStep(b, m, PDF_INTERVALS, min, interval);
    }
  }

  lemma {:induction false} JoinCount(a: Block, b: Block, m: nat, k: int, min: real, interval: real)
    requires a.Valid() && b.Valid() && m <= b.Length() && interval != 0.0
    ensures CountIn(Join(a, b), a.Length() + m, k, min, interval)
         == CountIn(a, a.Length(), k, min, interval) + CountIn(b, m, k, min, interval)
  {
    hide Bin;
    if m == 0 {
      PrefixCount(a, b, a.Length(), k, min, interval);
    } else {
      JoinCount(a, b, m - 1, k, min, interval);
    }
  }

  lemma {:induction false} PrefixCount(a: Block, b: Block, m: nat, k: int, min: real, interval: real)
    requires a.Valid() && b.Valid() && m <= a.Length() && interval != 0.0
    ensures CountIn(Join(a, b), m, k, min, interval) == CountIn(a, m, k, min, interval)
  {
    hide Bin;
    if m > 0 {
      PrefixCount(a, b, m - 1, k, min, interval);
    }
  }

  /** The MPI_SUM of all ranks' counts of bin k. */
  function ReduceCount(blocks: seq<Block>, k: int, min: real, interval: real): nat
    requires ValidBlocks(blocks) && interval != 0.0
  {
    var last := blocks[|blocks| - 1];
    var own := CountIn(last, last.Length(), k, min, interval);
    if |blocks| == 1 then own
    else
      assert ValidBlocks(blocks[..|blocks| - 1]);
      ReduceCount(blocks[..|blocks| - 1], k, min, interval) + own
  }

  lemma {:induction false} ReducedCountIsGlobal(blocks: seq<Block>, k: int, min: real, interval: real)
    requires ValidBlocks(blocks) && interval != 0.0
    ensures ReduceCount(blocks, k, min, interval)
         == CountIn(Concat(blocks), Concat(blocks).Length(), k, min, interval)
  {
    hide CountIn;
    var n := |blocks|;
    if n > 1 {
      var before := blocks[..n - 1];
      assert ValidBlocks(before);
      ReducedCountIsGlobal(before, k, min, interval);
      JoinCount(Concat(before), blocks[n - 1], blocks[n - 1].Length(), k, min, interval);
    }
  }

  // ----- correlations -----

  /** Sums of products and squares of deviations: of data1 with data2, or of data1 with the errors. */
  datatype Products = Products(prodSum: real, sum1: real, sum2: real)

  function AddProducts(p: Products, u: real, v: real): Products {
    Products(p.prodSum + u * v, p.sum1 + u * u, p.sum2 + v * v)
  }

  function Other(b: Block, i: nat, errors: bool): real
    requires b.Valid() && i < b.Length()
  {
    if errors then Diff(b, i) else b.data2[i]
  }

  function ProductsOf(b: Block, m: nat, errors: bool, mean1: real, mean2: real): Products
    requires b.Valid() && m <= b.Length()
  {
    if m == 0 then Products(0.0, 0.0, 0.0)
    else AddProducts(ProductsOf(b, m - 1, errors, mean1, mean2),
                     b.data1[m - 1] - mean1, Other(b, m - 1, errors) - mean2)
  }

  function Plus(p: Products, q: Products): Products {
    Products(p.prodSum + q.prodSum, p.sum1 + q.sum1, p.sum2 + q.sum2)
  }

  lemma PlusStep(p: Products, q: Products, u: real, v: real)
    ensures Plus(p, AddProducts(q, u, v)) == AddProducts(Plus(p, q), u, v)
  {}

  lemma {:induction false} JoinProducts(a: Block, b: Block, m: nat, errors: bool, mean1: real, mean2: real)
    requires a.Valid() && b.Valid() && m <= b.Length()
    ensures ProductsOf(Join(a, b), a.Length() + m, errors, mean1, mean2)
         == Plus(ProductsOf(a, a.Length(), errors, mean1, mean2), ProductsOf(b, m, errors, mean1, mean2))
  {
    hide AddProducts;
    if m == 0 {
      PrefixProducts(a, b, a.Length(), errors, mean1, mean2);
    } else {
      JoinProducts(a, b, m - 1, errors, mean1, mean2);
      PlusStep(ProductsOf(a, a.Length(), errors, mean1, mean2), ProductsOf(b, m - 1, errors, mean1, mean2),
               b.data1[m - 1] - mean1, Other(b, m - 1, errors) - mean2);
    }
  }

  lemma {:induction false} PrefixProducts(a: Block, b: Block, m: nat, errors: bool, mean1: real, mean2: real)
    requires a.Valid() && b.Valid() && m <= a.Length()
    ensures ProductsOf(Join(a, b), m, errors, mean1, mean2) == ProductsOf(a, m, errors, mean1, mean2)
  {
    hide AddProducts;
    if m > 0 {
      PrefixProducts(a, b, m - 1, errors, mean1, mean2);
    }
  }

  function ReduceProducts(blocks: seq<Block>, errors: bool, mean1: real, mean2: real): Products
    requires ValidBlocks(blocks)
  {
    var last := blocks[|blocks| - 1];
    var own := ProductsOf(last, last.Length(), errors, mean1, mean2);
    if |blocks| == 1 then own
    else
      assert ValidBlocks(blocks[..|blocks| - 1]);
      Plus(ReduceProducts(blocks[..|blocks| - 1], errors, mean1, mean2), own)
  }

  lemma {:induction false} ReducedProductsAreGlobal(blocks: seq<Block>, errors: bool, mean1: real, mean2: real)
    requires ValidBlocks(blocks)
    ensures ReduceProducts(blocks, errors, mean1, mean2)
         == ProductsOf(Concat(blocks), Concat(blocks).Length(), errors, mean1, mean2)
  {
    hide ProductsOf, Plus;
    var n := |blocks|;
    if n > 1 {
      var before := blocks[..n - 1];
      assert ValidBlocks(before);
      ReducedProductsAreGlobal(before, errors, mean1, mean2);
      JoinProducts(Concat(before), blocks[n - 1], blocks[n - 1].Length(), errors, mean1, mean2);
    }
  }

  /** The correlation coefficient from the sums, or 0 when a deviation vanishes. */
  function Correlation(p: Products, n: nat, sqrt: real -> real): real
    requires n > 0
  {
    var std1, std2 := sqrt(p.sum1 / n as real), sqrt(p.sum2 / n as real);
    var ee := p.prodSum / n as real;
    if std1 * std2 != 0.0 then ee / std1 / std2 else 0.0
  }

  /** The deviations as sample pairs. */
  ghost function DeviationMoments(b: Block, m: nat, errors: bool, mean1: real, mean2: real): Moments.Moments
    requires b.Valid() && m <= b.Length()
  {
    if m == 0 then Moments.NONE
    else Moments.AddSample(DeviationMoments(b, m - 1, errors, mean1, mean2), 1.0,
                           b.data1[m - 1] - mean1, Other(b, m - 1, errors) - mean2)
  }

  lemma {:induction false} ProductsAreMoments(b: Block, m: nat, errors: bool, mean1: real, mean2: real)
    requires b.Valid() && m <= b.Length()
    ensures var q, p := DeviationMoments(b, m, errors, mean1, mean2), ProductsOf(b, m, errors, mean1, mean2);
            Moments.Psd(q) && q.xym == p.prodSum && q.xxm == p.sum1 && q.yym == p.sum2
  {
    hide Moments.Psd;
    if m == 0 {
      Moments.NonePsd();
    } else {
      ProductsAreMoments(b, m - 1, errors, mean1, mean2);
      Moments.AddPsd(DeviationMoments(b, m - 1, errors, mean1, mean2), 1.0,
                     b.data1[m - 1] - mean1, Other(b, m - 1, errors) - mean2);
    }
  }

  /** Both correlations lie between -1 and 1. */
  lemma CorrelationBound(b: Block, errors: bool, mean1: real, mean2: real, sqrt: real -> real)
    requires b.Valid() && Moments.IsSqrt(sqrt)
    ensures -1.0 <= Correlation(ProductsOf(b, b.Length(), errors, mean1, mean2), b.Length(), sqrt) <= 1.0
  {
    hide ProductsOf, DeviationMoments, Moments.Psd, Moments.IsSqrt, Correlation;
    var n := b.Length();
    var p := ProductsOf(b, n, errors, mean1, mean2);
    ProductsAreMoments(b, n, errors, mean1, mean2);
    Moments.RawCauchySchwarz(DeviationMoments(b, n, errors, mean1, mean2));
    CorrelationOfProducts(p, n, sqrt);
  }

  lemma CorrelationOfProducts(p: Products, n: nat, sqrt: real -> real)
    requires n > 0 && Moments.IsSqrt(sqrt)
    requires p.sum1 >= 0.0 && p.sum2 >= 0.0 && p.prodSum * p.prodSum <= p.sum1 * p.sum2
    ensures -1.0 <= Correlation(p, n, sqrt) <= 1.0
  {
    hide Moments.IsSqrt;
    var d := n as real;
    QuotientSign(p.sum1, d);
    QuotientSign(p.sum2, d);
    Moments.RootOf(sqrt, p.sum1 / d);
    Moments.RootOf(sqrt, p.sum2 / d);
    ScaledProducts(p.sum1, p.sum2, p.prodSum, d);
    RatioOfRoots(p.sum1 / d, p.sum2 / d, p.prodSum / d, sqrt(p.sum1 / d), sqrt(p.sum2 / d));
  }

  lemma ScaledProducts(a: real, b: real, c: real, n: real)
    requires n > 0.0 && c * c <= a * b
    ensures c / n * (c / n) <= a / n * (b / n)
  {
    var x, y, z := a / n, b / n, c / n;
    assert a == x * n && b == y * n && c == z * n;
    var d := x * y - z * z;
    assert n * (n * d) == a * b - c * c;
    Moments.PositiveFactor(n, n * d);
    Moments.PositiveFactor(n, d);
  }

  lemma RatioOfRoots(x: real, y: real, c: real, a: real, b: real)
    requires a >= 0.0 && b >= 0.0 && a * a == x && b * b == y && c * c <= x * y
    ensures a * b != 0.0 ==> -1.0 <= c / a / b <= 1.0
  {
    var s := a * b;
    assert s * s == x * y;
    Moments.ProductNonneg(a, b);
    Moments.BetweenRoots(c, s);
    if s != 0.0 {
      Moments.RatioBound(c, s);
      QuotientTwice(c, a, b, s);
    }
  }

  lemma QuotientTwice(c: real, a: real, b: real, s: real)
    requires s == a * b && s != 0.0
    ensures a != 0.0 && b != 0.0 && c / a / b == c / s
  {
    var p, q := c / a, c / s;
    assert p * a == c && q * s == c;
    var r := p / b;
    assert r * b == p;
    assert r * b * a == q * b * a;
    assert (r - q) * s == 0.0;
  }

  // ----- results -----

  function Over(x: real, d: real): Quotient {
    if d != 0.0 then Finite(x / d)
    else if x > 0.0 then Infinite(true)
    else if x < 0.0 then Infinite(false)
    else NotANumber
  }

  function Interval(s: Stats): real { (s.maxDiff - s.minDiff) / PDF_INTERVALS as real }

  /** The histogram divided by the number of elements; a single 0 when all differences are equal. */
  function OfflinePdf(b: Block, s: Stats, n: nat): seq<real>
    requires b.Valid() && n > 0
  {
    if Interval(s) == 0.0 then [0.0]
    else
      seq(PDF_INTERVALS, k requires 0 <= k < PDF_INTERVALS =>
        CountIn(b, b.Length(), k, s.minDiff, Interval(s)) as real / n as real)
  }

  function OnlinePdf(blocks: seq<Block>, s: Stats, n: nat): seq<real>
    requires ValidBlocks(blocks) && n > 0
  {
    if Interval(s) == 0.0 then [0.0]
    else
      seq(PDF_INTERVALS, k requires 0 <= k < PDF_INTERVALS =>
        ReduceCount(blocks, k, s.minDiff, Interval(s)) as real / n as real)
  }

  /** The formulas that turn sums over n elements into a result. */
  function Finish(s: Stats, n: nat, pdf: seq<real>, p: Products, e: Products, range: real, sqrt: real -> real): Result
    requires n > 0
  {
    var avg, mse := s.sumErr / n as real, s.sumErrSqr / n as real;
    Result(s.minErr, s.maxErr, avg, Over(s.minErr, range), Over(s.maxErr, range), Over(avg, range),
           s.minErrRel, s.maxErrRel, Over(s.sumErrRel, s.nRel as real),
           sqrt(mse), Over(sqrt(mse), range),
           pdf, Interval(s), s.minDiff,
           Correlation(p, n, sqrt), Correlation(e, n, sqrt))
  }

  /** The result for a data set when every mean is taken over n elements. */
  function ResultOver(b: Block, n: nat, range: real, sqrt: real -> real): Result
    requires b.Valid() && n > 0
  {
    var m, s := b.Length(), StatsOf(b, b.Length());
    var mean1, mean2, avgDiff := s.sum1 / n as real, s.sum2 / n as real, s.sumDiff / n as real;
    Finish(s, n, OfflinePdf(b, s, n), ProductsOf(b, m, false, mean1, mean2), ProductsOf(b, m, true, mean1, avgDiff),
           range, sqrt)
  }

  function OfflineResult(b: Block, range: real, sqrt: real -> real): Result
    requires b.Valid()
  {
    ResultOver(b, b.Length(), range, sqrt)
  }

  function TotalLength(blocks: seq<Block>): nat {
    if blocks == [] then 0 else TotalLength(blocks[..|blocks| - 1]) + blocks[|blocks| - 1].Length()
  }

  /** The length that the online comparison divides by: the global variable once it is set. */
  function UsedLength(blocks: seq<Block>, globalDataLength: nat): nat {
    if globalDataLength <= 0 then TotalLength(blocks) else globalDataLength
  }

  /** What rank 0 stores, given the value of the global data length on entry. */
  function OnlineResult(blocks: seq<Block>, globalDataLength: nat, range: real, sqrt: real -> real): Result
    requires ValidBlocks(blocks) && UsedLength(blocks, globalDataLength) > 0
  {
    var n := UsedLength(blocks, globalDataLength);
    var s := ReduceStats(blocks);
    var mean1, mean2, avgDiff := s.sum1 / n as real, s.sum2 / n as real, s.sumDiff / n as real;
    Finish(s, n, OnlinePdf(blocks, s, n), ReduceProducts(blocks, false, mean1, mean2),
           ReduceProducts(blocks, true, mean1, avgDiff), range, sqrt)
  }

  lemma {:induction false} TotalLengthIs(blocks: seq<Block>)
    requires ValidBlocks(blocks)
    ensures TotalLength(blocks) == Concat(blocks).Length() > 0
  {
    if |blocks| > 1 {
      var before := blocks[..|blocks| - 1];
      assert ValidBlocks(before);
      TotalLengthIs(before);
    } else {
      assert blocks[..0] == [];
      assert TotalLength(blocks[..0]) == 0;
    }
  }

  lemma PdfsAgree(blocks: seq<Block>, s: Stats, n: nat)
    requires ValidBlocks(blocks) && n > 0
    ensures OnlinePdf(blocks, s, n) == OfflinePdf(Concat(blocks), s, n)
  {
    if Interval(s) != 0.0 {
      var online, offline := OnlinePdf(blocks, s, n), OfflinePdf(Concat(blocks), s, n);
      forall k | 0 <= k < PDF_INTERVALS ensures online[k] == offline[k] {
        ReducedCountIsGlobal(blocks, k, s.minDiff, Interval(s));
      }
    }
  }

  /** Reducing over ranks changes nothing but the length that is divided by. */
  lemma OnlineIsOver(blocks: seq<Block>, globalDataLength: nat, range: real, sqrt: real -> real)
    requires ValidBlocks(blocks)
    ensures UsedLength(blocks, globalDataLength) > 0
    ensures OnlineResult(blocks, globalDataLength, range, sqrt)
         == ResultOver(Concat(blocks), UsedLength(blocks, globalDataLength), range, sqrt)
  {
    hide StatsOf, ReduceStats, ProductsOf, ReduceProducts, Finish, OnlinePdf, OfflinePdf, Concat, TotalLength;
    TotalLengthIs(blocks);
    ReducedStatsAreGlobal(blocks);
    var n, s := UsedLength(blocks, globalDataLength), ReduceStats(blocks);
    var mean1, mean2, avgDiff := s.sum1 / n as real, s.sum2 / n as real, s.sumDiff / n as real;
    ReducedProductsAreGlobal(blocks, false, mean1, mean2);
    ReducedProductsAreGlobal(blocks, true, mean1, avgDiff);
    PdfsAgree(blocks, s, n);
  }

  /**
    The online result is the offline one on the whole data set if and only if the global length is unset or
    right, or the data sets are equal and their values either vary or are all zero.
   */
  lemma OnlineIsOffline(blocks: seq<Block>, globalDataLength: nat, range: real, sqrt: real -> real)
    requires ValidBlocks(blocks) && Moments.IsSqrt(sqrt)
    ensures UsedLength(blocks, globalDataLength) > 0
    ensures OnlineResult(blocks, globalDataLength, range, sqrt) == OfflineResult(Concat(blocks), range, sqrt)
       <==> globalDataLength in {0, TotalLength(blocks)} || Unaffected(Concat(blocks))
  {
    hide ResultOver, OnlineResult, Concat, TotalLength, Unaffected, Moments.IsSqrt;
    TotalLengthIs(blocks);
    OnlineIsOver(blocks, globalDataLength, range, sqrt);
    if globalDataLength !in {0, TotalLength(blocks)} {
      WrongLength(Concat(blocks), globalDataLength, range, sqrt);
    }
  }

  // ----- what the result says about the data -----

  /** A difference is counted in the bin whose cell it lies in. */
  lemma BinIs(d: real, min: real, interval: real, k: nat)
    requires interval > 0.0 && min <= d <= min + 2000.0 * interval && k < PDF_INTERVALS
    ensures Bin(d, min, interval) == k <==> InCell(d, k, min, interval)
  {
    var q := (d - min) / interval;
    assert q * interval == d - min;
    AboveMultiple(q, interval, d - min, k as real, k as real * interval);
    AboveMultiple(q, interval, d - min, (k + 1) as real, (k + 1) as real * interval);
    AtTop(q, interval, d - min);
    FloorIs(q, k);
    FloorIs(q, PDF_INTERVALS);
  }

  lemma AtTop(q: real, c: real, x: real)
    requires c > 0.0 && q * c == x && x <= 2000.0 * c
    ensures q <= 2000.0 && (q == 2000.0 <==> x == 2000.0 * c)
  {
    if q > 2000.0 {
      Moments.PositiveProduct(q - 2000.0, c, (q - 2000.0) * c);
    } else if q < 2000.0 {
      Moments.PositiveProduct(2000.0 - q, c, (2000.0 - q) * c);
    }
  }

  lemma FloorIs(q: real, k: nat)
    ensures q.Floor == k <==> k as real <= q < (k + 1) as real
  {}

  lemma AboveMultiple(q: real, c: real, y: real, x: real, z: real)
    requires c > 0.0 && y == q * c && z == x * c
    ensures x <= q <==> z <= y
  {
    if x <= q {
      Moments.ProductNonneg(q - x, c);
    } else {
      Moments.PositiveProduct(x - q, c, (x - q) * c);
    }
  }

  lemma {:induction false} CountIsCell(b: Block, m: nat, k: nat, min: real, interval: real)
    requires b.Valid() && m <= b.Length() && k < PDF_INTERVALS && interval > 0.0
    requires forall i :: 0 <= i < m ==> min <= Diff(b, i) <= min + 2000.0 * interval
    ensures CountIn(b, m, k, min, interval) == |Cell(b, m, k, min, interval)|
  {
    hide Bin, InCell;
    if m == 0 {
      assert Cell(b, 0, k, min, interval) == {};
    } else {
      CountIsCell(b, m - 1, k, min, interval);
      BinIs(Diff(b, m - 1), min, interval, k);
      var c := Cell(b, m - 1, k, min, interval);
      assert Cell(b, m, k, min, interval)
          == if InCell(b.data2[m - 1] - b.data1[m - 1], k, min, interval) then c + {m - 1} else c;
      assert m - 1 !in c;
    }
  }

  lemma HistogramOver(b: Block, n: nat, range: real, sqrt: real -> real)
    requires b.Valid() && n > 0
    ensures HistogramIs(ResultOver(b, n, range, sqrt), b, n)
  {
    hide StatsOf, ProductsOf, CountIn, Cell, SumsAre, Bin, Correlation, Over, InCell;
    var r, s, m := ResultOver(b, n, range, sqrt), StatsOf(b, b.Length()), b.Length();
    StatsAre(b, m);
    ExtremeDiffs(b, m);
    IntervalTimes(s);
    if r.errInterval != 0.0 {
      forall k: nat | k < 2000
        ensures r.absErrPDF[k] * n as real == |Cell(b, m, k, r.errMinValue, r.errInterval)| as real
      {
        CountIsCell(b, m, k, s.minDiff, Interval(s));
        TimesDivisor(CountIn(b, m, k, s.minDiff, Interval(s)) as real, n as real);
      }
    }
  }

  lemma IntervalTimes(s: Stats)
    requires s.minDiff <= s.maxDiff
    ensures s.minDiff + 2000.0 * Interval(s) == s.maxDiff && Interval(s) >= 0.0
  {}

  lemma TimesDivisor(x: real, d: real)
    requires d > 0.0
    ensures x / d * d == x
  {}

  lemma OverIs(x: real, d: real)
    ensures IsOver(Over(x, d), x, d)
  {}

  lemma {:induction false} SquaresNonneg(b: Block, m: nat)
    requires b.Valid() && m <= b.Length()
    ensures Sum(Squares(b), m) >= 0.0
  {
    if m > 0 {
      SquaresNonneg(b, m - 1);
      var d := b.data2[m - 1] - b.data1[m - 1];
      Moments.SquarePositive(d, d * d);
      assert Squares(b)[m - 1] == d * d;
    }
  }

  lemma ErrorsOver(b: Block, n: nat, range: real, sqrt: real -> real)
    requires b.Valid() && n > 0 && Moments.IsSqrt(sqrt)
    ensures ErrorsAre(ResultOver(b, n, range, sqrt), b, n, range)
  {
    hide StatsOf, ProductsOf, OfflinePdf, Correlation, Over, IsOver, Interval, Moments.IsSqrt, Bounds, LeastRatio,
         GreatestRatio, Sum, Nonzero, Squares, Errors, RelErrors;
    var s, t := StatsOf(b, b.Length()), n as real;
    StatsAre(b, b.Length());
    TimesDivisor(s.sumErr, t);
    TimesDivisor(s.sumErrSqr, t);
    SquaresNonneg(b, b.Length());
    QuotientSign(s.sumErrSqr, t);
    Moments.RootOf(sqrt, s.sumErrSqr / t);
    OverIs(s.minErr, range);
    OverIs(s.maxErr, range);
    OverIs(s.sumErr / t, range);
    OverIs(s.sumErrRel, s.nRel as real);
    OverIs(sqrt(s.sumErrSqr / t), range);
  }

  lemma {:induction false} ProductsAre(b: Block, m: nat, errors: bool, v: seq<real>, p: real, q: real)
    requires b.Valid() && m <= b.Length() && |v| == b.Length()
    requires forall i :: 0 <= i < |v| ==> v[i] == Other(b, i, errors)
    ensures var r, u := ProductsOf(b, m, errors, p, q), b.data1;
            && r.prodSum == Sum(Deviations(u, p, v, q), m) && r.sum1 == Sum(Deviations(u, p, u, p), m)
            && r.sum2 == Sum(Deviations(v, q, v, q), m)
  {
    hide Deviations, Other, AddProducts;
    if m > 0 {
      ProductsAre(b, m - 1, errors, v, p, q);
      var x, y := b.data1[m - 1] - p, v[m - 1] - q;
      DeviationAt(b.data1, p, v, q, m - 1, x * y);
      DeviationAt(b.data1, p, b.data1, p, m - 1, x * x);
      DeviationAt(v, q, v, q, m - 1, y * y);
      AddProductsIs(ProductsOf(b, m - 1, errors, p, q), x, y, x * y, x * x, y * y);
    }
  }

  lemma DeviationAt(u: seq<real>, p: real, v: seq<real>, q: real, i: nat, product: real)
    requires |u| == |v| && i < |u| && product == (u[i] - p) * (v[i] - q)
    ensures Deviations(u, p, v, q)[i] == product
  {}

  lemma AddProductsIs(p: Products, x: real, y: real, xy: real, xx: real, yy: real)
    requires xy == x * y && xx == x * x && yy == y * y
    ensures AddProducts(p, x, y) == Products(p.prodSum + xy, p.sum1 + xx, p.sum2 + yy)
  {}

  /** The quotient by the two deviations has the square and the sign of a correlation coefficient. */
  lemma CoefficientIs(p: Products, n: nat, sqrt: real -> real)
    requires n > 0 && Moments.IsSqrt(sqrt) && p.sum1 >= 0.0 && p.sum2 >= 0.0
    ensures IsCoefficient(Correlation(p, n, sqrt), p.prodSum, p.sum1, p.sum2)
  {
    hide Moments.IsSqrt;
    var d := n as real;
    QuotientSign(p.sum1, d);
    QuotientSign(p.sum2, d);
    Moments.RootOf(sqrt, p.sum1 / d);
    Moments.RootOf(sqrt, p.sum2 / d);
    RootsAreZero(p.sum1 / d, p.sum2 / d, sqrt(p.sum1 / d), sqrt(p.sum2 / d));
    if p.sum1 != 0.0 && p.sum2 != 0.0 {
      CoefficientOfRoots(p.prodSum, p.sum1, p.sum2, d, sqrt(p.sum1 / d), sqrt(p.sum2 / d));
    }
  }

  lemma RootsAreZero(x: real, y: real, a: real, b: real)
    requires a >= 0.0 && b >= 0.0 && a * a == x && b * b == y
    ensures a * b == 0.0 <==> x == 0.0 || y == 0.0
    ensures (x != 0.0 ==> a > 0.0) && (y != 0.0 ==> b > 0.0)
  {
    if a > 0.0 && b > 0.0 {
      Moments.PositiveProduct(a, b, a * b);
      Moments.PositiveProduct(a, a, x);
      Moments.PositiveProduct(b, b, y);
    }
  }

  lemma CoefficientOfRoots(z: real, x: real, y: real, d: real, a: real, b: real)
    requires d > 0.0 && a > 0.0 && b > 0.0 && a * a == x / d && b * b == y / d
    ensures var c := z / d / a / b;
            c * c * (x * y) == z * z && (c > 0.0 <==> z > 0.0) && (c < 0.0 <==> z < 0.0)
  {
    var c, e := z / d / a / b, d * a * b;
    assert z / d * d == z && z / d / a * a == z / d && c * b == z / d / a;
    assert c * e == z;
    Moments.PositiveProduct(d, a, d * a);
    Moments.PositiveProduct(d * a, b, e);
    SignOfProduct(c, e, z);
    assert x == a * a * d && y == b * b * d;
    SquareOfProduct(c, a, b, d, e, z, x, y);
  }

  lemma SignOfProduct(c: real, e: real, z: real)
    requires e > 0.0 && c * e == z
    ensures (c > 0.0 <==> z > 0.0) && (c < 0.0 <==> z < 0.0)
  {
    if c > 0.0 {
      Moments.PositiveProduct(c, e, z);
    } else if c < 0.0 {
      Moments.PositiveProduct(-c, e, -z);
    }
  }

  lemma SquareOfProduct(c: real, a: real, b: real, d: real, e: real, z: real, x: real, y: real)
    requires e == d * a * b && c * e == z && x == a * a * d && y == b * b * d
    ensures c * c * (x * y) == z * z
  {
    assert x * y == e * e;
    assert z * z == (c * e) * (c * e);
  }

  lemma CorrelatesOver(b: Block, errors: bool, n: nat, sqrt: real -> real)
    requires b.Valid() && n > 0 && Moments.IsSqrt(sqrt)
    ensures var v := if errors then Diffs(b) else b.data2;
            var p, q := Sum(b.data1, b.Length()) / n as real, Sum(v, b.Length()) / n as real;
            Correlates(Correlation(ProductsOf(b, b.Length(), errors, p, q), n, sqrt), b.data1, v, n)
  {
    hide ProductsOf, Correlation, Moments.IsSqrt, Sum, Deviations, Moments.Psd, IsCoefficient;
    var v := if errors then Diffs(b) else b.data2;
    var p, q := Sum(b.data1, b.Length()) / n as real, Sum(v, b.Length()) / n as real;
    ProductsAre(b, b.Length(), errors, v, p, q);
    ProductsAreMoments(b, b.Length(), errors, p, q);
    Moments.RawCauchySchwarz(DeviationMoments(b, b.Length(), errors, p, q));
    CoefficientIs(ProductsOf(b, b.Length(), errors, p, q), n, sqrt);
  }

  /**
    Every field of the result in terms of the data: error sums, extremes and counts, the share of the differences in
    each cell of the histogram, and two correlation coefficients, when means are taken over n elements.
   */
  lemma ResultDescribes(b: Block, n: nat, range: real, sqrt: real -> real)
    requires b.Valid() && n > 0 && Moments.IsSqrt(sqrt)
    ensures Describes(ResultOver(b, n, range, sqrt), b, n, range)
  {
    hide StatsOf, ProductsOf, OfflinePdf, Correlation, Over, Interval, Moments.IsSqrt, ErrorsAre, HistogramIs,
         Correlates, Sum, ExtremesAre;
    StatsAre(b, b.Length());
    ErrorsOver(b, n, range, sqrt);
    HistogramOver(b, n, range, sqrt);
    CorrelatesOver(b, false, n, sqrt);
    CorrelatesOver(b, true, n, sqrt);
  }

  // ----- a length left over from another data set -----

  predicate Same(b: Block)
    requires b.Valid()
  {
    forall i :: 0 <= i < b.Length() ==> b.data1[i] == b.data2[i]
  }

  predicate AllAre(b: Block, c: real) {
    forall i :: 0 <= i < |b.data1| ==> b.data1[i] == c
  }

  predicate Varies(b: Block) {
    exists i, j :: 0 <= i < j < |b.data1| && b.data1[i] != b.data1[j]
  }

  /** Nothing depends on the length that is divided by. */
  predicate Unaffected(b: Block)
    requires b.Valid()
  {
    Same(b) && (Varies(b) || AllAre(b, 0.0))
  }

  lemma {:induction false} ErrorSum(b: Block, m: nat)
    requires b.Valid() && m <= b.Length()
    ensures StatsOf(b, m).sumErr >= 0.0
    ensures StatsOf(b, m).sumErr == 0.0 <==> forall i :: 0 <= i < m ==> b.data1[i] == b.data2[i]
  {
    hide Step;
    if m > 0 {
      ErrorSum(b, m - 1);
      StepErrors(StatsOf(b, m - 1), b.data1[m - 1], b.data2[m - 1]);
    }
  }

  lemma StepErrors(s: Stats, x: real, y: real)
    ensures Step(s, x, y).sumErr == s.sumErr + Abs(y - x)
    ensures Step(s, x, y).sum1 == s.sum1 + x
    ensures x == y ==> Step(s, x, y).sum2 == s.sum2 + x && Step(s, x, y).sumErrSqr == s.sumErrSqr
    ensures x == y ==> Step(s, x, y).sumDiff == s.sumDiff
  {}

  lemma {:induction false} SameStats(b: Block, m: nat)
    requires b.Valid() && m <= b.Length() && Same(b)
    ensures var s := StatsOf(b, m); s.sum1 == s.sum2 && s.sumErrSqr == s.sumDiff == 0.0
  {
    hide Step;
    if m > 0 {
      SameStats(b, m - 1);
      StepErrors(StatsOf(b, m - 1), b.data1[m - 1], b.data2[m - 1]);
    }
  }

  lemma SameInterval(b: Block)
    requires b.Valid() && Same(b)
    ensures Interval(StatsOf(b, b.Length())) == 0.0
  {
    hide StatsOf;
    DiffersOrNot(b);
  }

  lemma {:induction false} ConstantSum(b: Block, m: nat, c: real)
    requires b.Valid() && m <= b.Length() && AllAre(b, c)
    ensures StatsOf(b, m).sum1 == m as real * c
  {
    hide Step;
    if m > 0 {
      ConstantSum(b, m - 1, c);
      StepErrors(StatsOf(b, m - 1), b.data1[m - 1], b.data2[m - 1]);
      assert m as real == (m - 1) as real + 1.0;
    }
  }

  /** For equal data sets the three sums agree, and vanish exactly if every value is the assumed mean. */
  lemma {:induction false} SameProducts(b: Block, m: nat, mean: real)
    requires b.Valid() && m <= b.Length() && Same(b)
    ensures var p := ProductsOf(b, m, false, mean, mean);
            && p.prodSum == p.sum1 == p.sum2 >= 0.0
            && (p.sum1 == 0.0 <==> forall i :: 0 <= i < m ==> b.data1[i] == mean)
  {
    hide AddProducts;
    if m > 0 {
      SameProducts(b, m - 1, mean);
      AddSquare(ProductsOf(b, m - 1, false, mean, mean), b.data1[m - 1] - mean);
    }
  }

  lemma AddSquare(p: Products, u: real)
    requires p.prodSum == p.sum1 == p.sum2 >= 0.0
    ensures var r := AddProducts(p, u, u);
            r.prodSum == r.sum1 == r.sum2 >= 0.0 && (r.sum1 == 0.0 <==> p.sum1 == 0.0 && u == 0.0)
  {
    var square := u * u;
    Moments.SquarePositive(u, square);
  }

  lemma {:induction false} ErrorProducts(b: Block, m: nat, mean: real)
    requires b.Valid() && m <= b.Length() && Same(b)
    ensures ProductsOf(b, m, true, mean, 0.0).sum2 == 0.0
  {
    if m > 0 {
      ErrorProducts(b, m - 1, mean);
    }
  }

  /** Equal sums correlate perfectly unless they vanish. */
  lemma CorrelationOfEqual(p: Products, n: nat, sqrt: real -> real)
    requires n > 0 && Moments.IsSqrt(sqrt) && p.prodSum == p.sum1 == p.sum2 >= 0.0
    ensures Correlation(p, n, sqrt) == if p.sum1 == 0.0 then 0.0 else 1.0
  {
    var q := p.sum1 / n as real;
    QuotientSign(p.sum1, n as real);
    Moments.RootOf(sqrt, q);
    hide Moments.IsSqrt;
    var s := sqrt(q);
    assert s * s == q;
    if q != 0.0 {
      QuotientTwice(q, s, s, q);
    }
  }

  lemma CorrelationOfNone(p: Products, n: nat, sqrt: real -> real)
    requires n > 0 && Moments.IsSqrt(sqrt) && p.sum2 == 0.0
    ensures Correlation(p, n, sqrt) == 0.0
  {
    RootOfZero(sqrt);
  }

  lemma RootOfZero(sqrt: real -> real)
    requires Moments.IsSqrt(sqrt)
    ensures sqrt(0.0) == 0.0
  {
    Moments.RootOf(sqrt, 0.0);
    Moments.BetweenRoots(sqrt(0.0), 0.0);
  }

  lemma QuotientSign(x: real, d: real)
    requires x >= 0.0 && d > 0.0
    ensures x / d >= 0.0 && (x / d == 0.0 <==> x == 0.0)
  {
    var q := x / d;
    assert d * q == x;
    Moments.PositiveFactor(d, q);
  }

  /** The Pearson value of equal data sets over n elements: 1, or 0 when every value is the mean so computed. */
  lemma PearsonOfSame(b: Block, n: nat, sqrt: real -> real)
    requires b.Valid() && n > 0 && Moments.IsSqrt(sqrt) && Same(b)
    ensures var s := StatsOf(b, b.Length()); var mean := s.sum1 / n as real;
            Correlation(ProductsOf(b, b.Length(), false, mean, s.sum2 / n as real), n, sqrt)
            == if AllAre(b, mean) then 0.0 else 1.0
  {
    hide StatsOf, ProductsOf, Correlation, Moments.IsSqrt;
    var s := StatsOf(b, b.Length());
    SameStats(b, b.Length());
    var mean := s.sum1 / n as real;
    SameProducts(b, b.Length(), mean);
    CorrelationOfEqual(ProductsOf(b, b.Length(), false, mean, mean), n, sqrt);
  }

  /** Of equal data sets, only the Pearson value can depend on the length. */
  lemma SameOver(b: Block, n: nat, k: nat, range: real, sqrt: real -> real)
    requires b.Valid() && n > 0 && k > 0 && Moments.IsSqrt(sqrt) && Same(b)
    ensures ResultOver(b, n, range, sqrt) == ResultOver(b, k, range, sqrt)
       <==> ResultOver(b, n, range, sqrt).pearsonCorr == ResultOver(b, k, range, sqrt).pearsonCorr
  {
    hide StatsOf, ProductsOf, Correlation, Moments.IsSqrt, CountIn, Same, Over;
    var m := b.Length();
    var s := StatsOf(b, m);
    SameStats(b, m);
    SameInterval(b);
    ErrorSum(b, m);
    assert s.sumErr == 0.0 by { SameNoErrors(b); }
    ZeroQuotient(n);
    ZeroQuotient(k);
    ErrorProducts(b, m, s.sum1 / n as real);
    ErrorProducts(b, m, s.sum1 / k as real);
    CorrelationOfNone(ProductsOf(b, m, true, s.sum1 / n as real, 0.0), n, sqrt);
    CorrelationOfNone(ProductsOf(b, m, true, s.sum1 / k as real, 0.0), k, sqrt);
  }

  lemma ZeroQuotient(n: nat)
    requires n > 0
    ensures 0.0 / n as real == 0.0
  {}

  lemma SameNoErrors(b: Block)
    requires b.Valid() && Same(b)
    ensures StatsOf(b, b.Length()).sumErr == 0.0
  {
    ErrorSum(b, b.Length());
    hide StatsOf;
  }

  lemma VariesNotAll(b: Block, c: real)
    requires Varies(b)
    ensures !AllAre(b, c)
  {}

  lemma ConstantIs(b: Block, c: real)
    requires |b.data1| > 0 && !Varies(b)
    ensures AllAre(b, c) <==> b.data1[0] == c
  {}

  /** All values being their mean over the right length is being constant; over a wrong one, being zero. */
  lemma MeanOfConstant(b: Block, n: nat)
    requires b.Valid() && n > 0
    ensures var mean := StatsOf(b, b.Length()).sum1 / n as real;
            && (n == b.Length() ==> (AllAre(b, mean) <==> !Varies(b)))
            && (n != b.Length() ==> (AllAre(b, mean) <==> AllAre(b, 0.0)))
  {
    hide StatsOf, Varies, AllAre;
    var m, c := b.Length(), b.data1[0];
    var mean := StatsOf(b, m).sum1 / n as real;
    if Varies(b) {
      VariesNotAll(b, mean);
      VariesNotAll(b, 0.0);
    } else {
      ConstantIs(b, c);
      ConstantIs(b, mean);
      ConstantIs(b, 0.0);
      ConstantSum(b, m, c);
      ScaledMean(m as real, n as real, c);
    }
  }

  lemma ScaledMean(m: real, n: real, c: real)
    requires m > 0.0 && n > 0.0
    ensures m * c / n == c <==> m == n || c == 0.0
  {
    var q := m * c / n;
    assert q * n == m * c;
    assert q == c ==> c * (n - m) == 0.0;
    assert c == 0.0 ==> q * n == 0.0;
  }

  lemma WrongLength(b: Block, n: nat, range: real, sqrt: real -> real)
    requires b.Valid() && n > 0 && n != b.Length() && Moments.IsSqrt(sqrt)
    ensures ResultOver(b, n, range, sqrt) == OfflineResult(b, range, sqrt) <==> Unaffected(b)
  {
    var k := b.Length();
    if Same(b) {
      SameOver(b, n, k, range, sqrt);
      PearsonOfSame(b, n, sqrt);
      PearsonOfSame(b, k, sqrt);
      MeanOfConstant(b, n);
      MeanOfConstant(b, k);
      hide StatsOf, ProductsOf, Correlation, Moments.IsSqrt, OfflinePdf;
      assert AllAre(b, 0.0) ==> !Varies(b);
    } else {
      ErrorSum(b, k);
      hide StatsOf, ProductsOf, Correlation, Moments.IsSqrt, OfflinePdf;
      DifferentDivisors(StatsOf(b, k).sumErr, n as real, k as real);
    }
  }

  lemma DifferentDivisors(x: real, c: real, d: real)
    requires c > 0.0 && d > 0.0 && c != d
    ensures x / c == x / d <==> x == 0.0
  {
    var p, q := x / c, x / d;
    assert p * c == x && q * d == x;
    if p == q {
      assert p * (c - d) == 0.0;
    }
  }

  lemma {:induction false} PdfSum(b: Block, s: Stats, n: nat, k: nat)
    requires b.Valid() && n > 0 && Interval(s) != 0.0 && k <= PDF_INTERVALS
    ensures Sum(OfflinePdf(b, s, n), k) == TotalIn(b, b.Length(), k, s.minDiff, Interval(s)) as real / n as real
  {
    hide CountIn, Interval;
    var pdf := OfflinePdf(b, s, n);
    if k > 0 {
      var before := TotalIn(b, b.Length(), k - 1, s.minDiff, Interval(s));
      var own := CountIn(b, b.Length(), k - 1, s.minDiff, Interval(s));
      PdfSum(b, s, n, k - 1);
      assert pdf[k - 1] == own as real / n as real;
      QuotientAdd(before, own, n as real);
    }
  }

  lemma QuotientAdd(a: nat, b: nat, n: real)
    requires n > 0.0
    ensures a as real / n + b as real / n == (a + b) as real / n
  {}

  lemma QuotientSelf(x: real)
    requires x > 0.0
    ensures x / x == 1.0
  {}

  /** Every index of the histogram loop is in range, and the histogram sums to 1 unless all differences agree. */
  lemma PdfIsDistribution(b: Block)
    requires b.Valid()
    ensures var s := StatsOf(b, b.Length()); var pdf := OfflinePdf(b, s, b.Length());
            && (Interval(s) != 0.0 ==>
                  forall i :: 0 <= i < b.Length() ==> 0 <= Bin(Diff(b, i), s.minDiff, Interval(s)) < PDF_INTERVALS)
            && (Sum(pdf, |pdf|) == 1.0 <==> exists i, j :: 0 <= i < j < b.Length() && Diff(b, i) != Diff(b, j))
  {
    hide StatsOf, Bin, CountIn, TotalIn, Diff;
    var n, s := b.Length(), StatsOf(b, b.Length());
    DiffersOrNot(b);
    if Interval(s) != 0.0 {
      forall i | 0 <= i < n ensures 0 <= Bin(Diff(b, i), s.minDiff, Interval(s)) < PDF_INTERVALS {
        ExtremeDiffs(b, n);
        BinInRange(Diff(b, i), s.minDiff, s.maxDiff);
      }
      TotalIsLength(b, n, s.minDiff, Interval(s));
      PdfSum(b, s, n, PDF_INTERVALS);
      QuotientSelf(n as real);
    } else {
      assert Sum([0.0], 1) == Sum([0.0], 0) + 0.0;
    }
  }

  lemma DiffersOrNot(b: Block)
    requires b.Valid()
    ensures var s := StatsOf(b, b.Length());
            && s.minDiff <= s.maxDiff
            && (Interval(s) != 0.0 <==> exists i, j :: 0 <= i < j < b.Length() && Diff(b, i) != Diff(b, j))
  {
    hide StatsOf, Diff;
    var s := StatsOf(b, b.Length());
    ExtremeDiffs(b, b.Length());
    var i :| 0 <= i < b.Length() && s.minDiff == Diff(b, i);
    var j :| 0 <= j < b.Length() && s.maxDiff == Diff(b, j);
    assert s.minDiff <= Diff(b, i) <= s.maxDiff;
    if s.minDiff < s.maxDiff {
      var p, q := if i < j then i else j, if i < j then j else i;
      assert 0 <= p < q < b.Length() && Diff(b, p) != Diff(b, q);
    }
  }

  // ----- the code -----

  /** The loop over all elements, shared by both comparisons. */
  method LocalPass(b: Block) returns (s: Stats, diff: array<real>)
    requires b.Valid()
    ensures s == StatsOf(b, b.Length()) && SumsAre(s, b, b.Length()) && ExtremesAre(s, b, b.Length())
    ensures fresh(diff) && diff.Length == b.Length() && forall i :: 0 <= i < diff.Length ==> diff[i] == Diff(b, i)
  {
    hide AddAbsolute, AddRelative, Init, SumsAre, ExtremesAre;
    StatsAre(b, b.Length());
    diff := new real[b.Length()];
    s := Init(b.data1[0], b.data2[0]);
    for i := 0 to b.Length()
      invariant s == StatsOf(b, i)
      invariant forall j :: 0 <= j < i ==> diff[j] == Diff(b, j)
    {
      diff[i] := b.data2[i] - b.data1[i];
      s := AddAbsolute(s, b.data1[i], b.data2[i]);
      if b.data1[i] != 0.0 {
        s := AddRelative(s, diff[i] / b.data1[i]);
      }
    }
  }

  /** The histogram loop over one block's differences. */
  method CountDiffs(b: Block, diff: array<real>, min: real, interval: real) returns (pdf: array<real>)
    requires b.Valid() && interval != 0.0
    requires diff.Length == b.Length() && forall i :: 0 <= i < diff.Length ==> diff[i] == Diff(b, i)
    requires forall i :: 0 <= i < b.Length() ==> 0 <= Bin(Diff(b, i), min, interval) < PDF_INTERVALS
    ensures fresh(pdf) && pdf.Length == PDF_INTERVALS
    ensures forall k :: 0 <= k < PDF_INTERVALS ==> pdf[k] == CountIn(b, b.Length(), k, min, interval) as real
  {
    hide Bin, Diff;
    pdf := new real[PDF_INTERVALS](_ => 0.0);
    for i := 0 to b.Length()
      invariant forall k :: 0 <= k < PDF_INTERVALS ==> pdf[k] == CountIn(b, i, k, min, interval) as real
    {
      var index := Bin(diff[i], min, interval);
      pdf[index] := pdf[index] + 1.0;
    }
  }

  /** The loop that sums products of deviations over one block. */
  method SumProducts(b: Block, errors: bool, mean1: real, mean2: real) returns (p: Products)
    requires b.Valid()
    ensures p == ProductsOf(b, b.Length(), errors, mean1, mean2)
  {
    hide AddProducts;
    p := Products(0.0, 0.0, 0.0);
    for i := 0 to b.Length()
      invariant p == ProductsOf(b, i, errors, mean1, mean2)
    {
      p := AddProducts(p, b.data1[i] - mean1, Other(b, i, errors) - mean2);
    }
  }

  /** ZC_compareData_double. */
  method Compare(b: Block, range: real, sqrt: real -> real) returns (r: Result)
    requires b.Valid()
    ensures r == OfflineResult(b, range, sqrt)
    ensures Moments.IsSqrt(sqrt) ==> Describes(r, b, b.Length(), range)
  {
    hide StatsOf, ProductsOf, Finish, Bin, CountIn, Diff, Describes, Moments.IsSqrt;
    if Moments.IsSqrt(sqrt) {
      ResultDescribes(b, b.Length(), range, sqrt);
    }
    var n := b.Length();
    var s, diff := LocalPass(b);
    var mean1, mean2, avgDiff := s.sum1 / n as real, s.sum2 / n as real, s.sumDiff / n as real;
    var pdf := [0.0];
    if Interval(s) != 0.0 {
      PdfIsDistribution(b);
      var counts := CountDiffs(b, diff, s.minDiff, Interval(s));
      pdf := Normalise(counts, n);
    }
    assert pdf == OfflinePdf(b, s, n);
    var p := SumProducts(b, false, mean1, mean2);
    var e := SumProducts(b, true, mean1, avgDiff);
    r := Finish(s, n, pdf, p, e, range, sqrt);
  }

  method Normalise(counts: array<real>, n: nat) returns (pdf: seq<real>)
    requires n > 0
    modifies counts
    ensures |pdf| == counts.Length && forall k :: 0 <= k < |pdf| ==> pdf[k] == old(counts[k]) / n as real
  {
    for i := 0 to counts.Length
      invariant forall k :: 0 <= k < i ==> counts[k] == old(counts[k]) / n as real
      invariant forall k :: i <= k < counts.Length ==> counts[k] == old(counts[k])
    {
      counts[i] := counts[i] / n as real;
    }
    pdf := counts[..];
  }

  /** The process-wide state of the online comparison. */
  class Session {
    var globalDataLength: nat

    constructor ()
      ensures globalDataLength == 0
    {
      globalDataLength := 0;
    }

    /** ZC_compareData_double_online on all ranks at once; r is what rank 0 stores. */
    method CompareOnline(blocks: seq<Block>, range: real, sqrt: real -> real) returns (r: Result)
      requires ValidBlocks(blocks)
      modifies this
      ensures globalDataLength == UsedLength(blocks, old(globalDataLength)) > 0
      ensures r == OnlineResult(blocks, globalDataLength, range, sqrt)
      ensures old(globalDataLength) in {0, TotalLength(blocks)} ==>
                r == OfflineResult(Concat(blocks), range, sqrt)
      ensures Moments.IsSqrt(sqrt) ==> Describes(r, Concat(blocks), globalDataLength, range)
    {
      hide StatsOf, ReduceStats, ProductsOf, ReduceProducts, Finish, OnlinePdf, OfflinePdf, Concat, Describes,
           Moments.IsSqrt;
      TotalLengthIs(blocks);
      if globalDataLength <= 0 {
        globalDataLength := TotalLength(blocks);
      }
      var n := globalDataLength;
      var s := AllReduceStats(blocks);
      var mean1, mean2, avgDiff := s.sum1 / n as real, s.sum2 / n as real, s.sumDiff / n as real;
      var pdf := AllReducePdf(blocks, s, n);
      var p := AllReduceProducts(blocks, false, mean1, mean2);
      var e := AllReduceProducts(blocks, true, mean1, avgDiff);
      r := Finish(s, n, pdf, p, e, range, sqrt);
      OnlineIsOver(blocks, n, range, sqrt);
      if Moments.IsSqrt(sqrt) {
        ResultDescribes(Concat(blocks), n, range, sqrt);
      }
    }
  }

  lemma PrefixBlocks(blocks: seq<Block>, m: nat)
    requires ValidBlocks(blocks) && 0 < m < |blocks|
    ensures ValidBlocks(blocks[..m]) && ValidBlocks(blocks[..m + 1])
    ensures blocks[..m + 1][..m] == blocks[..m] && blocks[..m + 1][m] == blocks[m]
  {}

  method AllReduceStats(blocks: seq<Block>) returns (s: Stats)
    requires ValidBlocks(blocks)
    ensures s == ReduceStats(blocks)
  {
    hide Combine, StatsOf;
    var own, diff := LocalPass(blocks[0]);
    s := own;
    assert blocks[..1] == [blocks[0]];
    for r := 1 to |blocks|
      invariant ValidBlocks(blocks[..r]) && s == ReduceStats(blocks[..r])
    {
      own, diff := LocalPass(blocks[r]);
      PrefixBlocks(blocks, r);
      s := Combine(s, own);
    }
    assert blocks[..|blocks|] == blocks;
  }

  method AllReduceProducts(blocks: seq<Block>, errors: bool, mean1: real, mean2: real) returns (p: Products)
    requires ValidBlocks(blocks)
    ensures p == ReduceProducts(blocks, errors, mean1, mean2)
  {
    hide Plus, ProductsOf;
    p := SumProducts(blocks[0], errors, mean1, mean2);
    assert blocks[..1] == [blocks[0]];
    for r := 1 to |blocks|
      invariant ValidBlocks(blocks[..r]) && p == ReduceProducts(blocks[..r], errors, mean1, mean2)
    {
      var own := SumProducts(blocks[r], errors, mean1, mean2);
      PrefixBlocks(blocks, r);
      p := Plus(p, own);
    }
    assert blocks[..|blocks|] == blocks;
  }

  /** Every rank's differences lie between the reduced extremes, so each rank's histogram loop stays in range. */
  lemma {:induction false} RankBinsInRange(blocks: seq<Block>, s: Stats, r: nat, i: nat)
    requires ValidBlocks(blocks) && s == ReduceStats(blocks) && Interval(s) != 0.0
    requires r < |blocks| && i < blocks[r].Length()
    ensures 0 <= Bin(Diff(blocks[r], i), s.minDiff, Interval(s)) < PDF_INTERVALS
  {
    hide Bin, Diff, StatsOf, Concat;
    RankExtremes(blocks, r, i);
    ReducedStatsAreGlobal(blocks);
    DiffersOrNot(Concat(blocks));
    BinInRange(Diff(blocks[r], i), s.minDiff, s.maxDiff);
  }

  lemma {:induction false} RankExtremes(blocks: seq<Block>, r: nat, i: nat)
    requires ValidBlocks(blocks) && r < |blocks| && i < blocks[r].Length()
    ensures ReduceStats(blocks).minDiff <= Diff(blocks[r], i) <= ReduceStats(blocks).maxDiff
  {
    hide Diff, StatsOf;
    var last := blocks[|blocks| - 1];
    ExtremeDiffs(last, last.Length());
    if r < |blocks| - 1 {
      var before := blocks[..|blocks| - 1];
      assert ValidBlocks(before) && before[r] == blocks[r];
      RankExtremes(before, r, i);
    } else {
      assert blocks[r] == last;
    }
  }

  method AllReducePdf(blocks: seq<Block>, s: Stats, n: nat) returns (pdf: seq<real>)
    requires ValidBlocks(blocks) && s == ReduceStats(blocks) && n > 0
    ensures pdf == OnlinePdf(blocks, s, n)
  {
    hide Bin, Diff, StatsOf, ReduceStats, CountIn;
    if Interval(s) == 0.0 {
      return [0.0];
    }
    var total := RankCounts(blocks, s, 0);
    assert blocks[..1] == [blocks[0]];
    for r := 1 to |blocks|
      invariant fresh(total) && total.Length == PDF_INTERVALS && ValidBlocks(blocks[..r])
      invariant forall k :: 0 <= k < PDF_INTERVALS ==>
                  total[k] == ReduceCount(blocks[..r], k, s.minDiff, Interval(s)) as real
    {
      var own := RankCounts(blocks, s, r);
      PrefixBlocks(blocks, r);
      forall k | 0 <= k < PDF_INTERVALS { total[k] := total[k] + own[k]; }
    }
    assert blocks[..|blocks|] == blocks;
    pdf := Normalise(total, n);
  }

  method RankCounts(blocks: seq<Block>, s: Stats, r: nat) returns (counts: array<real>)
    requires ValidBlocks(blocks) && s == ReduceStats(blocks) && Interval(s) != 0.0 && r < |blocks|
    ensures fresh(counts) && counts.Length == PDF_INTERVALS
    ensures forall k :: 0 <= k < PDF_INTERVALS ==>
              counts[k] == CountIn(blocks[r], blocks[r].Length(), k, s.minDiff, Interval(s)) as real
  {
    hide Bin, Diff, StatsOf, ReduceStats, CountIn;
    var own, diff := LocalPass(blocks[r]);
    forall i | 0 <= i < blocks[r].Length()
      ensures 0 <= Bin(Diff(blocks[r], i), s.minDiff, Interval(s)) < PDF_INTERVALS
    {
      RankBinsInRange(blocks, s, r, i);
    }
    counts := CountDiffs(blocks[r], diff, s.minDiff, Interval(s));
  }
}
