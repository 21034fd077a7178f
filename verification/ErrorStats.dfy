/**
  The error statistics of zc/src/ZC_CompareData_double.cpp: one pass over a
  block of original and decompressed values, and the reductions over ranks.
 */
module ErrorStats {
  import opened Arithmetic

  /** Original and decompressed values of one rank, or of the whole data set. */
  datatype Block = Block(data1: seq<real>, data2: seq<real>) {
    ghost predicate Valid() { |data1| == |data2| > 0 }

    function Length(): nat { |data1| }
  }

  /** 1E100, where the running minimum of relative differences starts. */
  const HUGE: real :=
    10000000000000000000000000000000000000000000000000000000000000000000000000000000000000000000000000000.0

  /** The quantities that one pass accumulates; the Rel ones skip zero originals. */
  datatype Stats = Stats(
    sum1: real, sum2: real, sumErr: real, sumErrSqr: real, sumErrRel: real, sumDiff: real,
    maxErr: real, maxDiff: real, maxErrRel: real, maxDiffRel: real,
    minErr: real, minDiff: real, minErrRel: real, minDiffRel: real,
    nRel: nat)

  function Init(x: real, y: real): Stats {
    var d := y - x;
    Stats(0.0, 0.0, 0.0, 0.0, 0.0, 0.0, Abs(d), d, 0.0, -HUGE, Abs(d), d, HUGE, HUGE, 0)
  }

  function AddAbsolute(s: Stats, x: real, y: real): Stats {
    var d := y - x;
    var err := Abs(d);
    s.(sum1 := s.sum1 + x, sum2 := s.sum2 + y, sumDiff := s.sumDiff + d,
       minDiff := Min(s.minDiff, d), maxDiff := Max(s.maxDiff, d),
       minErr := Min(s.minErr, err), maxErr := Max(s.maxErr, err),
       sumErr := s.sumErr + err, sumErrSqr := s.sumErrSqr + err * err)
  }

  function AddRelative(s: Stats, rel: real): Stats {
    var err := Abs(rel);
    s.(nRel := s.nRel + 1,
       minDiffRel := Min(s.minDiffRel, rel), maxDiffRel := Max(s.maxDiffRel, rel),
       minErrRel := Min(s.minErrRel, err), maxErrRel := Max(s.maxErrRel, err),
       sumErrRel := s.sumErrRel + err)
  }

  function Step(s: Stats, x: real, y: real): Stats {
    var t := AddAbsolute(s, x, y);
    if x != 0.0 then AddRelative(t, (y - x) / x) else t
  }

  /** The statistics of the first m elements. */
  function StatsOf(b: Block, m: nat): Stats
    requires b.Valid() && m <= b.Length()
  {
    if m == 0 then Init(b.data1[0], b.data2[0])
    else Step(StatsOf(b, m - 1), b.data1[m - 1], b.data2[m - 1])
  }

  /** The element-wise MPI_SUM, MPI_MAX and MPI_MIN of two ranks' buffers. */
  function Combine(a: Stats, b: Stats): Stats {
    Stats(a.sum1 + b.sum1, a.sum2 + b.sum2, a.sumErr + b.sumErr, a.sumErrSqr + b.sumErrSqr,
          a.sumErrRel + b.sumErrRel, a.sumDiff + b.sumDiff,
          Max(a.maxErr, b.maxErr), Max(a.maxDiff, b.maxDiff),
          Max(a.maxErrRel, b.maxErrRel), Max(a.maxDiffRel, b.maxDiffRel),
          Min(a.minErr, b.minErr), Min(a.minDiff, b.minDiff),
          Min(a.minErrRel, b.minErrRel), Min(a.minDiffRel, b.minDiffRel),
          a.nRel + b.nRel)
  }

  // ----- ranks and their concatenation -----

  ghost predicate ValidBlocks(blocks: seq<Block>) {
    blocks != [] && forall r :: 0 <= r < |blocks| ==> blocks[r].Valid()
  }

  function Join(a: Block, b: Block): Block {
    Block(a.data1 + b.data1, a.data2 + b.data2)
  }

  /** The data set whose consecutive parts the ranks hold. */
  function Concat(blocks: seq<Block>): (b: Block)
    requires ValidBlocks(blocks)
    ensures b.Valid()
  {
    if |blocks| == 1 then blocks[0]
    else
      assert ValidBlocks(blocks[..|blocks| - 1]);
      Join(Concat(blocks[..|blocks| - 1]), blocks[|blocks| - 1])
  }

  function ReduceStats(blocks: seq<Block>): Stats
    requires ValidBlocks(blocks)
  {
    var last := blocks[|blocks| - 1];
    var own := StatsOf(last, last.Length());
    if |blocks| == 1 then own
    else
      assert ValidBlocks(blocks[..|blocks| - 1]);
      Combine(ReduceStats(blocks[..|blocks| - 1]), own)
  }

  lemma CombineStep(a: Stats, s: Stats, x: real, y: real)
    ensures Combine(a, Step(s, x, y)) == Step(Combine(a, s), x, y)
  {
    CombineAbsolute(a, s, x, y);
    if x != 0.0 {
      CombineRelative(a, AddAbsolute(s, x, y), (y - x) / x);
    }
    hide AddAbsolute, AddRelative, Combine;
  }

  lemma CombineAbsolute(a: Stats, s: Stats, x: real, y: real)
    ensures Combine(a, AddAbsolute(s, x, y)) == AddAbsolute(Combine(a, s), x, y)
  {}

  lemma CombineRelative(a: Stats, s: Stats, rel: real)
    ensures Combine(a, AddRelative(s, rel)) == AddRelative(Combine(a, s), rel)
  {}

  /** A block whose statistics already cover its first element is not changed by starting from it. */
  lemma CombineInit(a: Stats, x: real, y: real)
    requires a.maxErrRel >= 0.0 && a.maxDiffRel >= -HUGE && a.minErrRel <= HUGE && a.minDiffRel <= HUGE
    ensures Combine(a, Step(Init(x, y), x, y)) == Step(a, x, y)
  {}

  lemma {:induction false} Sentinels(b: Block, m: nat)
    requires b.Valid() && m <= b.Length()
    ensures var s := StatsOf(b, m);
            s.maxErrRel >= 0.0 && s.maxDiffRel >= -HUGE && s.minErrRel <= HUGE && s.minDiffRel <= HUGE
  {
    if m > 0 {
      Sentinels(b, m - 1);
    }
  }

  /** Statistics of a joined block up to m elements of its second part. */
  lemma {:induction false} JoinStats(a: Block, b: Block, m: nat)
    requires a.Valid() && b.Valid() && 0 < m <= b.Length()
    ensures StatsOf(Join(a, b), a.Length() + m) == Combine(StatsOf(a, a.Length()), StatsOf(b, m))
  {
    hide Step, Combine, Init;
    var x, y := b.data1[m - 1], b.data2[m - 1];
    if m == 1 {
      PrefixStats(a, b, a.Length());
      Sentinels(a, a.Length());
      CombineInit(StatsOf(a, a.Length()), x, y);
      assert StatsOf(b, 1) == Step(StatsOf(b, 0), x, y);
    } else {
      JoinStats(a, b, m - 1);
      CombineStep(StatsOf(a, a.Length()), StatsOf(b, m - 1), x, y);
    }
  }

  lemma {:induction false} PrefixStats(a: Block, b: Block, m: nat)
    requires a.Valid() && b.Valid() && m <= a.Length()
    ensures StatsOf(Join(a, b), m) == StatsOf(a, m)
  {
    hide Step, Init;
    if m > 0 {
      PrefixStats(a, b, m - 1);
    }
  }

  /** The reduced statistics of the ranks are the statistics of the whole data set. */
  lemma {:induction false} ReducedStatsAreGlobal(blocks: seq<Block>)
    requires ValidBlocks(blocks)
    ensures ReduceStats(blocks) == StatsOf(Concat(blocks), Concat(blocks).Length())
  {
    hide Combine;
    var n := |blocks|;
    if n > 1 {
      var before := blocks[..n - 1];
      assert ValidBlocks(before);
      ReducedStatsAreGlobal(before);
      JoinStats(Concat(before), blocks[n - 1], blocks[n - 1].Length());
    }
  }
}
