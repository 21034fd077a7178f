/**
  One rank's step of the heat simulation in examples/heatdis.c, and the
  sequential step on the whole grid that it must agree with. Grids are
  flattened row by row; M is the row width.
 */
module HeatStep {

  import opened Arithmetic

  type Grid = seq<real>

  /** The flattened five-point average; the left and right neighbours may lie in adjacent rows. */
  function Stencil(h: Grid, M: nat, x: nat): real
    requires 0 < M <= x < |h| - M
  {
    0.25 * (h[x - M] + h[x + M] + h[x - 1] + h[x + 1])
  }

  /** The new grid: averages in the interior rows, and the last row optionally repeats the row above it. */
  function Relax(g: Grid, h: Grid, M: nat, copyLast: bool): (r: Grid)
    requires M > 0 && |h| == |g| >= 3 * M
    ensures |r| == |g|
  {
    seq(|g|, x requires 0 <= x < |g| =>
      if x < M then g[x]
      else if x < |g| - M then Stencil(h, M, x)
      else if copyLast then Stencil(h, M, x - M)
      else g[x])
  }

  /** A copy of the rank's grid with the neighbours' rows received into its halo. */
  function Halo(P: nat, rank: nat, M: nat, g: Grid, up: Grid, down: Grid): (h: Grid)
    requires rank < P && |g| >= 2 * M
    requires rank > 0 ==> |up| == M
    requires rank < P - 1 ==> |down| == M
    ensures |h| == |g|
  {
    var last := |g| - M;
    seq(|g|, x requires 0 <= x < |g| =>
      if rank > 0 && x < M then up[x]
      else if rank < P - 1 && x >= last then down[x - last]
      else g[x])
  }

  function LocalStep(P: nat, rank: nat, M: nat, g: Grid, up: Grid, down: Grid): (r: Grid)
    requires M > 0 && rank < P && |g| >= 3 * M
    requires rank > 0 ==> |up| == M
    requires rank < P - 1 ==> |down| == M
    ensures |r| == |g|
  {
    Relax(g, Halo(P, rank, M, g, up, down), M, rank == P - 1)
  }

  /** The largest |a[x] - b[x]| for lo <= x < hi, at least 0. */
  function MaxDiff(a: Grid, b: Grid, lo: nat, hi: nat): (r: real)
    requires hi <= |a| && hi <= |b|
    ensures r >= 0.0
    decreases hi
  {
    if hi <= lo then 0.0 else Max(MaxDiff(a, b, lo, hi - 1), Abs(a[hi - 1] - b[hi - 1]))
  }

  /** The sequential step on the whole grid: the reference for the distributed one. */
  function GlobalStep(g: Grid, M: nat): (r: Grid)
    requires M > 0 && |g| >= 3 * M
    ensures |r| == |g|
  {
    Relax(g, g, M, true)
  }

  function GlobalRun(g: Grid, M: nat, t: nat): (r: Grid)
    requires M > 0 && |g| >= 3 * M
    ensures |r| == |g|
  {
    if t == 0 then g else GlobalStep(GlobalRun(g, M, t - 1), M)
  }

  function GlobalError(g: Grid, M: nat): (e: real)
    requires M > 0 && |g| >= 3 * M
    ensures e >= 0.0
  {
    MaxDiff(GlobalStep(g, M), g, M, |g| - M)
  }

  /** initData, for one rank. */
  method InitData(nbLines: nat, M: nat, rank: nat, h: array<real>)
    requires nbLines > 0 && h.Length == nbLines * M
    modifies h
    ensures h[..] == InitialGrid(nbLines * M, M, rank)
    ensures forall x :: 0 <= x < h.Length ==>
              h[x] == if rank == 0 && 10 * (x + 1) > M && 10 * x < 9 * M then 100.0 else 0.0
  {
    for i := 0 to nbLines
      invariant i * M <= h.Length
      invariant forall x :: 0 <= x < i * M ==> h[x] == 0.0
    {
      BlockFits(i, nbLines, M);
      for j := 0 to M
        invariant forall x :: 0 <= x < i * M + j ==> h[x] == 0.0
      {
        h[i * M + j] := 0.0;
      }
    }
    if rank == 0 {
      BlockFits(0, nbLines, M);
      var j := (M as real * 0.1).Floor;
      while j as real < M as real * 0.9
        invariant HotStart(M) <= j
        invariant forall x :: 0 <= x < h.Length ==> h[x] == if Hot(M, x) && x < j then 100.0 else 0.0
        decreases M - j
      {
        h[j] := 100.0;
        j := j + 1;
      }
    }
    forall x | 0 <= x < h.Length ensures Hot(M, x) <==> 10 * (x + 1) > M && 10 * x < 9 * M {
      HotIs(M, x);
    }
  }

  /** The hot stretch, without fractions. */
  lemma HotIs(M: nat, x: nat)
    ensures Hot(M, x) <==> 10 * (x + 1) > M && 10 * x < 9 * M
  {
    var j := HotStart(M);
    assert j as real <= M as real * 0.1 < j as real + 1.0;
    assert 10 * j <= M < 10 * (j + 1);
  }

  function HotStart(M: nat): (j: nat)
    ensures j as real <= M as real * 0.1
  {
    (M as real * 0.1).Floor
  }

  predicate Hot(M: nat, x: nat) {
    HotStart(M) <= x && x as real < M as real * 0.9
  }

  /** All cold, except the middle of the very first row on rank 0. */
  function InitialGrid(size: nat, M: nat, rank: nat): (g: Grid)
    ensures |g| == size
  {
    seq(size, x requires 0 <= x < size => if rank == 0 && Hot(M, x) then 100.0 else 0.0)
  }

  /** doWork, with the rows that arrive from the two neighbours as parameters. */
  method DoWork(P: nat, rank: nat, M: nat, nbLines: nat, g: array<real>, h: array<real>, up: Grid, down: Grid)
    returns (localerror: real)
    requires M > 0 && nbLines >= 3 && rank < P
    requires g != h && g.Length == h.Length == nbLines * M
    requires g.Length >= 3 * M
    requires rank > 0 ==> |up| == M
    requires rank < P - 1 ==> |down| == M
    modifies g, h
    ensures g[..] == LocalStep(P, rank, M, old(g[..]), up, down)
    ensures h[..] == Halo(P, rank, M, old(g[..]), up, down)
    ensures localerror == MaxDiff(g[..], h[..], M, g.Length - M)
  {
    hide Relax, Halo, MaxDiff;
    CopyGrid(M, nbLines, g, h);
    BlockFits(nbLines - 1, nbLines, M);
    ghost var s := g[..];
    ReceiveRows(P, rank, M, (nbLines - 1) * M, h, up, down);
    ghost var halo := h[..];
    localerror := Sweep(M, nbLines, g, h);
    ghost var swept := g[..];
    if rank == P - 1 {
      RepeatLastRow(M, nbLines, g, s, halo);
      RelaxLastRow(s, halo, M);
      MaxDiffSame(swept, g[..], halo, M, g.Length - M);
    }
  }

  /** The two receives: each neighbour's row overwrites one halo row. */
  method ReceiveRows(P: nat, rank: nat, M: nat, last: nat, h: array<real>, up: Grid, down: Grid)
    requires rank < P && h.Length == last + M && M <= last
    requires rank > 0 ==> |up| == M
    requires rank < P - 1 ==> |down| == M
    modifies h
    ensures h[..] == Halo(P, rank, M, old(h[..]), up, down)
  {
    if rank > 0 {
      forall j | 0 <= j < M { h[j] := up[j]; }
    }
    if rank < P - 1 {
      forall j | 0 <= j < M { h[last + j] := down[j]; }
    }
  }

  /** The last rank copies its bottom interior row into its boundary row. */
  method RepeatLastRow(M: nat, nbLines: nat, g: array<real>, ghost s: Grid, ghost halo: Grid)
    requires M > 0 && nbLines >= 3 && g.Length == nbLines * M >= 3 * M
    requires |s| == |halo| == g.Length && g[..] == Relax(s, halo, M, false)
    modifies g
    ensures g[..] == Relax(s, halo, M, true)
  {
    hide Stencil;
    BlockFits(nbLines - 1, nbLines, M);
    BlockFits(nbLines - 2, nbLines, M);
    ghost var was := g[..];
    var last := (nbLines - 1) * M;
    for j := 0 to M
      invariant forall x :: 0 <= x < last ==> g[x] == was[x]
      invariant forall x :: last <= x < last + j ==> g[x] == was[x - M]
    {
      g[(nbLines - 1) * M + j] := g[(nbLines - 2) * M + j];
    }
  }

  lemma RelaxLastRow(s: Grid, h: Grid, M: nat)
    requires M > 0 && |h| == |s| >= 3 * M
    ensures forall x :: M <= x < |s| - M ==> Relax(s, h, M, false)[x] == Relax(s, h, M, true)[x]
  {
    hide Stencil;
  }

  method CopyGrid(M: nat, nbLines: nat, g: array<real>, h: array<real>)
    requires g != h && g.Length == h.Length == nbLines * M
    modifies h
    ensures h[..] == g[..]
  {
    for i := 0 to nbLines
      invariant i * M <= h.Length
      invariant forall x :: 0 <= x < i * M ==> h[x] == g[x]
    {
      BlockFits(i, nbLines, M);
      for j := 0 to M
        invariant forall x :: 0 <= x < i * M + j ==> h[x] == g[x]
      {
        h[i * M + j] := g[i * M + j];
      }
    }
  }

  /** The averaging loop over the interior rows, tracking the largest change. */
  method Sweep(M: nat, nbLines: nat, g: array<real>, h: array<real>) returns (localerror: real)
    requires M > 0 && nbLines >= 3
    requires g != h && g.Length == h.Length == nbLines * M
    requires g.Length >= 3 * M
    modifies g
    ensures g[..] == Relax(old(g[..]), h[..], M, false)
    ensures localerror == MaxDiff(g[..], h[..], M, g.Length - M)
  {
    hide Relax, MaxDiff;
    ghost var s := g[..];
    ghost var goal := Relax(s, h[..], M, false);
    RelaxEnds(s, h[..], M);
    localerror := 0.0;
    MaxDiffEmpty(goal, h[..], M);
    BlockFits(nbLines - 1, nbLines, M);
    for i := 1 to nbLines - 1
      invariant M <= i * M <= g.Length - M
      invariant forall x :: 0 <= x < i * M ==> g[x] == goal[x]
      invariant forall x :: i * M <= x < g.Length ==> g[x] == s[x]
      invariant localerror == MaxDiff(goal, h[..], M, i * M)
    {
      BlockFits(i, nbLines - 1, M);
      localerror := SweepRow(M, i * M, g, h, localerror, s, goal);
    }
    assert g[..] == goal;
  }

  /** One row of the averaging loop, starting at cell base. */
  method SweepRow(M: nat, base: nat, g: array<real>, h: array<real>, err: real, ghost s: Grid, ghost goal: Grid)
    returns (localerror: real)
    requires 0 < M <= base && base + 2 * M <= g.Length == h.Length && g != h
    requires g.Length >= 3 * M && |s| == g.Length && goal == Relax(s, h[..], M, false)
    requires forall x :: 0 <= x < base ==> g[x] == goal[x]
    requires forall x :: base <= x < g.Length ==> g[x] == s[x]
    requires err == MaxDiff(goal, h[..], M, base)
    modifies g
    ensures forall x :: 0 <= x < base + M ==> g[x] == goal[x]
    ensures forall x :: base + M <= x < g.Length ==> g[x] == s[x]
    ensures localerror == MaxDiff(goal, h[..], M, base + M)
  {
    hide Relax, MaxDiff, Stencil;
    localerror := err;
    for j := 0 to M
      invariant forall x :: 0 <= x < base + j ==> g[x] == goal[x]
      invariant forall x :: base + j <= x < g.Length ==> g[x] == s[x]
      invariant localerror == MaxDiff(goal, h[..], M, base + j)
    {
      g[base + j] := 0.25 * (h[base - M + j] + h[base + M + j] + h[base + j - 1] + h[base + j + 1]);
      RelaxAt(s, h[..], M, false, base + j);
      MaxDiffStep(goal, h[..], M, base + j);
      if localerror < Abs(g[base + j] - h[base + j]) {
        localerror := Abs(g[base + j] - h[base + j]);
      }
    }
  }

  lemma RelaxEnds(s: Grid, h: Grid, M: nat)
    requires M > 0 && |h| == |s| >= 3 * M
    ensures forall x :: 0 <= x < M || |s| - M <= x < |s| ==> Relax(s, h, M, false)[x] == s[x]
  {
    hide Stencil;
  }

  lemma RelaxAt(g: Grid, h: Grid, M: nat, copyLast: bool, x: nat)
    requires M > 0 && |h| == |g| >= 3 * M && M <= x < |g| - M
    ensures Relax(g, h, M, copyLast)[x] == 0.25 * (h[x - M] + h[x + M] + h[x - 1] + h[x + 1]) == Stencil(h, M, x)
  {}

  lemma MaxDiffStep(a: Grid, b: Grid, lo: nat, hi: nat)
    requires lo <= hi < |a| && hi < |b|
    ensures MaxDiff(a, b, lo, hi + 1) == Max(MaxDiff(a, b, lo, hi), Abs(a[hi] - b[hi]))
  {}

  lemma MaxDiffEmpty(a: Grid, b: Grid, lo: nat)
    requires lo <= |a| && lo <= |b|
    ensures MaxDiff(a, b, lo, lo) == 0.0
  {}

  /** MaxDiff depends only on the compared range. */
  lemma {:induction false} MaxDiffSame(a: Grid, b: Grid, c: Grid, lo: nat, hi: nat)
    requires hi <= |a| && hi <= |b| && hi <= |c|
    requires forall x :: lo <= x < hi ==> a[x] == b[x]
    ensures MaxDiff(a, c, lo, hi) == MaxDiff(b, c, lo, hi)
    decreases hi
  {
    if lo < hi {
      MaxDiffSame(a, b, c, lo, hi - 1);
    }
  }

  lemma {:induction false} MaxDiffSplit(a: Grid, b: Grid, lo: nat, mid: nat, hi: nat)
    requires lo <= mid <= hi && hi <= |a| && hi <= |b|
    ensures MaxDiff(a, b, lo, hi) == Max(MaxDiff(a, b, lo, mid), MaxDiff(a, b, mid, hi))
    decreases hi
  {
    if mid < hi {
      MaxDiffSplit(a, b, lo, mid, hi - 1);
    }
  }

  lemma {:induction false} MaxDiffBound(a: Grid, b: Grid, lo: nat, hi: nat, x: nat)
    requires hi <= |a| && hi <= |b| && lo <= x < hi
    ensures Abs(a[x] - b[x]) <= MaxDiff(a, b, lo, hi)
    decreases hi
  {
    if x < hi - 1 {
      MaxDiffBound(a, b, lo, hi - 1, x);
    }
  }

  lemma {:induction false} MaxDiffAtMost(a: Grid, b: Grid, lo: nat, hi: nat, bound: real)
    requires hi <= |a| && hi <= |b| && bound >= 0.0
    requires forall x :: lo <= x < hi ==> Abs(a[x] - b[x]) <= bound
    ensures MaxDiff(a, b, lo, hi) <= bound
    decreases hi
  {
    if lo < hi {
      MaxDiffAtMost(a, b, lo, hi - 1, bound);
    }
  }

  ghost predicate Within(g: Grid, lo: real, hi: real) {
    forall x :: 0 <= x < |g| ==> lo <= g[x] <= hi
  }

  /** Averages stay between the extremes, so a step never leaves an interval that holds the grid. */
  lemma {:induction false} RunStaysWithin(g: Grid, M: nat, t: nat, lo: real, hi: real)
    requires M > 0 && |g| >= 3 * M && Within(g, lo, hi)
    ensures Within(GlobalRun(g, M, t), lo, hi)
  {
    if t > 0 {
      RunStaysWithin(g, M, t - 1, lo, hi);
    }
  }

  /** Every grid of a run started by initData has all its values in [0, 100]. */
  lemma TemperatureRange(size: nat, M: nat, t: nat)
    requires M > 0 && size >= 3 * M
    ensures Within(GlobalRun(InitialGrid(size, M, 0), M, t), 0.0, 100.0)
  {
    RunStaysWithin(InitialGrid(size, M, 0), M, t, 0.0, 100.0);
  }

  /** The last row repeats the row above it. */
  ghost predicate LastRowRepeats(g: Grid, M: nat) {
    |g| >= 3 * M && forall x :: |g| - M <= x < |g| ==> g[x] == g[x - M]
  }

  lemma StencilChange(a: Grid, b: Grid, M: nat, x: nat, e: real)
    requires 0 < M <= x < |a| - M && |a| == |b|
    requires forall y :: 0 <= y < |a| ==> Abs(a[y] - b[y]) <= e
    ensures Abs(Stencil(a, M, x) - Stencil(b, M, x)) <= e
  {
    assert Abs(a[x - M] - b[x - M]) <= e && Abs(a[x + M] - b[x + M]) <= e;
    assert Abs(a[x - 1] - b[x - 1]) <= e && Abs(a[x + 1] - b[x + 1]) <= e;
  }

  /** No cell changes by more than the error, boundary rows included. */
  lemma ErrorBoundsAll(g: Grid, M: nat, y: nat)
    requires M > 0 && LastRowRepeats(g, M) && y < |g|
    ensures Abs(GlobalStep(g, M)[y] - g[y]) <= GlobalError(g, M)
  {
    hide MaxDiff, Stencil;
    var n := GlobalStep(g, M);
    if M <= y < |g| - M {
      MaxDiffBound(n, g, M, |g| - M, y);
    } else if y >= |g| - M {
      MaxDiffBound(n, g, M, |g| - M, y - M);
    }
  }

  /** A change of at most the error everywhere becomes such a change again after one more step. */
  lemma ChangeShrinks(g: Grid, M: nat, x: nat)
    requires M > 0 && LastRowRepeats(g, M) && M <= x < |g| - M
    ensures var n := GlobalStep(g, M);
            Abs(GlobalStep(n, M)[x] - n[x]) <= GlobalError(g, M)
  {
    hide MaxDiff, Stencil, GlobalError;
    var n, e := GlobalStep(g, M), GlobalError(g, M);
    forall y | 0 <= y < |g| ensures Abs(n[y] - g[y]) <= e {
      ErrorBoundsAll(g, M, y);
    }
    StencilChange(n, g, M, x, e);
  }

  lemma RunRepeatsLastRow(size: nat, M: nat, t: nat)
    requires M > 0 && size >= 3 * M
    ensures LastRowRepeats(GlobalRun(InitialGrid(size, M, 0), M, t), M)
  {
    hide Stencil;
  }

  /** The error that drives termination never grows from one step to the next. */
  lemma ErrorNeverGrows(size: nat, M: nat, t: nat)
    requires M > 0 && size >= 3 * M
    ensures var init := InitialGrid(size, M, 0);
            GlobalError(GlobalRun(init, M, t + 1), M) <= GlobalError(GlobalRun(init, M, t), M)
  {
    hide Stencil, Relax, MaxDiff, GlobalStep, InitialGrid, LastRowRepeats;
    var g := GlobalRun(InitialGrid(size, M, 0), M, t);
    var n := GlobalStep(g, M);
    RunRepeatsLastRow(size, M, t);
    forall x | M <= x < |g| - M ensures Abs(GlobalStep(n, M)[x] - n[x]) <= GlobalError(g, M) {
      ChangeShrinks(g, M, x);
    }
    MaxDiffAtMost(GlobalStep(n, M), n, M, |g| - M, GlobalError(g, M));
  }
}
