/**
  The distributed heat simulation of examples/heatdis.c as a network of ranks
  that exchange rows through FIFO channels and run at their own pace. Every
  interleaving computes exactly what one sequential process would.
 */
module HeatRanks {

  import opened Arithmetic
  import opened HeatStep
  import opened Options

  /** P ranks, rows of width M, and B interior cells per rank (a whole number of rows). */
  datatype Config = Config(P: nat, M: nat, B: nat) {
    ghost predicate Valid() { P > 0 && 0 < M <= B }

    function LocalSize(): nat { B + 2 * M }

    /** Where rank r's window starts in the whole grid. */
    function Off(r: nat): nat { r * B }

    function GlobalSize(): nat { Off(P) + 2 * M }

    /** The sequential process's grid after t steps. */
    function Global(t: nat): (g: Grid)
      requires Valid()
      ensures |g| == GlobalSize()
    {
      SizeBound(this);
      GlobalRun(InitialGrid(GlobalSize(), M, 0), M, t)
    }
  }

  lemma SizeBound(c: Config)
    requires c.Valid()
    ensures c.GlobalSize() >= 3 * c.M
  {
    NatProduct(c.P, c.B);
  }

  /** The windows follow each other and end with the whole grid. */
  lemma Windows(c: Config, r: nat)
    requires r < c.P
    ensures c.Off(r) + c.B == c.Off(r + 1) && c.Off(r) + c.LocalSize() <= c.GlobalSize()
    ensures r == 0 ==> c.Off(r) == 0
    ensures r > 0 ==> c.Off(r - 1) + c.B == c.Off(r)
    ensures r == c.P - 1 ==> c.Off(r) + c.LocalSize() == c.GlobalSize()
  {
    BlockFits(r, c.P, c.B);
    if r > 0 {
      BlockFits(r - 1, c.P, c.B);
    }
    assert r == 0 ==> c.Off(r) == 0;
  }

  /** Rank r's buffer holds its part of the whole grid; only its halo rows may be stale. */
  ghost predicate Agrees(c: Config, r: nat, g: Grid, whole: Grid)
    requires c.Valid() && r < c.P && |whole| == c.GlobalSize()
  {
    Windows(c, r);
    && |g| == c.LocalSize()
    && (forall x :: 0 <= x < |g| && (x < c.M ==> r == 0) && (x >= c.M + c.B ==> r == c.P - 1)
          ==> g[x] == whole[c.Off(r) + x])
  }

  /** The row rank r sends to rank r-1: its first interior row. */
  function FirstRow(c: Config, r: nat, whole: Grid): (row: Grid)
    requires c.Valid() && r < c.P && |whole| == c.GlobalSize()
    ensures |row| == c.M
  {
    Windows(c, r);
    whole[c.Off(r) + c.M..c.Off(r) + 2 * c.M]
  }

  /** The row rank r sends to rank r+1: its last interior row. */
  function LastRow(c: Config, r: nat, whole: Grid): (row: Grid)
    requires c.Valid() && r < c.P && |whole| == c.GlobalSize()
    ensures |row| == c.M
  {
    Windows(c, r);
    whole[c.Off(r) + c.B..c.Off(r) + c.B + c.M]
  }

  lemma InteriorCells(c: Config, r: nat, g: Grid, whole: Grid)
    requires c.Valid() && r < c.P && |whole| == c.GlobalSize() && Agrees(c, r, g, whole)
    ensures |g| == c.LocalSize() && c.Off(r) + c.LocalSize() <= |whole|
    ensures forall x :: c.M <= x < c.M + c.B ==> g[x] == whole[c.Off(r) + x]
  {
    hide Config.Off;
    Windows(c, r);
  }

  lemma SentRows(c: Config, r: nat, g: Grid, whole: Grid)
    requires c.Valid() && r < c.P && |whole| == c.GlobalSize() && Agrees(c, r, g, whole)
    ensures g[c.M..2 * c.M] == FirstRow(c, r, whole)
    ensures g[c.B..c.B + c.M] == LastRow(c, r, whole)
  {
    hide Config.Off, Agrees;
    InteriorCells(c, r, g, whole);
    var off := c.Off(r);
    SameRow(g, whole, off, c.M, c.M);
    SameRow(g, whole, off, c.B, c.M);
  }

  lemma SameRow(g: Grid, whole: Grid, off: nat, at: nat, n: nat)
    requires at + n <= |g| && off + at + n <= |whole|
    requires forall x :: at <= x < at + n ==> g[x] == whole[off + x]
    ensures g[at..at + n] == whole[off + at..off + at + n]
  {}

  /** The rows that reach rank r are the ones its neighbours hold in the whole grid. */
  ghost predicate RightRows(c: Config, r: nat, up: Grid, down: Grid, whole: Grid)
    requires c.Valid() && r < c.P && |whole| == c.GlobalSize()
  {
    && (r > 0 ==> up == LastRow(c, r - 1, whole))
    && (r < c.P - 1 ==> down == FirstRow(c, r + 1, whole))
  }

  /** h is the window of the whole grid that starts at off. */
  ghost predicate Window(h: Grid, whole: Grid, off: nat) {
    && off + |h| <= |whole|
    && forall x :: 0 <= x < |h| ==> h[x] == whole[off + x]
  }

  /** With the right rows received, the halo copy is a window of the whole grid. */
  lemma HaloIsWindow(c: Config, r: nat, g: Grid, up: Grid, down: Grid, whole: Grid)
    requires c.Valid() && r < c.P && |whole| == c.GlobalSize()
    requires Agrees(c, r, g, whole) && RightRows(c, r, up, down, whole)
    ensures Window(Halo(c.P, r, c.M, g, up, down), whole, c.Off(r))
  {
    hide Config.Off;
    Windows(c, r);
    if r < c.P - 1 {
      Windows(c, r + 1);
    }
    var off, last := c.Off(r), |g| - c.M;
    assert forall x :: 0 <= x < c.M && r > 0 ==> up[x] == whole[off + x];
    assert forall x :: 0 <= x < c.M && r < c.P - 1 ==> down[x] == whole[off + last + x];
    hide FirstRow, LastRow;
    forall x | 0 <= x < |g| ensures Halo(c.P, r, c.M, g, up, down)[x] == whole[off + x] {
      if r < c.P - 1 && x >= last {
        assert down[x - last] == whole[off + last + (x - last)];
      }
    }
  }

  /** Relaxing a window gives the window of the relaxed whole, up to the ends the window does not know. */
  lemma RelaxWindow(g: Grid, h: Grid, whole: Grid, M: nat, off: nat, copyLast: bool)
    requires 0 < M && |g| == |h| >= 3 * M && Window(h, whole, off)
    requires copyLast ==> off + |h| == |whole|
    ensures var l, n := Relax(g, h, M, copyLast), GlobalStep(whole, M);
            && (forall x :: M <= x < |g| - M || (copyLast && |g| - M <= x < |g|) ==> l[x] == n[off + x])
            && (forall x :: 0 <= x < M ==> l[x] == g[x])
            && (forall x :: 0 <= x < M ==> n[x] == whole[x])
  {
    var l, n := Relax(g, h, M, copyLast), GlobalStep(whole, M);
    forall x | M <= x < |g| - M ensures Stencil(h, M, x) == Stencil(whole, M, off + x) {
      WindowStencil(h, whole, M, off, x);
    }
    hide Stencil;
    forall x | M <= x < |g| - M || (copyLast && |g| - M <= x < |g|) ensures l[x] == n[off + x] {}
  }

  /** One local step keeps a rank in agreement with one sequential step. */
  lemma LocalStepAgrees(c: Config, r: nat, g: Grid, up: Grid, down: Grid, whole: Grid)
    requires c.Valid() && r < c.P && |whole| == c.GlobalSize() >= 3 * c.M
    requires Agrees(c, r, g, whole) && RightRows(c, r, up, down, whole)
    ensures Agrees(c, r, LocalStep(c.P, r, c.M, g, up, down), GlobalStep(whole, c.M))
  {
    hide Relax, GlobalStep, FirstRow, LastRow, Config.Off;
    HaloIsWindow(c, r, g, up, down, whole);
    Windows(c, r);
    RelaxWindow(g, Halo(c.P, r, c.M, g, up, down), whole, c.M, c.Off(r), r == c.P - 1);
    hide Halo;
  }

  /** A rank's local error is its share of the sequential step's error. */
  lemma LocalErrorShare(c: Config, r: nat, g: Grid, up: Grid, down: Grid, whole: Grid)
    requires c.Valid() && r < c.P && |whole| == c.GlobalSize() >= 3 * c.M
    requires Agrees(c, r, g, whole) && RightRows(c, r, up, down, whole)
    ensures c.Off(r) + c.B + c.M <= c.GlobalSize()
    ensures LocalError(c, r, g, up, down)
         == MaxDiff(GlobalStep(whole, c.M), whole, c.Off(r) + c.M, c.Off(r) + c.M + c.B)
  {
    hide Halo, LocalStep, GlobalStep, Config.Off, FirstRow, LastRow, MaxDiff, Agrees;
    LocalStepAgrees(c, r, g, up, down, whole);
    HaloIsWindow(c, r, g, up, down, whole);
    AgreesSize(c, r, g, whole);
    var l, h, n := LocalStep(c.P, r, c.M, g, up, down), Halo(c.P, r, c.M, g, up, down), GlobalStep(whole, c.M);
    InteriorCells(c, r, l, n);
    var off, lo, hi := c.Off(r), c.M, c.M + c.B;
    assert forall x :: lo <= x < hi ==> h[x] == whole[off + x];
    MaxDiffShift(l, h, n, whole, off, lo, hi);
  }

  lemma AgreesSize(c: Config, r: nat, g: Grid, whole: Grid)
    requires c.Valid() && r < c.P && |whole| == c.GlobalSize() && Agrees(c, r, g, whole)
    ensures |g| == c.LocalSize()
  {}

  function LocalError(c: Config, r: nat, g: Grid, up: Grid, down: Grid): real
    requires c.Valid() && r < c.P && |g| == c.LocalSize()
    requires r > 0 ==> |up| == c.M
    requires r < c.P - 1 ==> |down| == c.M
  {
    MaxDiff(LocalStep(c.P, r, c.M, g, up, down), Halo(c.P, r, c.M, g, up, down), c.M, |g| - c.M)
  }

  lemma WindowStencil(h: Grid, whole: Grid, M: nat, off: nat, x: nat)
    requires Window(h, whole, off)
    requires 0 < M <= x < |h| - M
    ensures Stencil(h, M, x) == Stencil(whole, M, off + x)
  {}

  lemma {:induction false} MaxDiffShift(a: Grid, b: Grid, a': Grid, b': Grid, off: nat, lo: nat, hi: nat)
    requires hi <= |a| && hi <= |b| && off + hi <= |a'| && off + hi <= |b'|
    requires forall x :: lo <= x < hi ==> a[x] == a'[off + x]
    requires forall x :: lo <= x < hi ==> b[x] == b'[off + x]
    ensures MaxDiff(a, b, lo, hi) == MaxDiff(a', b', off + lo, off + hi)
    decreases hi
  {
    if lo < hi {
      MaxDiffShift(a, b, a', b', off, lo, hi - 1);
    }
  }

  // ----- the network -----

  /** A rank: its grid, how many steps it has finished, whether it has posted this step's rows,
      and the error of its last step. */
  datatype Rank = Rank(g: Grid, iter: nat, posted: bool, err: real) {
    function Posts(): nat { if posted then iter + 1 else iter }
  }

  /** upward[r] is the channel from rank r to rank r-1, downward[r] the one from r to r+1. */
  datatype Net = Net(ranks: seq<Rank>, upward: seq<seq<Grid>>, downward: seq<seq<Grid>>)

  datatype Event = Post(r: nat) | Work(r: nat)

  predicate Shaped(c: Config, n: Net) {
    && |n.ranks| == |n.upward| == |n.downward| == c.P
    && forall r :: 0 <= r < c.P ==> |n.ranks[r].g| == c.LocalSize()
  }

  predicate Enabled(c: Config, n: Net, e: Event)
    requires c.Valid()
  {
    && Shaped(c, n) && e.r < c.P
    && match e
       case Post(r) => !n.ranks[r].posted
       case Work(r) =>
         && n.ranks[r].posted
         && (r > 0 ==> n.downward[r - 1] != [] && |n.downward[r - 1][0]| == c.M)
         && (r < c.P - 1 ==> n.upward[r + 1] != [] && |n.upward[r + 1][0]| == c.M)
  }

  function Next(c: Config, n: Net, e: Event): (n': Net)
    requires c.Valid() && Enabled(c, n, e)
    ensures Shaped(c, n')
  {
    var r := e.r;
    var k := n.ranks[r];
    match e
    case Post(_) =>
      Net(n.ranks[r := k.(posted := true)],
          if r > 0 then n.upward[r := n.upward[r] + [k.g[c.M..2 * c.M]]] else n.upward,
          if r < c.P - 1 then n.downward[r := n.downward[r] + [k.g[c.B..c.B + c.M]]] else n.downward)
    case Work(_) =>
      var up := if r > 0 then n.downward[r - 1][0] else [];
      var down := if r < c.P - 1 then n.upward[r + 1][0] else [];
      Net(n.ranks[r := Rank(LocalStep(c.P, r, c.M, k.g, up, down), k.iter + 1, false,
                            LocalError(c, r, k.g, up, down))],
          if r < c.P - 1 then n.upward[r + 1 := n.upward[r + 1][1..]] else n.upward,
          if r > 0 then n.downward[r - 1 := n.downward[r - 1][1..]] else n.downward)
  }

  function Start(c: Config): Net {
    Net(seq(c.P, r requires 0 <= r < c.P => Rank(InitialGrid(c.LocalSize(), c.M, r), 0, false, 0.0)),
        seq(c.P, _ => []), seq(c.P, _ => []))
  }

  /** The state after the given events, or None if the network does not allow them in this order. */
  function Exec(c: Config, trace: seq<Event>): (n: Option<Net>)
    requires c.Valid()
    ensures n.Some? ==> Shaped(c, n.value)
  {
    if trace == [] then Some(Start(c))
    else
      match Exec(c, trace[..|trace| - 1])
      case None => None
      case Some(m) =>
        var e := trace[|trace| - 1];
        if Enabled(c, m, e) then Some(Next(c, m, e)) else None
  }

  /** Rank r is where the sequential process was after as many steps, and its last error is its share. */
  ghost predicate RankOk(c: Config, r: nat, k: Rank)
    requires c.Valid() && r < c.P
  {
    Windows(c, r);
    && Agrees(c, r, k.g, c.Global(k.iter))
    && (k.iter > 0 ==>
          k.err == MaxDiff(c.Global(k.iter), c.Global(k.iter - 1), c.Off(r) + c.M, c.Off(r) + c.M + c.B))
  }

  /** The channel from r to r-1 holds the rows posted and not yet consumed, oldest first. */
  ghost predicate UpwardOk(c: Config, r: nat, n: Net)
    requires c.Valid() && Shaped(c, n) && 0 < r < c.P
  {
    var q, seen := n.upward[r], n.ranks[r - 1].iter;
    && seen + |q| == n.ranks[r].Posts()
    && forall i :: 0 <= i < |q| ==> q[i] == FirstRow(c, r, c.Global(seen + i))
  }

  ghost predicate DownwardOk(c: Config, r: nat, n: Net)
    requires c.Valid() && Shaped(c, n) && r + 1 < c.P
  {
    var q, seen := n.downward[r], n.ranks[r + 1].iter;
    && seen + |q| == n.ranks[r].Posts()
    && forall i :: 0 <= i < |q| ==> q[i] == LastRow(c, r, c.Global(seen + i))
  }

  ghost predicate Inv(c: Config, n: Net)
    requires c.Valid()
  {
    && Shaped(c, n)
    && (forall r :: 0 <= r < c.P ==> RankOk(c, r, n.ranks[r]))
    && (forall r :: 0 < r < c.P ==> UpwardOk(c, r, n))
    && (forall r :: 0 <= r < c.P - 1 ==> DownwardOk(c, r, n))
  }

  lemma StartOk(c: Config)
    requires c.Valid()
    ensures Inv(c, Start(c))
  {
    forall r | 0 <= r < c.P ensures RankOk(c, r, Start(c).ranks[r]) {
      Windows(c, r);
      StartAgrees(c, r);
    }
  }

  lemma StartAgrees(c: Config, r: nat)
    requires c.Valid() && r < c.P
    ensures Agrees(c, r, InitialGrid(c.LocalSize(), c.M, r), c.Global(0))
  {
    SizeBound(c);
    Windows(c, r);
  }

  lemma PostKeepsInv(c: Config, n: Net, r: nat)
    requires c.Valid() && Inv(c, n) && Enabled(c, n, Post(r))
    ensures Inv(c, Next(c, n, Post(r)))
  {
    hide LocalStep, LocalError, Agrees, FirstRow, LastRow, Config.Global;
    var n', k := Next(c, n, Post(r)), n.ranks[r];
    assert RankOk(c, r, k);
    SentRows(c, r, k.g, c.Global(k.iter));
    forall j | 0 <= j < c.P ensures RankOk(c, j, n'.ranks[j]) {
      assert RankOk(c, j, n.ranks[j]);
    }
    forall j | 0 < j < c.P ensures UpwardOk(c, j, n') {
      assert UpwardOk(c, j, n);
    }
    forall j | 0 <= j < c.P - 1 ensures DownwardOk(c, j, n') {
      assert DownwardOk(c, j, n);
    }
  }

  lemma WorkKeepsInv(c: Config, n: Net, r: nat)
    requires c.Valid() && Inv(c, n) && Enabled(c, n, Work(r))
    ensures Inv(c, Next(c, n, Work(r)))
  {
    hide LocalStep, LocalError, Agrees, FirstRow, LastRow, Config.Global;
    var n', k := Next(c, n, Work(r)), n.ranks[r];
    forall j | 0 <= j < c.P ensures RankOk(c, j, n'.ranks[j]) {
      assert RankOk(c, j, n.ranks[j]);
      if j == r {
        WorkKeepsRank(c, n, r);
      }
    }
    forall j | 0 < j < c.P ensures UpwardOk(c, j, n') {
      assert UpwardOk(c, j, n);
      assert forall i :: 0 <= i < |n'.upward[j]| ==> n'.upward[j][i] in n.upward[j];
    }
    forall j | 0 <= j < c.P - 1 ensures DownwardOk(c, j, n') {
      assert DownwardOk(c, j, n);
    }
  }

  lemma WorkKeepsRank(c: Config, n: Net, r: nat)
    requires c.Valid() && Inv(c, n) && Enabled(c, n, Work(r))
    ensures RankOk(c, r, Next(c, n, Work(r)).ranks[r])
  {
    hide LocalStep, LocalError, Agrees, FirstRow, LastRow, Config.Off, Config.Global, GlobalStep, MaxDiff;
    var k := n.ranks[r];
    var up := if r > 0 then n.downward[r - 1][0] else [];
    var down := if r < c.P - 1 then n.upward[r + 1][0] else [];
    ArrivedRows(c, n, r, up, down);
    WorkedRankOk(c, r, k, up, down);
  }

  /** The rows at the heads of rank r's incoming channels belong to the step it is about to take. */
  lemma ArrivedRows(c: Config, n: Net, r: nat, up: Grid, down: Grid)
    requires c.Valid() && Inv(c, n) && Enabled(c, n, Work(r))
    requires r > 0 ==> up == n.downward[r - 1][0]
    requires r < c.P - 1 ==> down == n.upward[r + 1][0]
    ensures RightRows(c, r, up, down, c.Global(n.ranks[r].iter))
  {
    hide LocalStep, LocalError, Agrees, FirstRow, LastRow, Config.Off, Config.Global;
    assert r > 0 ==> DownwardOk(c, r - 1, n);
    assert r < c.P - 1 ==> UpwardOk(c, r + 1, n);
  }

  lemma WorkedRankOk(c: Config, r: nat, k: Rank, up: Grid, down: Grid)
    requires c.Valid() && r < c.P && RankOk(c, r, k)
    requires RightRows(c, r, up, down, c.Global(k.iter))
    ensures RankOk(c, r, Rank(LocalStep(c.P, r, c.M, k.g, up, down), k.iter + 1, false,
                              LocalError(c, r, k.g, up, down)))
  {
    hide LocalStep, LocalError, Agrees, RightRows, Config.Off, MaxDiff, GlobalStep;
    var whole := c.Global(k.iter);
    SizeBound(c);
    LocalStepAgrees(c, r, k.g, up, down, whole);
    LocalErrorShare(c, r, k.g, up, down, whole);
    assert c.Global(k.iter + 1) == GlobalStep(whole, c.M);
  }

  /** Every reachable state, under every interleaving of the ranks. */
  lemma {:induction false} RunKeepsInv(c: Config, trace: seq<Event>)
    requires c.Valid()
    ensures Exec(c, trace).Some? ==> Inv(c, Exec(c, trace).value)
  {
    if trace == [] {
      StartOk(c);
    } else {
      RunKeepsInv(c, trace[..|trace| - 1]);
      var m, e := Exec(c, trace[..|trace| - 1]), trace[|trace| - 1];
      if m.Some? && Enabled(c, m.value, e) {
        match e
        case Post(r) => PostKeepsInv(c, m.value, r);
        case Work(r) => WorkKeepsInv(c, m.value, r);
      }
    }
  }

  /**
    Every interleaving: whatever the ranks did and in whatever order, each rank holds its part of the
    sequential process's grid after as many steps, with every temperature in [0, 100].
   */
  lemma Determinate(c: Config, trace: seq<Event>, r: nat, x: nat)
    requires c.Valid() && Exec(c, trace).Some? && r < c.P && c.M <= x < c.M + c.B
    ensures var k := Exec(c, trace).value.ranks[r];
            && c.Off(r) + x < c.GlobalSize()
            && k.g[x] == c.Global(k.iter)[c.Off(r) + x]
            && 0.0 <= k.g[x] <= 100.0
  {
    RunKeepsInv(c, trace);
    hide Exec;
    var k := Exec(c, trace).value.ranks[r];
    assert RankOk(c, r, k);
    Windows(c, r);
    SizeBound(c);
    TemperatureRange(c.GlobalSize(), c.M, k.iter);
  }

  function Progress(k: Rank): nat { 2 * k.iter + if k.posted then 1 else 0 }

  lemma {:induction false} Slowest(c: Config, n: Net, m: nat) returns (r: nat)
    requires Shaped(c, n) && 0 < m <= c.P
    ensures r < m && forall j :: 0 <= j < m ==> Progress(n.ranks[r]) <= Progress(n.ranks[j])
  {
    if m == 1 {
      r := 0;
    } else {
      r := Slowest(c, n, m - 1);
      if Progress(n.ranks[m - 1]) < Progress(n.ranks[r]) {
        r := m - 1;
      }
    }
  }

  /** The rank that is furthest behind can always move. */
  lemma SlowestMoves(c: Config, n: Net) returns (e: Event)
    requires c.Valid() && Inv(c, n)
    ensures Enabled(c, n, e) && forall j :: 0 <= j < c.P ==> Progress(n.ranks[e.r]) <= Progress(n.ranks[j])
  {
    hide RankOk, FirstRow, LastRow, Config.Global;
    var r := Slowest(c, n, c.P);
    if n.ranks[r].posted {
      if r > 0 {
        assert DownwardOk(c, r - 1, n);
        assert n.downward[r - 1][0] == LastRow(c, r - 1, c.Global(n.ranks[r].iter + 0));
      }
      if r < c.P - 1 {
        assert UpwardOk(c, r + 1, n);
        assert n.upward[r + 1][0] == FirstRow(c, r + 1, c.Global(n.ranks[r].iter + 0));
      }
      e := Work(r);
    } else {
      e := Post(r);
    }
  }

  /** The network never gets stuck. */
  lemma NoDeadlock(c: Config, trace: seq<Event>)
    requires c.Valid() && Exec(c, trace).Some?
    ensures exists e :: Enabled(c, Exec(c, trace).value, e)
  {
    RunKeepsInv(c, trace);
    hide Exec, Inv;
    var e := SlowestMoves(c, Exec(c, trace).value);
  }

  /** How much the first m ranks have to do until all have done t steps and posted once more. */
  function Remaining(ranks: seq<Rank>, t: nat, m: nat): nat
    requires m <= |ranks| && forall r :: 0 <= r < m ==> ranks[r].iter <= t
  {
    if m == 0 then 0 else Remaining(ranks, t, m - 1) + (2 * t + 1 - Progress(ranks[m - 1]))
  }

  /** One rank moves on. */
  lemma {:induction false} RemainingStep(a: seq<Rank>, b: seq<Rank>, t: nat, m: nat, r: nat)
    requires m <= |a| == |b| && r < |a|
    requires forall j :: 0 <= j < |a| ==> a[j].iter <= t && b[j].iter <= t
    requires forall j :: 0 <= j < |a| && j != r ==> b[j] == a[j]
    requires Progress(b[r]) == Progress(a[r]) + 1
    ensures Remaining(b, t, m) == Remaining(a, t, m) - if r < m then 1 else 0
  {
    hide Progress;
    if m > 0 {
      RemainingStep(a, b, t, m - 1, r);
    }
  }

  /** What an event does to the ranks' progress. */
  lemma EventProgress(c: Config, n: Net, e: Event)
    requires c.Valid() && Enabled(c, n, e)
    ensures var n' := Next(c, n, e);
            && |n'.ranks| == |n.ranks| == c.P && e.r < c.P
            && Progress(n'.ranks[e.r]) == Progress(n.ranks[e.r]) + 1
            && forall j :: 0 <= j < c.P && j != e.r ==> n'.ranks[j] == n.ranks[j]
  {
    hide LocalStep, LocalError;
  }

  ghost predicate NotPast(n: Net, t: nat) {
    forall r :: 0 <= r < |n.ranks| ==> n.ranks[r].iter <= t
  }

  ghost predicate AllAt(n: Net, t: nat) {
    forall r :: 0 <= r < |n.ranks| ==> n.ranks[r].iter == t
  }

  /** As long as some rank is behind, one can move without passing t. */
  lemma OneMove(c: Config, n: Net, t: nat) returns (e: Event)
    requires c.Valid() && Inv(c, n) && NotPast(n, t) && !AllAt(n, t)
    ensures Enabled(c, n, e) && NotPast(Next(c, n, e), t)
    ensures Remaining(Next(c, n, e).ranks, t, c.P) < Remaining(n.ranks, t, c.P)
  {
    hide Next, Enabled, Remaining;
    e := SlowestMoves(c, n);
    EventProgress(c, n, e);
    var next := Next(c, n, e);
    var behind :| 0 <= behind < |n.ranks| && n.ranks[behind].iter != t;
    assert Progress(n.ranks[e.r]) <= Progress(n.ranks[behind]) <= 2 * t - 1;
    assert NotPast(next, t);
    RemainingStep(n.ranks, next.ranks, t, c.P, e.r);
  }

  lemma ExecSnoc(c: Config, trace: seq<Event>, e: Event)
    requires c.Valid() && Exec(c, trace).Some? && Enabled(c, Exec(c, trace).value, e)
    ensures Exec(c, trace + [e]) == Some(Next(c, Exec(c, trace).value, e))
  {
    hide Next, Enabled;
    assert (trace + [e])[..|trace|] == trace;
  }

  /**
    From every reachable state the ranks can still bring themselves to any common step that none of them has
    passed, so the states that the gather and the reduction need are always within reach.
   */
  lemma {:induction false} CatchUp(c: Config, trace: seq<Event>, t: nat) returns (more: seq<Event>)
    requires c.Valid() && Exec(c, trace).Some? && NotPast(Exec(c, trace).value, t)
    ensures Exec(c, trace + more).Some? && AllAt(Exec(c, trace + more).value, t)
    decreases Remaining(Exec(c, trace).value.ranks, t, c.P)
  {
    hide Inv, Next, Enabled, Remaining, Exec, AllAt;
    if AllAt(Exec(c, trace).value, t) {
      more := [];
      assert trace + [] == trace;
    } else {
      RunKeepsInv(c, trace);
      var e := OneMove(c, Exec(c, trace).value, t);
      ExecSnoc(c, trace, e);
      var rest := CatchUp(c, trace + [e], t);
      more := [e] + rest;
      assert trace + more == trace + [e] + rest;
    }
  }

  /** MPI_Gather of the first k ranks' interior rows. */
  function Gather(c: Config, n: Net, k: nat): Grid
    requires Shaped(c, n) && k <= c.P
  {
    if k == 0 then [] else Gather(c, n, k - 1) + n.ranks[k - 1].g[c.M..c.M + c.B]
  }

  /** MPI_Allreduce with MPI_MAX of the first k ranks' errors. */
  function ReduceMax(c: Config, n: Net, k: nat): real
    requires Shaped(c, n) && 0 < k <= c.P
  {
    if k == 1 then n.ranks[0].err else Max(ReduceMax(c, n, k - 1), n.ranks[k - 1].err)
  }

  /** When all ranks have done t steps, the gathered grid is the interior of the sequential one. */
  lemma GatherIsGlobal(c: Config, trace: seq<Event>, t: nat)
    requires c.Valid() && Exec(c, trace).Some?
    requires AllAt(Exec(c, trace).value, t)
    ensures Gather(c, Exec(c, trace).value, c.P) == c.Global(t)[c.M..c.GlobalSize() - c.M]
  {
    RunKeepsInv(c, trace);
    Windows(c, c.P - 1);
    GatherPrefix(c, Exec(c, trace).value, t, c.P);
  }

  lemma InvAt(c: Config, n: Net, t: nat, r: nat)
    requires c.Valid() && Inv(c, n) && AllAt(n, t) && r < c.P
    ensures Shaped(c, n) && RankOk(c, r, n.ranks[r]) && n.ranks[r].iter == t
  {}

  lemma {:induction false} GatherPrefix(c: Config, n: Net, t: nat, k: nat)
    requires c.Valid() && Inv(c, n) && k <= c.P
    requires AllAt(n, t)
    ensures c.M + c.Off(k) <= c.GlobalSize()
    ensures Gather(c, n, k) == c.Global(t)[c.M..c.M + c.Off(k)]
  {
    hide Config.Global, Config.Off, RankOk, Inv, AllAt;
    if k == 0 {
      Windows(c, 0);
      assert c.Global(t)[c.M..c.M] == [];
    } else {
      var r := k - 1;
      Windows(c, r);
      GatherPrefix(c, n, t, r);
      InvAt(c, n, t, r);
      InteriorBlock(c, r, n.ranks[r]);
      Glue(c.Global(t), c.M, c.M + c.Off(r), c.M + c.Off(k));
    }
  }

  lemma Glue(w: Grid, i: nat, j: nat, l: nat)
    requires i <= j <= l <= |w|
    ensures w[i..j] + w[j..l] == w[i..l]
  {}

  lemma InteriorBlock(c: Config, r: nat, k: Rank)
    requires c.Valid() && r < c.P && RankOk(c, r, k)
    ensures c.Off(r) + c.LocalSize() <= c.GlobalSize()
    ensures k.g[c.M..c.M + c.B] == c.Global(k.iter)[c.Off(r) + c.M..c.Off(r) + c.M + c.B]
  {
    hide Config.Global, Config.Off, MaxDiff, Agrees;
    InteriorCells(c, r, k.g, c.Global(k.iter));
    SameRow(k.g, c.Global(k.iter), c.Off(r), c.M, c.B);
  }

  /** When all ranks have done t steps, the reduced error is the error of the sequential step. */
  lemma ReduceIsGlobalError(c: Config, trace: seq<Event>, t: nat)
    requires c.Valid() && Exec(c, trace).Some? && t > 0
    requires AllAt(Exec(c, trace).value, t)
    ensures c.GlobalSize() >= 3 * c.M
    ensures ReduceMax(c, Exec(c, trace).value, c.P) == GlobalError(c.Global(t - 1), c.M)
  {
    hide Inv, Exec, AllAt, ReduceMax, GlobalStep, InitialGrid, Config.Off, MaxDiff;
    SizeBound(c);
    RunKeepsInv(c, trace);
    ReducePrefix(c, Exec(c, trace).value, t, c.P);
    Windows(c, c.P - 1);
    assert c.Global(t) == GlobalStep(c.Global(t - 1), c.M);
  }

  lemma {:induction false} ReducePrefix(c: Config, n: Net, t: nat, k: nat)
    requires c.Valid() && Inv(c, n) && 0 < k <= c.P && t > 0
    requires AllAt(n, t)
    ensures c.M + c.Off(k) <= c.GlobalSize()
    ensures ReduceMax(c, n, k) == MaxDiff(c.Global(t), c.Global(t - 1), c.M, c.M + c.Off(k))
  {
    hide Config.Global, Config.Off, MaxDiff, Agrees;
    Windows(c, k - 1);
    assert RankOk(c, k - 1, n.ranks[k - 1]);
    if k > 1 {
      ReducePrefix(c, n, t, k - 1);
      MaxDiffSplit(c.Global(t), c.Global(t - 1), c.M, c.M + c.Off(k - 1), c.M + c.Off(k));
    }
  }
}
