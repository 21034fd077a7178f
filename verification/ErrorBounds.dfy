/** The selection of error bounds to report, from zc/src/ZC_ReportGenerator.c. */
module ErrorBounds {
  import opened Arithmetic
  import QuickSort

  datatype StringElem = StringElem(str: string, value: real)

  /** How many of n sorted bounds are stepped over at a time so that at most the requested cases remain. */
  function Interval(n: nat, cases: nat): nat
    requires cases > 0
  {
    if n % cases == 0 then n / cases else n / cases + 1
  }

  function Ceiling(n: nat, d: nat): nat
    requires d > 0
  {
    (n + d - 1) / d
  }

  lemma QuotientAtMost(n: nat, d: nat, k: nat)
    requires d > 0 && n < (k + 1) * d
    ensures n / d <= k
  {
    var q := n / d;
    assert q * d <= n;
    if q >= k + 1 {
      MulMonotone(k + 1, q, d);
      assert false;
    }
  }

  lemma MulMonotone(a: nat, b: nat, d: nat)
    requires a <= b
    ensures a * d <= b * d
  {
    assert (b - a) * d >= 0;
  }

  /** Stepping by the interval leaves at least one and at most the requested number. */
  lemma SelectionSize(n: nat, cases: nat)
    requires n > 0 && cases > 0
    ensures Interval(n, cases) > 0
    ensures 1 <= Ceiling(n, Interval(n, cases)) <= cases
    ensures n <= cases ==> Interval(n, cases) == 1
  {
    var d := Interval(n, cases);
    IntervalCovers(n, cases);
    QuotientAtMost(n + d - 1, d, cases);
    QuotientPositive(n + d - 1, d);
    if n <= cases {
      OneInterval(n, cases);
    }
  }

  /** No smaller step leaves at most the requested number. */
  lemma IntervalIsLeast(n: nat, cases: nat, d: nat)
    requires n > 0 && cases > 0 && d > 0
    ensures Ceiling(n, d) <= cases <==> Interval(n, cases) <= d
  {
    var k, q := Interval(n, cases), n / cases;
    IntervalCovers(n, cases);
    assert n == cases * q + n % cases;
    if k <= d {
      MulMonotone(k, d, cases);
      assert d * cases == cases * d && n + d - 1 < cases * d + d == (cases + 1) * d;
      QuotientAtMost(n + d - 1, d, cases);
    } else {
      MulMonotone(d, k - 1, cases);
      assert (k - 1) * cases < n;
      CeilingAbove(n, d, cases);
    }
  }

  lemma CeilingAbove(n: nat, d: nat, cases: nat)
    requires d > 0 && d * cases < n
    ensures Ceiling(n, d) > cases
  {
    var c := Ceiling(n, d);
    assert n + d - 1 == d * c + (n + d - 1) % d;
    if c <= cases {
      MulMonotone(c, cases, d);
    }
  }

  lemma IntervalCovers(n: nat, cases: nat)
    requires n > 0 && cases > 0
    ensures 0 < Interval(n, cases) && n <= cases * Interval(n, cases)
  {
    var q := n / cases;
    assert n == cases * q + n % cases;
    assert cases * (q + 1) == cases * q + cases;
    if q == 0 {
      assert cases * q == 0;
    }
  }

  lemma QuotientPositive(x: nat, d: nat)
    requires 0 < d <= x
    ensures x / d >= 1
  {}

  lemma OneInterval(n: nat, cases: nat)
    requires 0 < n <= cases
    ensures Interval(n, cases) == 1
  {
    if n < cases {
      QuotRem(n, 0, cases, n);
    } else {
      QuotRem(n, 1, cases, 0);
    }
  }

  lemma CeilingZero(d: nat)
    requires d > 0
    ensures Ceiling(0, d) == 0
  {
    QuotRem(d - 1, 0, d, d - 1);
  }

  lemma CeilingStep(i: nat, d: nat)
    requires d > 0
    ensures Ceiling(i + 1, d) == Ceiling(i, d) + if i % d == 0 then 1 else 0
    ensures i % d == 0 ==> Ceiling(i, d) * d == i
  {
    var q, r := i / d, i % d;
    assert i == q * d + r;
    if r == 0 {
      QuotRem(i + d, q + 1, d, 0);
      QuotRem(i + d - 1, q, d, d - 1);
    } else {
      QuotRem(i + d, q + 1, d, r);
      QuotRem(i + d - 1, q + 1, d, r - 1);
    }
  }

  /** The bounds with their parsed values, before sorting. */
  function Parsed(all: seq<string>, atof: string -> real): seq<StringElem> {
    seq(|all|, i requires 0 <= i < |all| => StringElem(all[i], atof(all[i])))
  }

  ghost predicate Descending(s: seq<StringElem>) {
    forall i, j :: 0 <= i <= j < |s| ==> s[i].value >= s[j].value
  }

  /** What the selection must be: every interval-th bound of the descending order. */
  ghost predicate Selects(all: seq<string>, cases: nat, atof: string -> real,
                          sorted: seq<StringElem>, selected: seq<StringElem>)
    requires cases > 0 && all != []
  {
    SelectionSize(|all|, cases);
    var d := Interval(|all|, cases);
    && Descending(sorted) && multiset(sorted) == multiset(Parsed(all, atof)) && |sorted| == |all|
    && |selected| == Ceiling(|all|, d)
    && forall j :: 0 <= j < |selected| ==> 0 <= j * d < |sorted| && selected[j] == sorted[j * d]
  }

  /** Between one and the requested number of bounds, descending from the largest, each of them an input. */
  lemma SelectionFacts(all: seq<string>, cases: nat, atof: string -> real,
                       sorted: seq<StringElem>, selected: seq<StringElem>)
    requires cases > 0 && all != [] && Selects(all, cases, atof, sorted, selected)
    ensures 1 <= |selected| <= cases && Descending(selected)
    ensures forall j :: 0 <= j < |selected| ==>
              selected[j].str in all && selected[j].value == atof(selected[j].str)
    ensures forall x :: x in all ==> selected[0].value >= atof(x)
    ensures |all| <= cases ==> selected == sorted
  {
    hide Interval, Ceiling, Parsed;
    SelectionSize(|all|, cases);
    var d := Interval(|all|, cases);
    forall i, j | 0 <= i <= j < |selected| ensures selected[i].value >= selected[j].value {
      MulMonotone(i, j, d);
    }
    forall j | 0 <= j < |selected| ensures selected[j].str in all && selected[j].value == atof(selected[j].str) {
      ParsedIs(all, atof, sorted, j * d);
    }
    forall x | x in all ensures selected[0].value >= atof(x) {
      ParsedHas(all, atof, sorted, x);
      assert 0 * d == 0;
    }
    if d == 1 {
      assert forall j :: 0 <= j < |selected| ==> selected[j] == sorted[j * 1] == sorted[j];
      CeilingOne(|all|);
    }
  }

  lemma CeilingOne(n: nat)
    ensures Ceiling(n, 1) == n
  {}

  /** A sorted bound is one of the inputs with its value. */
  lemma ParsedIs(all: seq<string>, atof: string -> real, sorted: seq<StringElem>, i: nat)
    requires multiset(sorted) == multiset(Parsed(all, atof)) && i < |sorted|
    ensures sorted[i].str in all && sorted[i].value == atof(sorted[i].str)
  {
    assert sorted[i] in multiset(sorted);
    assert sorted[i] in multiset(Parsed(all, atof));
  }

  /** Every input is among the sorted bounds, so the first is at least as large. */
  lemma ParsedHas(all: seq<string>, atof: string -> real, sorted: seq<StringElem>, x: string)
    requires multiset(sorted) == multiset(Parsed(all, atof)) && Descending(sorted) && x in all
    ensures sorted != [] && sorted[0].value >= atof(x)
  {
    var i :| 0 <= i < |all| && all[i] == x;
    assert Parsed(all, atof)[i] in multiset(Parsed(all, atof));
    assert Parsed(all, atof)[i] in multiset(sorted);
  }

  /** ZC_constructSortedSelectedErrorBounds; atof parses a bound. */
  method SelectErrorBounds(all: seq<string>, cases: nat, atof: string -> real)
    returns (selected: seq<StringElem>, ghost sorted: seq<StringElem>)
    requires all != [] && cases > 0
    ensures Selects(all, cases, atof, sorted, selected)
    ensures 1 <= |selected| <= cases && Descending(selected)
    ensures forall x :: x in all ==> selected[0].value >= atof(x)
  {
    hide Ceiling, Descending, Parsed;
    var n := |all|;
    SelectionSize(n, cases);
    var interval := if n % cases == 0 then n / cases else n / cases + 1;
    var list := ParseAll(all, atof);
    ghost var unsorted := list[..];
    var key := (e: StringElem) => -e.value;
    QuickSort.Sort(list, 0, n - 1, key);
    sorted := list[..];
    SortedIsDescending(unsorted, sorted, key);
    selected := TakeEvery(list, interval);
    SelectionFacts(all, cases, atof, sorted, selected);
  }

  /** The loop that copies and parses the bounds. */
  method ParseAll(all: seq<string>, atof: string -> real) returns (list: array<StringElem>)
    ensures fresh(list) && list.Length == |all| && list[..] == Parsed(all, atof)
  {
    list := new StringElem[|all|](_ => StringElem("", 0.0));
    for i := 0 to |all|
      invariant forall j :: 0 <= j < i ==> list[j] == Parsed(all, atof)[j]
    {
      list[i] := StringElem(all[i], atof(all[i]));
    }
  }

  /** The loop that selects every interval-th bound. */
  method TakeEvery(list: array<StringElem>, interval: nat) returns (selected: seq<StringElem>)
    requires interval > 0
    ensures |selected| == Ceiling(list.Length, interval)
    ensures forall j :: 0 <= j < |selected| ==> 0 <= j * interval < list.Length && selected[j] == list[j * interval]
  {
    hide Ceiling;
    selected := [];
    CeilingZero(interval);
    for i := 0 to list.Length
      invariant |selected| == Ceiling(i, interval)
      invariant forall j :: 0 <= j < |selected| ==> 0 <= j * interval < i && selected[j] == list[j * interval]
    {
      CeilingStep(i, interval);
      if i % interval == 0 {
        selected := selected + [list[i]];
      }
    }
  }

  lemma SortedIsDescending(s: seq<StringElem>, t: seq<StringElem>, key: StringElem -> real)
    requires s != [] && |t| == |s| && forall e :: key(e) == -e.value
    requires QuickSort.SortedBy(t[0..|s| - 1 + 1], key) && QuickSort.Permuted(s, t, 0, |s| - 1 + 1)
    ensures Descending(t) && multiset(t) == multiset(s)
  {
    assert t[0..|s|] == t && s[0..|s|] == s;
  }
}
