/** The estimation of an error setting for a target compression ratio, from zc/src/ZC_CompareData.c. */
module ErrorSetting {
  import QuickSort

  datatype Mode = SelectNearest | LinearApprox

  ghost predicate Ascending(cr: seq<real>) {
    forall i, j :: 0 <= i <= j < |cr| ==> cr[i] <= cr[j]
  }

  /** The first index from which on a ratio reaches the target, or 0 if none does. */
  function FirstReaching(cr: seq<real>, target: real, from: nat): (i: nat)
    requires from <= |cr|
    ensures i == 0 || (from <= i < |cr| && cr[i] >= target)
    ensures i > 0 ==> forall j :: from <= j < i ==> cr[j] < target
    ensures i == 0 ==> (forall j :: from <= j < |cr| ==> cr[j] < target) || (from == 0 < |cr| && cr[0] >= target)
    decreases |cr| - from
  {
    if from == |cr| then 0
    else if cr[from] >= target then from
    else FirstReaching(cr, target, from + 1)
  }

  /** The value at t of the line through (l, fl) and (u, fu). */
  function OnLine(l: real, fl: real, u: real, fu: real, t: real): real
    requires l < u
  {
    fl + (t - l) / (u - l) * (fu - fl)
  }

  /** The second formula of the source, which extrapolates from the first two points. */
  function Extrapolated(l: real, fl: real, u: real, fu: real, t: real): real
    requires l < u && t != u
  {
    var a := (l - t) / (u - t);
    RatioIsNotOne(l, u, t);
    (a * fu - fl) / (a - 1.0)
  }

  lemma RatioIsNotOne(l: real, u: real, t: real)
    requires l < u && t != u
    ensures (l - t) / (u - t) != 1.0
  {
    assert (l - t) / (u - t) * (u - t) == l - t;
  }

  /** The two formulas describe the same line. */
  lemma ExtrapolatedIsOnLine(l: real, fl: real, u: real, fu: real, t: real)
    requires l < u && t != u
    ensures Extrapolated(l, fl, u, fu, t) == OnLine(l, fl, u, fu, t)
  {
    var a, b := (l - t) / (u - t), (t - l) / (u - l);
    RatioIsNotOne(l, u, t);
    assert a * (u - t) == l - t;
    assert b * (u - l) == t - l;
    assert (a - 1.0) * (u - t) == l - u;
    var x, y := Extrapolated(l, fl, u, fu, t), OnLine(l, fl, u, fu, t);
    assert x * (a - 1.0) == a * fu - fl;
    assert (x * (a - 1.0)) * (u - t) == x * (l - u);
    assert (a * fu - fl) * (u - t) == (l - t) * fu - fl * (u - t);
    assert y * (l - u) == fl * (l - u) - b * (u - l) * (fu - fl);
    assert (x - y) * (l - u) == 0.0;
  }

  lemma UnitRatio(n: real, d: real)
    requires d != 0.0
    ensures 0.0 <= n <= d ==> 0.0 <= n / d <= 1.0
    ensures n == d ==> n / d == 1.0
    ensures n == 0.0 ==> n / d == 0.0
  {}

  /** Between the two abscissas the line stays between the two values. */
  lemma OnLineBetween(l: real, fl: real, u: real, fu: real, t: real)
    requires l < u && l <= t <= u
    ensures fl <= fu ==> fl <= OnLine(l, fl, u, fu, t) <= fu
    ensures fu <= fl ==> fu <= OnLine(l, fl, u, fu, t) <= fl
    ensures t == u ==> OnLine(l, fl, u, fu, t) == fu
    ensures t == l ==> OnLine(l, fl, u, fu, t) == fl
  {
    var b := (t - l) / (u - l);
    UnitRatio(t - l, u - l);
    if fl <= fu {
      ScaledBetween(b, fu - fl);
    } else {
      ScaledBetween(b, fl - fu);
      assert b * (fu - fl) == -(b * (fl - fu));
    }
  }

  lemma ScaledBetween(b: real, d: real)
    requires 0.0 <= b <= 1.0 && d >= 0.0
    ensures 0.0 <= b * d <= d
  {
    assert (1.0 - b) * d >= 0.0;
  }

  /** A line through nondecreasing values is nondecreasing. */
  lemma OnLineMonotone(l: real, fl: real, u: real, fu: real, s: real, t: real)
    requires l < u && s <= t && fl <= fu
    ensures OnLine(l, fl, u, fu, s) <= OnLine(l, fl, u, fu, t)
  {
    var b, c := (s - l) / (u - l), (t - l) / (u - l);
    assert b * (u - l) == s - l && c * (u - l) == t - l;
    assert (c - b) * (u - l) >= 0.0;
    assert c - b >= 0.0;
    assert (c - b) * (fu - fl) >= 0.0;
  }

  /** The table of measured ratios and the settings that led to them. */
  datatype Table = Table(cr: seq<real>, settings: seq<real>) {
    ghost predicate Valid() {
      |cr| == |settings| > 0 && Ascending(cr)
    }

    function Upper(target: real): nat { FirstReaching(cr, target, 0) }

    /** The first two ratios differ, so that they determine a line. */
    predicate Leading() { |cr| >= 2 && cr[0] < cr[1] }

    /** The linear mode divides by no zero: two ratios enclose the target, or the first two differ. */
    predicate Defined(target: real) { Upper(target) > 0 || Leading() }
  }

  /** computeErrorSetting in its linear mode. */
  function Setting(b: Table, target: real): real
    requires b.Valid() && b.Defined(target)
  {
    var u := b.Upper(target);
    if u > 0 then OnLine(b.cr[u - 1], b.settings[u - 1], b.cr[u], b.settings[u], target)
    else
      var r := Extrapolated(b.cr[0], b.settings[0], b.cr[1], b.settings[1], target);
      if r < 0.0 then b.settings[0] else r
  }

  /** For ratios in ascending order the second formula divides by zero exactly if the first two ratios coincide. */
  lemma DivisorsNonzero(cr: seq<real>, target: real)
    requires |cr| >= 2 && Ascending(cr) && FirstReaching(cr, target, 0) == 0
    ensures target != cr[1] && (cr[0] - target) / (cr[1] - target) != 1.0 <==> cr[0] < cr[1]
  {
    if cr[0] < cr[1] {
      RatioIsNotOne(cr[0], cr[1], target);
    } else if target != cr[1] {
      UnitRatio(cr[0] - target, cr[1] - target);
    }
  }

  /** Inside the measured range the result lies between the settings that bracket the target. */
  lemma Brackets(b: Table, target: real)
    requires b.Valid() && b.cr[0] < target <= b.cr[|b.cr| - 1]
    ensures b.Defined(target)
    ensures var u := b.Upper(target);
            && 0 < u < |b.cr| && b.cr[u - 1] < target <= b.cr[u]
            && (b.settings[u - 1] <= b.settings[u] ==> b.settings[u - 1] <= Setting(b, target) <= b.settings[u])
            && (b.settings[u] <= b.settings[u - 1] ==> b.settings[u] <= Setting(b, target) <= b.settings[u - 1])
            && (target == b.cr[u] ==> Setting(b, target) == b.settings[u])
  {
    hide OnLine;
    var u := b.Upper(target);
    OnLineBetween(b.cr[u - 1], b.settings[u - 1], b.cr[u], b.settings[u], target);
  }

  /** At and outside the ends the result is on the line through the first two points, or their first setting. */
  lemma OutsideBrackets(b: Table, target: real)
    requires b.Valid() && b.Leading() && (target <= b.cr[0] || target > b.cr[|b.cr| - 1])
    ensures var r := OnLine(b.cr[0], b.settings[0], b.cr[1], b.settings[1], target);
            Setting(b, target) == if r < 0.0 then b.settings[0] else r
    ensures target == b.cr[0] ==> Setting(b, target) == b.settings[0]
  {
    hide OnLine, Extrapolated;
    ExtrapolatedIsOnLine(b.cr[0], b.settings[0], b.cr[1], b.settings[1], target);
    if target == b.cr[0] {
      OnLineBetween(b.cr[0], b.settings[0], b.cr[1], b.settings[1], target);
    }
  }

  /** With nondecreasing settings the result is nondecreasing over the measured range. */
  lemma Monotone(b: Table, s: real, t: real)
    requires b.Valid() && b.Leading() && Ascending(b.settings)
    requires b.cr[0] <= s <= t <= b.cr[|b.cr| - 1]
    ensures Setting(b, s) <= Setting(b, t)
  {
    hide OnLine, Extrapolated, Setting;
    if s == b.cr[0] {
      OutsideBrackets(b, s);
      if t == s {
      } else {
        Brackets(b, t);
      }
    } else {
      Brackets(b, s);
      Brackets(b, t);
      var u, v := b.Upper(s), b.Upper(t);
      assert u <= v;
      if u == v {
        SettingIs(b, s);
        SettingIs(b, t);
        OnLineMonotone(b.cr[u - 1], b.settings[u - 1], b.cr[u], b.settings[u], s, t);
      }
    }
  }

  lemma SettingIs(b: Table, target: real)
    requires b.Valid() && b.Upper(target) > 0
    ensures b.cr[b.Upper(target) - 1] < b.cr[b.Upper(target)]
    ensures var u := b.Upper(target);
            Setting(b, target) == OnLine(b.cr[u - 1], b.settings[u - 1], b.cr[u], b.settings[u], target)
  {}

  lemma SettingBelow(b: Table, target: real)
    requires b.Valid() && b.Leading() && b.Upper(target) == 0
    ensures target != b.cr[1]
    ensures var r := Extrapolated(b.cr[0], b.settings[0], b.cr[1], b.settings[1], target);
            Setting(b, target) == if r < 0.0 then b.settings[0] else r
  {}

  lemma OnLineIs(l: real, fl: real, u: real, fu: real, t: real, tmp: real)
    requires l < u && tmp == (t - l) / (u - l) * (fu - fl)
    ensures OnLine(l, fl, u, fu, t) == fl + tmp
  {}

  lemma ExtrapolatedIs(l: real, fl: real, u: real, fu: real, t: real, a: real, r: real)
    requires l < u && t != u && a == (l - t) / (u - t) && a != 1.0 && r == (a * fu - fl) / (a - 1.0)
    ensures Extrapolated(l, fl, u, fu, t) == r
  {}

  // ----- the code -----

  /** The search loop common to both modes. */
  method FindReaching(cr: seq<real>, target: real) returns (index: nat)
    ensures index == FirstReaching(cr, target, 0)
  {
    index := 0;
    for i := 0 to |cr|
      invariant index == 0 && FirstReaching(cr, target, 0) == FirstReaching(cr, target, i)
    {
      if cr[i] >= target {
        return i;
      }
    }
  }

  /** computeErrorSetting; the linear mode needs an enclosed target or two different leading ratios. */
  method ComputeErrorSetting(b: Table, target: real, mode: Mode) returns (result: real)
    requires |b.cr| == |b.settings| > 0
    requires mode == LinearApprox ==> b.Valid() && b.Defined(target)
    ensures mode == SelectNearest ==> result == b.settings[b.Upper(target)]
    ensures mode == LinearApprox ==> result == Setting(b, target)
  {
    hide OnLine, Extrapolated, Setting, FirstReaching;
    if mode == SelectNearest {
      var targetIndex := FindReaching(b.cr, target);
      result := b.settings[targetIndex];
    } else {
      var upper := FindReaching(b.cr, target);
      if upper > 0 {
        var lower := upper - 1;
        var l, u := b.cr[lower], b.cr[upper];
        var fl, fu := b.settings[lower], b.settings[upper];
        SettingIs(b, target);
        var tmp := (target - l) / (u - l) * (fu - fl);
        OnLineIs(l, fl, u, fu, target, tmp);
        return fl + tmp;
      } else {
        var lower := upper;
        upper := upper + 1;
        var l, u := b.cr[lower], b.cr[upper];
        var fl, fu := b.settings[lower], b.settings[upper];
        SettingBelow(b, target);
        var a := (l - target) / (u - target);
        RatioIsNotOne(l, u, target);
        result := (a * fu - fl) / (a - 1.0);
        ExtrapolatedIs(l, fl, u, fu, target, a, result);
        if result < 0.0 {
          result := b.settings[lower];
        }
      }
    }
  }

  /** The fields of a comparison result that the estimation uses. */
  datatype CompareData = CompareData(compressRatio: real, errorBound: real)

  function Ratios(s: seq<CompareData>): seq<real> {
    seq(|s|, i requires 0 <= i < |s| => s[i].compressRatio)
  }

  function Settings(s: seq<CompareData>): seq<real> {
    seq(|s|, i requires 0 <= i < |s| => s[i].errorBound)
  }

  /** extractCRandErrorSettings. */
  method Extract(results: array<CompareData>) returns (b: Table)
    ensures b == Table(Ratios(results[..]), Settings(results[..]))
  {
    var cr := new real[results.Length];
    var settings := new real[results.Length];
    for i := 0 to results.Length
      invariant forall j :: 0 <= j < i ==> cr[j] == results[j].compressRatio && settings[j] == results[j].errorBound
    {
      cr[i] := results[i].compressRatio;
      settings[i] := results[i].errorBound;
    }
    b := Table(cr[..], settings[..]);
  }

  /** The results in any order make the linear mode defined: they enclose the target, or one ratio is the least. */
  predicate Answerable(s: seq<CompareData>, target: real) {
    || (exists i, j :: 0 <= i < |s| && 0 <= j < |s| && s[i].compressRatio < target <= s[j].compressRatio)
    || (|s| >= 2 && exists i :: 0 <= i < |s| && Least(s, i))
  }

  /** Every other ratio is larger than the i-th. */
  predicate Least(s: seq<CompareData>, i: nat)
    requires i < |s|
  {
    forall j :: 0 <= j < |s| && j != i ==> s[i].compressRatio < s[j].compressRatio
  }

  /**
    ZC_itentifyErrorSettingBasedOnCR, for the numeric targets: the results are sorted by ratio in place and
    every target gets its estimate from the sorted table.
   */
  method Identify(results: array<CompareData>, targets: seq<real>, mode: Mode) returns (estimates: seq<real>)
    requires results.Length > 0
    requires mode == LinearApprox ==> forall i :: 0 <= i < |targets| ==> Answerable(results[..], targets[i])
    modifies results
    ensures multiset(results[..]) == multiset(old(results[..]))
    ensures Table(Ratios(results[..]), Settings(results[..])).Valid()
    ensures |estimates| == |targets|
    ensures var b := Table(Ratios(results[..]), Settings(results[..]));
            forall i :: 0 <= i < |targets| ==>
              if mode == LinearApprox then b.Defined(targets[i]) && estimates[i] == Setting(b, targets[i])
              else estimates[i] == b.settings[b.Upper(targets[i])]
  {
    hide Setting, Answerable;
    ghost var s := results[..];
    var key := (r: CompareData) => r.compressRatio;
    QuickSort.Sort(results, 0, results.Length - 1, key);
    ghost var t := results[..];
    SortedTable(s, t, key);
    var b := Extract(results);
    hide Ratios, Settings;
    estimates := [];
    for k := 0 to |targets|
      invariant |estimates| == k && results[..] == t
      invariant forall i :: 0 <= i < k ==>
                  if mode == LinearApprox then b.Defined(targets[i]) && estimates[i] == Setting(b, targets[i])
                  else estimates[i] == b.settings[b.Upper(targets[i])]
    {
      if mode == LinearApprox {
        SortedDefined(s, t, targets[k]);
      }
      var e := ComputeErrorSetting(b, targets[k], mode);
      estimates := estimates + [e];
    }
  }

  lemma SortedTable(s: seq<CompareData>, t: seq<CompareData>, key: CompareData -> real)
    requires |s| == |t| > 0 && forall r :: key(r) == r.compressRatio
    requires QuickSort.SortedBy(t[0..|s| - 1 + 1], key) && QuickSort.Permuted(s, t, 0, |s| - 1 + 1)
    ensures multiset(t) == multiset(s)
    ensures Table(Ratios(t), Settings(t)).Valid()
  {
    assert t[0..|s|] == t && s[0..|s|] == s;
  }

  /** Sorting answerable results gives a table on which the linear mode is defined. */
  lemma SortedDefined(s: seq<CompareData>, t: seq<CompareData>, target: real)
    requires |s| == |t| > 0 && multiset(t) == multiset(s) && Ascending(Ratios(t)) && Answerable(s, target)
    ensures Table(Ratios(t), Settings(t)).Defined(target)
  {
    var cr := Ratios(t);
    if i, j :| 0 <= i < |s| && 0 <= j < |s| && s[i].compressRatio < target <= s[j].compressRatio {
      assert s[i] in multiset(t) && s[j] in multiset(t);
      var p := IndexOf(t, s[i]);
      var q := IndexOf(t, s[j]);
      assert cr[0] <= cr[p] < target <= cr[q];
    } else {
      assert t[0].compressRatio == cr[0] <= cr[1] == t[1].compressRatio;
      if cr[0] == cr[1] {
        TwoOfTheSame(s, t);
        LeastIsFirst(s, t);
        assert false;
      }
    }
  }

  /** Conversely, only answerable results give such a table, so the condition of Identify asks for no more. */
  lemma OnlyAnswerable(s: seq<CompareData>, t: seq<CompareData>, target: real)
    requires |s| == |t| > 0 && multiset(t) == multiset(s) && Ascending(Ratios(t))
    requires Table(Ratios(t), Settings(t)).Defined(target)
    ensures Answerable(s, target)
  {
    var b := Table(Ratios(t), Settings(t));
    var u := b.Upper(target);
    if u > 0 {
      assert t[u - 1] in multiset(t) && t[u] in multiset(t);
      var i := IndexOf(s, t[u - 1]);
      var j := IndexOf(s, t[u]);
      assert s[i].compressRatio == b.cr[u - 1] < target <= b.cr[u] == s[j].compressRatio;
    } else {
      assert t[0] in multiset(t);
      var i := IndexOf(s, t[0]);
      forall j | 0 <= j < |s| && j != i ensures s[i].compressRatio < s[j].compressRatio {
        var p := OtherPlace(s, t, i, j);
        assert b.cr[0] < b.cr[1] <= b.cr[p];
      }
      assert Least(s, i);
    }
  }

  /** Where the j-th result stands when the i-th stands first. */
  lemma OtherPlace(s: seq<CompareData>, t: seq<CompareData>, i: nat, j: nat) returns (p: nat)
    requires |s| == |t| && multiset(t) == multiset(s) && i < |s| && j < |s| && i != j && s[i] == t[0]
    ensures 0 < p < |t| && t[p] == s[j]
  {
    var rest := s[..i] + s[i + 1..];
    OthersAreTheSame(s, t, i);
    assert rest[if j < i then j else j - 1] == s[j];
    assert s[j] in multiset(rest);
    var k := IndexOf(t[1..], s[j]);
    p := k + 1;
  }

  lemma OthersAreTheSame(s: seq<CompareData>, t: seq<CompareData>, i: nat)
    requires |t| > 0 && multiset(t) == multiset(s) && i < |s| && s[i] == t[0]
    ensures multiset(s[..i] + s[i + 1..]) == multiset(t[1..])
  {
    RemoveAt(s, i);
    assert t == [t[0]] + t[1..];
  }

  /** Every result's ratio is at least the first sorted one. */
  lemma LeastIsFirst(s: seq<CompareData>, t: seq<CompareData>)
    requires |s| == |t| > 0 && multiset(t) == multiset(s) && Ascending(Ratios(t))
    ensures forall i :: 0 <= i < |s| ==> t[0].compressRatio <= s[i].compressRatio
  {
    forall i | 0 <= i < |s| ensures t[0].compressRatio <= s[i].compressRatio {
      assert s[i] in multiset(t);
      var p := IndexOf(t, s[i]);
      assert Ratios(t)[0] <= Ratios(t)[p];
    }
  }

  /** Two entries of equal ratio after a rearrangement come from two entries of equal ratio before it. */
  lemma TwoOfTheSame(s: seq<CompareData>, t: seq<CompareData>)
    requires |t| >= 2 && multiset(s) == multiset(t) && t[0].compressRatio == t[1].compressRatio
    ensures exists i, j :: 0 <= i < j < |s| && s[i].compressRatio == s[j].compressRatio == t[0].compressRatio
  {
    var i := IndexOf(s, t[0]);
    var rest := s[..i] + s[i + 1..];
    RemoveAt(s, i);
    RemoveAt(t, 0);
    assert t[1] in multiset(t[..0] + t[1..]);
    var j := IndexOf(rest, t[1]);
    var j' := if j < i then j else j + 1;
    assert s[j'] == t[1];
    var p, q := if i < j' then i else j', if i < j' then j' else i;
    assert p < q && s[p].compressRatio == s[q].compressRatio;
  }

  lemma RemoveAt(s: seq<CompareData>, i: nat)
    requires i < |s|
    ensures multiset(s[..i] + s[i + 1..]) == multiset(s) - multiset{s[i]}
  {
    assert s == s[..i] + [s[i]] + s[i + 1..];
  }

  lemma IndexOf(s: seq<CompareData>, x: CompareData) returns (i: nat)
    requires x in multiset(s)
    ensures i < |s| && s[i] == x
  {
    i :| i < |s| && s[i] == x;
  }
}
