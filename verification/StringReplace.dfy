/** The in-place string replacement of zc/src/ZC_util.c. */
module StringReplace {

  predicate OccursAt(s: string, m: string, i: nat) {
    i + |m| <= |s| && s[i..i + |m|] == m
  }

  ghost predicate Occurs(s: string, m: string) {
    exists i: nat :: i <= |s| && OccursAt(s, m, i)
  }

  /** One left-to-right pass replacing every non-overlapping occurrence. */
  function OnePass(s: string, m: string, r: string): string
    requires m != ""
  {
    if |s| < |m| then s
    else if OccursAt(s, m, 0) then r + OnePass(s[|m|..], m, r)
    else [s[0]] + OnePass(s[1..], m, r)
  }

  /** No match can cover a part of an inserted replacement: neither text lies in the other, and they cannot overlap. */
  ghost predicate Apart(m: string, r: string) {
    && r != "" && !Occurs(r, m) && !Occurs(m, r)
    && (forall j :: 0 <= j < |r| && |r| - j <= |m| ==> r[j..] != m[..|r| - j])
    && (forall j :: 0 < j <= |r| && j <= |m| ==> r[..j] != m[|m| - j..])
  }

  /** Replacing never creates a match: none covers a replacement, and no two remains are joined to one. */
  ghost predicate OneTime(m: string, r: string) {
    Apart(m, r) || (r == "" && |m| == 1)
  }

  /** t is s with its first match replaced. */
  ghost predicate ReplacesFirst(s: string, t: string, m: string, r: string) {
    exists a: string, b: string ::
      s == a + m + b && t == a + r + b && forall i: nat :: i < |a| ==> !OccursAt(s, m, i)
  }

  /** The texts from s to t, each with the first match of the one before it replaced. */
  ghost predicate Rounds(run: seq<string>, s: string, t: string, m: string, r: string) {
    && run != [] && run[0] == s && run[|run| - 1] == t
    && forall i :: 0 <= i < |run| - 1 ==> ReplacesFirst(run[i], run[i + 1], m, r)
  }

  lemma {:induction false} OnePassNoMatch(s: string, m: string, r: string)
    requires m != "" && !Occurs(s, m)
    ensures OnePass(s, m, r) == s
  {
    if |s| >= |m| {
      assert !OccursAt(s, m, 0);
      forall i: nat | i <= |s| - 1 ensures !OccursAt(s[1..], m, i) {
        ShiftOccurs(s, m, 1, i);
      }
      OnePassNoMatch(s[1..], m, r);
    }
  }

  lemma ShiftOccurs(s: string, m: string, k: nat, i: nat)
    requires k <= |s|
    ensures OccursAt(s[k..], m, i) <==> OccursAt(s, m, k + i)
  {
    if k + i + |m| <= |s| {
      assert s[k..][i..i + |m|] == s[k + i..k + i + |m|];
    }
  }

  lemma FirstInRest(s: string, m: string, done: nat, k: nat)
    requires done <= k <= |s| && OccursAt(s, m, k) && forall i: nat :: i < k ==> !OccursAt(s, m, i)
    ensures OccursAt(s[done..], m, k - done)
    ensures forall i: nat :: i < k - done ==> !OccursAt(s[done..], m, i)
  {
    ShiftOccurs(s, m, done, k - done);
    forall i: nat | i < k - done ensures !OccursAt(s[done..], m, i) {
      ShiftOccurs(s, m, done, i);
    }
  }

  /** The pass copies everything before the first match. */
  lemma {:induction false} OnePassSkip(s: string, m: string, r: string, k: nat)
    requires m != "" && OccursAt(s, m, k) && forall i: nat :: i < k ==> !OccursAt(s, m, i)
    ensures k + |m| <= |s|
    ensures OnePass(s, m, r) == s[..k] + r + OnePass(s[k + |m|..], m, r)
  {
    hide OccursAt, OnePass;
    OccursFits(s, m, k);
    if k == 0 {
      OnePassReplaces(s, m, r);
      assert s[..0] + r == r;
    } else {
      assert !OccursAt(s, m, 0);
      FirstInRest(s, m, 1, k);
      OnePassCopies(s, m, r);
      OnePassSkip(s[1..], m, r, k - 1);
      DropTwice(s, 1, k - 1 + |m|);
      Prepend(s, k, r, OnePass(s[k + |m|..], m, r));
    }
  }

  lemma DropTwice(s: string, i: nat, j: nat)
    requires i + j <= |s|
    ensures s[i..][j..] == s[i + j..]
  {}

  lemma Prepend(s: string, k: nat, r: string, tail: string)
    requires 0 < k <= |s|
    ensures [s[0]] + (s[1..][..k - 1] + r + tail) == s[..k] + r + tail
  {
    assert [s[0]] + s[1..][..k - 1] == s[..k];
    Regroup([s[0]], s[1..][..k - 1], r, tail);
  }

  lemma OccursFits(s: string, m: string, k: nat)
    requires OccursAt(s, m, k)
    ensures k + |m| <= |s|
  {}

  lemma OnePassCopies(s: string, m: string, r: string)
    requires m != "" && |m| <= |s| && !OccursAt(s, m, 0)
    ensures OnePass(s, m, r) == [s[0]] + OnePass(s[1..], m, r)
  {}

  lemma OnePassReplaces(s: string, m: string, r: string)
    requires m != "" && OccursAt(s, m, 0)
    ensures OnePass(s, m, r) == r + OnePass(s[|m|..], m, r)
  {}

  lemma Regroup(a: string, b: string, c: string, d: string)
    ensures a + (b + c + d) == a + b + c + d
  {}

  /** The text with the occurrence at k replaced. */
  function ReplaceAt(s: string, m: string, r: string, k: nat): string
    requires k + |m| <= |s|
  {
    s[..k] + r + s[k + |m|..]
  }

  /** After the first match is replaced, no match begins before the end of the replacement. */
  lemma NothingBehind(s: string, m: string, r: string, k: nat)
    requires m != "" && OneTime(m, r)
    requires OccursAt(s, m, k) && forall i: nat :: i < k ==> !OccursAt(s, m, i)
    ensures forall i: nat :: i < k + |r| ==> !OccursAt(ReplaceAt(s, m, r, k), m, i)
  {
    hide Apart;
    var t := ReplaceAt(s, m, r, k);
    forall i: nat | i < k + |r| ensures !OccursAt(t, m, i) {
      if i + |m| <= k {
        assert t[i..i + |m|] == s[i..i + |m|];
        assert !OccursAt(s, m, i);
      } else if OccursAt(t, m, i) {
        Overlap(s[..k], r, s[k + |m|..], m, i);
      }
    }
  }

  /** A match that covers a part of r lies in r, contains r, or overlaps one of its ends. */
  lemma Overlap(a: string, r: string, b: string, m: string, i: nat)
    requires OccursAt(a + r + b, m, i) && i < |a| + |r| && |a| < i + |m|
    ensures !Apart(m, r)
  {
    MatchAt(a, r, b, m, i);
    var x: int, j := |a| - i, if i < |a| then i + |m| - |a| else |a| + |r| - i;
    if i < |a| {
      if j <= |r| {
        assert forall y :: 0 <= y < j ==> r[..j][y] == m[|m| - j..][y];
        assert r[..j] == m[|m| - j..];
      } else {
        assert m[x..x + |r|] == r;
        assert OccursAt(m, r, x);
      }
    } else if |m| <= j {
      assert r[-x..-x + |m|] == m;
      assert OccursAt(r, m, -x);
    } else {
      assert r[-x..] == m[..j];
    }
  }

  /** The characters that the match and r share. */
  lemma MatchAt(a: string, r: string, b: string, m: string, i: nat)
    requires OccursAt(a + r + b, m, i)
    ensures forall y :: 0 <= y < |r| && 0 <= |a| + y - i < |m| ==> r[y] == m[|a| + y - i]
  {
    var t := a + r + b;
    forall y | 0 <= y < |r| && 0 <= |a| + y - i < |m| ensures r[y] == m[|a| + y - i] {
      assert r[y] == t[|a| + y] == t[i..i + |m|][|a| + y - i];
    }
  }

  /** Texts without a common character are apart. */
  lemma NothingShared(m: string, r: string)
    requires m != "" && r != "" && forall c :: c in r ==> c !in m
    ensures Apart(m, r)
  {
    assert r[0] in r && m[0] in m;
    forall i: nat | i <= |r| ensures !OccursAt(r, m, i) {
      assert i + |m| <= |r| ==> r[i..i + |m|][0] in r;
    }
    forall i: nat | i <= |m| ensures !OccursAt(m, r, i) {
      assert i + |r| <= |m| ==> m[i..i + |r|][0] in m;
    }
    forall j | 0 <= j < |r| && |r| - j <= |m| ensures r[j..] != m[..|r| - j] {
      assert r[j..][0] in r && m[..|r| - j][0] in m;
    }
    forall j | 0 < j <= |r| && j <= |m| ensures r[..j] != m[|m| - j..] {
      assert r[..j][0] in r && m[|m| - j..][0] in m;
    }
  }

  // ----- termination when the length stays the same -----

  function Power(n: nat): (p: nat)
    ensures p > 0
  {
    if n == 0 then 1 else 0x11_0000 * Power(n - 1)
  }

  /** The text as a number, its characters being the digits. */
  function Value(s: string): (v: nat)
    ensures v < Power(|s|)
  {
    if s == "" then 0 else 0x11_0000 * Value(s[..|s| - 1]) + s[|s| - 1] as int
  }

  lemma {:induction false} ValueOfSum(s: string, t: string)
    ensures Value(s + t) == Value(s) * Power(|t|) + Value(t)
  {
    if t == "" {
      assert s + t == s;
    } else {
      var u := t[..|t| - 1];
      assert (s + t)[..|s + t| - 1] == s + u && (s + t)[|s + t| - 1] == t[|t| - 1];
      ValueOfSum(s, u);
      LastDigit(s + t);
      LastDigit(t);
      hide Value, Power;
      OneMoreDigit(Value(s + u), Value(s), Power(|u|), Value(u));
    }
  }

  lemma LastDigit(s: string)
    requires s != ""
    ensures Value(s) == 0x11_0000 * Value(s[..|s| - 1]) + s[|s| - 1] as int && Power(|s|) == 0x11_0000 * Power(|s| - 1)
  {}

  lemma OneMoreDigit(x: nat, v: nat, p: nat, w: nat)
    requires x == v * p + w
    ensures 0x11_0000 * x == v * (0x11_0000 * p) + 0x11_0000 * w
  {}

  lemma {:induction false} ValueIsInjective(s: string, t: string)
    requires |s| == |t| && Value(s) == Value(t)
    ensures s == t
  {
    if s != "" {
      ValueIsInjective(s[..|s| - 1], t[..|t| - 1]);
      assert s == s[..|s| - 1] + [s[|s| - 1]] && t == t[..|t| - 1] + [t[|t| - 1]];
    }
  }

  /** What every round makes smaller when match and replacement are equally long. */
  function Order(s: string, m: string, r: string): nat {
    if Value(r) < Value(m) then Value(s) else Power(|s|) - Value(s)
  }

  lemma OrderFalls(s: string, m: string, r: string, k: nat)
    requires |m| == |r| && m != r && OccursAt(s, m, k)
    ensures |ReplaceAt(s, m, r, k)| == |s| && Order(ReplaceAt(s, m, r, k), m, r) < Order(s, m, r)
  {
    hide Value, Power;
    var a, b := s[..k], s[k + |m|..];
    assert s == a + m + b && ReplaceAt(s, m, r, k) == a + r + b;
    ReplacedValue(a, m, r, b);
    if Value(m) == Value(r) {
      ValueIsInjective(m, r);
    }
  }

  /** The texts compare as the parts in which they differ. */
  lemma ReplacedValue(a: string, m: string, r: string, b: string)
    requires |m| == |r|
    ensures Value(m) < Value(r) ==> Value(a + m + b) < Value(a + r + b)
    ensures Value(r) < Value(m) ==> Value(a + r + b) < Value(a + m + b)
  {
    hide Value, Power;
    ValueOfSum(a + m, b);
    ValueOfSum(a, m);
    ValueOfSum(a + r, b);
    ValueOfSum(a, r);
    ProductOrder(Value(a + m), Value(a + r), Power(|b|));
  }

  lemma ProductOrder(x: nat, y: nat, p: nat)
    requires p > 0
    ensures x < y ==> x * p < y * p
    ensures y < x ==> y * p < x * p
  {}

  /** The character array sSrc up to its terminator. */
  class CharBuffer {
    var text: string

    constructor (text: string)
      ensures this.text == text
    {
      this.text := text;
    }

    /** strstr: the first occurrence, or -1. */
    method Find(m: string) returns (k: int)
      ensures -1 <= k <= |text|
      ensures k >= 0 ==> OccursAt(text, m, k) && forall i: nat :: i < k ==> !OccursAt(text, m, i)
      ensures k == -1 <==> !Occurs(text, m)
    {
      k := 0;
      while k <= |text|
        invariant 0 <= k <= |text| + 1
        invariant forall i: nat :: i < k ==> !OccursAt(text, m, i)
      {
        if OccursAt(text, m, k) {
          return;
        }
        k := k + 1;
      }
      k := -1;
    }

    /**
      ZC_ReplaceStr. It stops with no match left when there is none to begin with, when the replacement is another
      text no longer than the match, or when no match can arise from a replacement. The text is then the one reached
      by replacing first matches one after the other; in the last case that is a single pass.
     */
    method ReplaceStr(m: string, r: string) returns (status: int)
      requires m != "" && (!Occurs(text, m) || (|r| <= |m| && r != m) || OneTime(m, r))
      modifies this
      ensures !Occurs(text, m)
      ensures exists run :: Rounds(run, old(text), text, m, r)
      ensures OneTime(m, r) ==> text == OnePass(old(text), m, r)
      ensures status == if old(Occurs(text, m)) then 0 else -1
      ensures status == -1 ==> text == old(text)
    {
      hide OnePass, OneTime, Power, Value, Order, Rounds;
      var findPos := Find(m);
      ghost var run := [text];
      StartRounds(text, m, r);
      if findPos < 0 {
        OnePassNoMatch(text, m, r);
        return -1;
      }
      ghost var done: nat := 0;
      while findPos >= 0
        invariant findPos >= 0 ==> OccursAt(text, m, findPos)
        invariant findPos >= 0 ==> forall i: nat :: i < findPos ==> !OccursAt(text, m, i)
        invariant findPos < 0 ==> !Occurs(text, m)
        invariant Rounds(run, old(text), text, m, r)
        invariant OneTime(m, r) ==> PassedTo(text, m, r, done, OnePass(old(text), m, r))
        invariant OneTime(m, r) || done == 0
        decreases if OneTime(m, r) then |text| - done else |text|, if |m| == |r| then Order(text, m, r) else 0
      {
        OccursFits(text, m, findPos);
        if OneTime(m, r) {
          FirstIsAhead(text, m, r, done, findPos, OnePass(old(text), m, r));
          FirstMatchReplaced(text, m, r, done, findPos, OnePass(old(text), m, r));
          done := findPos + |r|;
        } else if |m| == |r| {
          OrderFalls(text, m, r, findPos);
        }
        run := NextRound(run, old(text), text, m, r, findPos);
        text := text[..findPos] + r + text[findPos + |m|..];
        findPos := Find(m);
      }
      if OneTime(m, r) {
        NoMatchInRest(text, m, done);
        OnePassNoMatch(text[done..], m, r);
      }
      status := 0;
    }
  }

  lemma StartRounds(s: string, m: string, r: string)
    ensures Rounds([s], s, s, m, r)
  {}

  lemma NextRound(run: seq<string>, s: string, t: string, m: string, r: string, k: nat) returns (run': seq<string>)
    requires Rounds(run, s, t, m, r) && OccursAt(t, m, k) && forall i: nat :: i < k ==> !OccursAt(t, m, i)
    ensures Rounds(run', s, ReplaceAt(t, m, r, k), m, r)
  {
    var u, a, b := ReplaceAt(t, m, r, k), t[..k], t[k + |m|..];
    assert t == a + m + b && u == a + r + b;
    assert ReplacesFirst(t, u, m, r);
    run' := run + [u];
    hide ReplacesFirst, OccursAt;
  }

  /** The pass towards goal has been done up to here, and no match starts before. */
  ghost predicate PassedTo(s: string, m: string, r: string, done: nat, goal: string)
    requires m != ""
  {
    && done <= |s| && goal == s[..done] + OnePass(s[done..], m, r)
    && forall i: nat :: i < done ==> !OccursAt(s, m, i)
  }

  lemma FirstIsAhead(s: string, m: string, r: string, done: nat, k: nat, goal: string)
    requires m != "" && PassedTo(s, m, r, done, goal) && OccursAt(s, m, k)
    ensures done <= k
  {}

  /** One round of the loop: the pass has been done up to the end of the latest replacement. */
  lemma FirstMatchReplaced(s: string, m: string, r: string, done: nat, k: nat, goal: string)
    requires m != "" && OneTime(m, r)
    requires done <= k && OccursAt(s, m, k) && forall i: nat :: i < k ==> !OccursAt(s, m, i)
    requires goal == s[..done] + OnePass(s[done..], m, r)
    ensures var t := ReplaceAt(s, m, r, k);
            && k + |r| <= |t| && goal == t[..k + |r|] + OnePass(t[k + |r|..], m, r)
            && forall i: nat :: i < k + |r| ==> !OccursAt(t, m, i)
  {
    hide OccursAt, OnePass, OneTime;
    OccursFits(s, m, k);
    NothingBehind(s, m, r, k);
    FirstInRest(s, m, done, k);
    OnePassSkip(s[done..], m, r, k - done);
    Reassemble(s, m, r, done, k);
    Regroup(s[..done], s[done..][..k - done], r, OnePass(s[k + |m|..], m, r));
  }

  lemma NoMatchInRest(s: string, m: string, done: nat)
    requires done <= |s| && !Occurs(s, m)
    ensures !Occurs(s[done..], m)
  {
    forall i: nat | i <= |s| - done ensures !OccursAt(s[done..], m, i) {
      ShiftOccurs(s, m, done, i);
    }
  }

  /** The text after one replacement, split behind the replacement. */
  lemma Reassemble(s: string, m: string, r: string, done: nat, k: nat)
    requires m != "" && done <= k && k + |m| <= |s|
    ensures var t, rest, i := ReplaceAt(s, m, r, k), s[done..], k - done;
            && t[k + |r|..] == s[k + |m|..]
            && rest[i + |m|..] == s[k + |m|..]
            && t[..k + |r|] == s[..done] + rest[..i] + r
  {}

  /** ZC_ReplaceStr2: every match becomes '!', then every '!' becomes the replacement. */
  method ReplaceStr2(buffer: CharBuffer, m: string, r: string)
    requires m != "" && '!' !in m && '!' !in r
    modifies buffer
    ensures buffer.text == OnePass(OnePass(old(buffer.text), m, "!"), "!", r)
  {
    NothingShared(m, "!");
    if r != "" {
      NothingShared("!", r);
    }
    var status := buffer.ReplaceStr(m, "!");
    status := buffer.ReplaceStr("!", r);
  }

  /**
    Marking the matches with '!' and replacing the marks is one left-to-right pass, even when the
    replacement contains the match, exactly if the source text has no '!' of its own.
   */
  lemma MarkingIsOnePass(s: string, m: string, r: string)
    requires m != "" && '!' !in m && '!' !in r
    ensures OnePass(OnePass(s, m, "!"), "!", r) == OnePass(s, m, r) <==> '!' !in s
  {
    NoMarkLeft(OnePass(s, m, "!"), r);
    if '!' in s {
      MarkSurvives(s, m, r);
    } else {
      MarksStandForMatches(s, m, r);
    }
  }

  lemma {:induction false} NoMarkLeft(s: string, r: string)
    requires '!' !in r
    ensures '!' !in OnePass(s, "!", r)
  {
    if s != "" {
      NoMarkLeft(s[1..], r);
    }
  }

  lemma {:induction false} MarkSurvives(s: string, m: string, r: string)
    requires m != "" && '!' !in m && '!' in s
    ensures '!' in OnePass(s, m, r)
  {
    if |s| >= |m| && OccursAt(s, m, 0) {
      assert s == m + s[|m|..];
      MarkSurvives(s[|m|..], m, r);
    } else if |s| >= |m| && s[0] != '!' {
      assert s == [s[0]] + s[1..];
      MarkSurvives(s[1..], m, r);
    }
  }

  lemma {:induction false} MarksStandForMatches(s: string, m: string, r: string)
    requires m != "" && '!' !in s
    ensures OnePass(OnePass(s, m, "!"), "!", r) == OnePass(s, m, r)
  {
    if |s| < |m| {
      OnePassUnmarked(s, r);
    } else if OccursAt(s, m, 0) {
      var t := OnePass(s[|m|..], m, "!");
      MarksStandForMatches(s[|m|..], m, r);
      assert OccursAt("!" + t, "!", 0) && ("!" + t)[1..] == t;
    } else {
      var t := OnePass(s[1..], m, "!");
      MarksStandForMatches(s[1..], m, r);
      assert s[0] in s;
      assert !OccursAt([s[0]] + t, "!", 0) && ([s[0]] + t)[1..] == t;
    }
  }

  lemma {:induction false} OnePassUnmarked(s: string, r: string)
    requires '!' !in s
    ensures OnePass(s, "!", r) == s
  {
    if s != "" {
      OnePassUnmarked(s[1..], r);
    }
  }

  /** When the replacement contains the match, every round of ZC_ReplaceStr leaves a match behind. */
  lemma NeverStops(s: string, m: string, r: string, k: nat)
    requires OccursAt(s, m, k) && Occurs(r, m)
    ensures Occurs(ReplaceAt(s, m, r, k), m)
  {
    var i: nat :| i <= |r| && OccursAt(r, m, i);
    var t := ReplaceAt(s, m, r, k);
    assert t[k + i..k + i + |m|] == r[i..i + |m|];
    assert OccursAt(t, m, k + i);
  }
}
