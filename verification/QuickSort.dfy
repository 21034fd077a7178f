/**
  The sorts of zc/src/ZC_quicksort.c. The four copies of the source differ only
  in the field compared and its direction; they are one method here, ascending
  in a key (the negated value for the descending copy).
 */
module QuickSort {

  ghost predicate SortedBy<T>(s: seq<T>, key: T -> real) {
    forall i, j :: 0 <= i <= j < |s| ==> key(s[i]) <= key(s[j])
  }

  ghost predicate AtMost<T>(s: seq<T>, key: T -> real, bound: real) {
    forall i :: 0 <= i < |s| ==> key(s[i]) <= bound
  }

  /** t is s with the elements at lo..hi reordered. */
  ghost predicate Permuted<T>(s: seq<T>, t: seq<T>, lo: nat, hi: nat)
    requires lo <= hi <= |s|
  {
    && |t| == |s|
    && (forall i :: 0 <= i < |s| && !(lo <= i < hi) ==> t[i] == s[i])
    && multiset(t[lo..hi]) == multiset(s[lo..hi])
  }

  lemma SwapPermuted<T>(s: seq<T>, i: nat, j: nat, lo: nat, hi: nat)
    requires lo <= i < hi <= |s| && lo <= j < hi
    ensures Permuted(s, s[i := s[j]][j := s[i]], lo, hi)
  {
    var u := s[lo..hi];
    var t := s[i := s[j]][j := s[i]];
    assert t[lo..hi] == u[i - lo := u[j - lo]][j - lo := u[i - lo]];
  }

  lemma PermutedRefl<T>(s: seq<T>, lo: nat, hi: nat)
    requires lo <= hi <= |s|
    ensures Permuted(s, s, lo, hi)
  {}

  lemma PermutedNothing<T>(s: seq<T>, t: seq<T>, lo: nat)
    requires lo <= |s| && Permuted(s, t, lo, lo)
    ensures t == s
  {}

  lemma SortedShort<T>(s: seq<T>, key: T -> real)
    requires |s| <= 1
    ensures SortedBy(s, key)
  {}

  lemma PermutedTrans<T>(s: seq<T>, t: seq<T>, u: seq<T>, lo: nat, hi: nat)
    requires lo <= hi <= |s| && Permuted(s, t, lo, hi) && Permuted(t, u, lo, hi)
    ensures Permuted(s, u, lo, hi)
  {}

  lemma PermutedWiden<T>(s: seq<T>, t: seq<T>, lo: nat, hi: nat, lo': nat, hi': nat)
    requires lo' <= lo <= hi <= hi' <= |s| && Permuted(s, t, lo, hi)
    ensures Permuted(s, t, lo', hi')
  {
    assert s[lo'..hi'] == s[lo'..lo] + s[lo..hi] + s[hi..hi'];
    assert t[lo'..hi'] == t[lo'..lo] + t[lo..hi] + t[hi..hi'];
    assert s[lo'..lo] == t[lo'..lo] && s[hi..hi'] == t[hi..hi'];
  }

  /** A bound on the elements at lo..hi survives their reordering. */
  lemma PermutedAtMost<T>(s: seq<T>, t: seq<T>, lo: nat, hi: nat, key: T -> real, bound: real)
    requires lo <= hi <= |s| && Permuted(s, t, lo, hi) && AtMost(s[lo..hi], key, bound)
    ensures AtMost(t[lo..hi], key, bound)
  {
    var u := t[lo..hi];
    forall i | 0 <= i < |u| ensures key(u[i]) <= bound {
      assert u[i] in multiset(u);
      assert u[i] in multiset(s[lo..hi]);
    }
  }

  /** The left-hand scan of the partition. */
  method Scan<T>(list: array<T>, i0: nat, end: nat, key: T -> real) returns (i: nat)
    requires i0 <= end < list.Length
    ensures i0 <= i <= end
    ensures forall k :: i0 <= k < i ==> key(list[k]) <= key(list[end])
    ensures i < end ==> key(list[i]) > key(list[end])
  {
    i := i0;
    while key(list[i]) <= key(list[end]) && i < end
      invariant i0 <= i <= end
      invariant forall k :: i0 <= k < i ==> key(list[k]) <= key(list[end])
      decreases end - i
    {
      i := i + 1;
    }
  }

  /** The right-hand scan of the partition: it goes down from j0 and stops at the pivot at the latest. */
  method ScanDown<T>(list: array<T>, j0: nat, pivot: nat, key: T -> real) returns (j: nat)
    requires pivot <= j0 < list.Length
    ensures pivot <= j <= j0
    ensures forall k :: j < k <= j0 ==> key(list[k]) > key(list[pivot])
    ensures key(list[j]) <= key(list[pivot])
  {
    j := j0;
    while key(list[j]) > key(list[pivot])
      invariant pivot <= j <= j0
      invariant forall k :: j < k <= j0 ==> key(list[k]) > key(list[pivot])
      decreases j
    {
      j := j - 1;
    }
  }

  /**
    ZC_divide: the right-hand scan starts on the pivot position and never leaves it, and each exchange
    puts a larger element there, so the call always returns end, with a greatest element at that position.
   */
  method Divide<T>(list: array<T>, start: nat, end: nat, key: T -> real) returns (mid: nat)
    requires start < end < list.Length
    modifies list
    ensures mid == end
    ensures forall k :: start <= k <= end ==> key(list[k]) <= key(list[end])
    ensures Permuted(old(list[..]), list[..], start, end + 1)
  {
    hide Permuted;
    ghost var s0 := list[..];
    PermutedRefl(s0, start, end + 1);
    var i, j := start, end;
    var pivot := end;
    while i < j
      invariant start <= i <= end && j == end
      invariant forall k :: start <= k < i ==> key(list[k]) <= key(list[end])
      invariant Permuted(s0, list[..], start, end + 1)
      decreases end - i, if key(list[i]) > key(list[end]) then 1 else 0
    {
      i := Scan(list, i, end, key);
      j := ScanDown(list, j, pivot, key);
      if i < j {
        Exchange(list, i, j, start, end + 1, s0);
      }
    }
    Exchange(list, j, pivot, start, end + 1, s0);
    mid := j;
  }

  method Exchange<T>(list: array<T>, i: nat, j: nat, ghost lo: nat, ghost hi: nat, ghost s0: seq<T>)
    requires lo <= i < hi <= list.Length == |s0| && lo <= j < hi
    requires Permuted(s0, list[..], lo, hi)
    modifies list
    ensures list[i] == old(list[j]) && list[j] == old(list[i])
    ensures forall k :: 0 <= k < list.Length && k != i && k != j ==> list[k] == old(list[k])
    ensures Permuted(s0, list[..], lo, hi)
  {
    hide Permuted;
    ghost var s := list[..];
    SwapPermuted(s, i, j, lo, hi);
    var temp := list[i];
    list[i] := list[j];
    list[j] := temp;
    assert list[..] == s[i := s[j]][j := s[i]];
    PermutedTrans(s0, s, list[..], lo, hi);
  }

  /** ZC_quick_sort: ordered, and a rearrangement of what was there. */
  method Sort<T>(list: array<T>, start: nat, end: int, key: T -> real)
    requires start <= end + 1 <= list.Length
    modifies list
    ensures SortedBy(list[start..end + 1], key)
    ensures Permuted(old(list[..]), list[..], start, end + 1)
    decreases end + 1 - start
  {
    hide Permuted, SortedBy;
    ghost var s0 := list[..];
    if start < end {
      var mid := Divide(list, start, end, key);
      ghost var s1 := list[..];
      Sort(list, start, mid - 1, key);
      ghost var s2 := list[..];
      TopStays(s1, s2, start, end, key);
      PermutedWiden(s1, s2, start, end, start, end + 1);
      PermutedTrans(s0, s1, s2, start, end + 1);
      assert list[start..end] == s2[start..end] && list[start..end + 1] == s2[start..end + 1];
      Sort(list, mid + 1, end, key);
      PermutedNothing(s2, list[..], end + 1);
      assert list[start..end + 1] == list[..][start..end + 1];
    } else {
      PermutedRefl(s0, start, end + 1);
      SortedShort(list[start..end + 1], key);
    }
  }

  lemma TopStays<T>(s: seq<T>, t: seq<T>, start: nat, end: nat, key: T -> real)
    requires start <= end < |s| && Permuted(s, t, start, end)
    requires forall k :: start <= k <= end ==> key(s[k]) <= key(s[end])
    requires SortedBy(t[start..end], key)
    ensures SortedBy(t[start..end + 1], key)
  {
    PermutedAtMost(s, t, start, end, key, key(s[end]));
    var u := t[start..end + 1];
    var v := t[start..end];
    assert u == v + [s[end]];
    forall i, j | 0 <= i <= j < |u| ensures key(u[i]) <= key(u[j]) {
      if j < |v| {
        assert u[i] == v[i] && u[j] == v[j];
      } else if i < |v| {
        assert u[i] == v[i] && u[j] == s[end];
      }
    }
  }
}
