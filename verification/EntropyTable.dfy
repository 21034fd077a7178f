/**
  The open-addressing counter table of zc/src/ZC_DataProperty.c (hash_init,
  hash_put, hash_get): linear probing with wraparound.
 */
module EntropyTable {

  datatype HashEntry = HashEntry(flag: int, key: nat, num: int)

  /** (size_t)-1, what hash_get returns for an absent key. */
  const ABSENT := 0xFFFF_FFFF_FFFF_FFFF

  /** The j-th slot probed for a key in a table of n slots. */
  function Probe(key: nat, j: nat, n: nat): (i: nat)
    requires 0 <= j < n
    ensures i < n
  {
    var h := key % n + j;
    if h < n then h else h - n
  }

  /** How many slots are probed for a key before slot i. */
  function Distance(key: nat, i: nat, n: nat): (d: nat)
    requires i < n
    ensures d < n && Probe(key, d, n) == i
    ensures forall j :: 0 <= j < n && Probe(key, j, n) == i ==> j == d
  {
    var h := key % n;
    if i >= h then i - h else i + n - h
  }

  predicate Used(s: seq<HashEntry>, i: nat)
    requires i < |s|
  {
    s[i].flag != 0
  }

  /** The first d slots probed for the key are used and hold other keys. */
  ghost predicate Passed(s: seq<HashEntry>, key: nat, d: nat)
    requires d <= |s|
  {
    forall j :: 0 <= j < d ==> Used(s, Probe(key, j, |s|)) && s[Probe(key, j, |s|)].key != key
  }

  /** No gap on the way to any stored key. */
  ghost predicate NoGaps(s: seq<HashEntry>) {
    forall i :: 0 <= i < |s| && Used(s, i) ==> Passed(s, s[i].key, Distance(s[i].key, i, |s|))
  }

  ghost predicate Holds(s: seq<HashEntry>, key: nat) {
    exists i :: 0 <= i < |s| && Used(s, i) && s[i].key == key
  }

  /** The table stores, for every key put so far, how often it was put. */
  ghost predicate Counts(s: seq<HashEntry>, puts: multiset<nat>) {
    && NoGaps(s)
    && (forall i :: 0 <= i < |s| && Used(s, i) ==> s[i].num == puts[s[i].key] > 0)
    && (forall k :: k in puts ==> Holds(s, k))
  }

  /** A key is stored in one slot only. */
  lemma UniqueSlot(s: seq<HashEntry>, i: nat, j: nat)
    requires NoGaps(s) && i < |s| && j < |s| && Used(s, i) && Used(s, j) && s[i].key == s[j].key
    ensures i == j
  {
    var k := s[i].key;
    var d, e := Distance(k, i, |s|), Distance(k, j, |s|);
    assert Passed(s, k, d) && Passed(s, k, e);
    assert Probe(k, d, |s|) == i && Probe(k, e, |s|) == j;
  }

  /** A key whose probe sequence reaches an unused slot is not stored anywhere. */
  lemma AbsentKey(s: seq<HashEntry>, key: nat, d: nat)
    requires NoGaps(s) && d < |s| && Passed(s, key, d) && !Used(s, Probe(key, d, |s|))
    ensures !Holds(s, key)
  {
    forall i | 0 <= i < |s| && Used(s, i) ensures s[i].key != key {
      var e := Distance(key, i, |s|);
      assert Probe(key, e, |s|) == i;
      assert Passed(s, s[i].key, Distance(s[i].key, i, |s|));
    }
  }

  lemma FirstProbe(key: nat, n: nat)
    requires n > 0
    ensures key % n == Probe(key, 0, n)
  {}

  lemma NextProbe(key: nat, j: nat, n: nat)
    requires j < n
    ensures (Probe(key, j, n) + 1) % n == if j + 1 < n then Probe(key, j + 1, n) else key % n
  {
    var h := Probe(key, j, n) + 1;
    if h < n {
      assert h % n == h;
    } else {
      assert h % n == 0;
    }
  }

  lemma StoreNew(s: seq<HashEntry>, key: nat, d: nat, puts: multiset<nat>)
    requires Counts(s, puts) && d < |s| && Passed(s, key, d) && !Used(s, Probe(key, d, |s|))
    ensures Counts(s[Probe(key, d, |s|) := HashEntry(1, key, 1)], puts + multiset{key})
  {
    var p := Probe(key, d, |s|);
    var t := s[p := HashEntry(1, key, 1)];
    AbsentKey(s, key, d);
    assert puts[key] == 0;
    forall i | 0 <= i < |t| && Used(t, i) ensures Passed(t, t[i].key, Distance(t[i].key, i, |t|)) {
      if i == p {
        assert Passed(s, key, d);
      } else {
        assert Used(s, i) && Passed(s, s[i].key, Distance(s[i].key, i, |s|));
      }
    }
    forall k | k in puts + multiset{key} ensures Holds(t, k) {
      if k == key {
        assert Used(t, p) && t[p].key == k;
      } else {
        var i :| 0 <= i < |s| && Used(s, i) && s[i].key == k;
        assert Used(t, i) && t[i].key == k;
      }
    }
  }

  lemma StoreAgain(s: seq<HashEntry>, p: nat, puts: multiset<nat>)
    requires Counts(s, puts) && p < |s| && Used(s, p)
    ensures Counts(s[p := s[p].(num := s[p].num + 1)], puts + multiset{s[p].key})
  {
    var key := s[p].key;
    var t := s[p := s[p].(num := s[p].num + 1)];
    forall i | 0 <= i < |t| && Used(t, i)
      ensures Passed(t, t[i].key, Distance(t[i].key, i, |t|))
      ensures t[i].num == (puts + multiset{key})[t[i].key] > 0
    {
      assert Used(s, i) && Passed(s, s[i].key, Distance(s[i].key, i, |s|));
      if s[i].key == key {
        UniqueSlot(s, i, p);
      }
    }
    forall k | k in puts + multiset{key} ensures Holds(t, k) {
      if k == key {
        assert Used(t, p) && t[p].key == k;
      } else {
        var i :| 0 <= i < |s| && Used(s, i) && s[i].key == k;
        assert Used(t, i) && t[i].key == k;
      }
    }
  }

  // ----- the code -----

  method HashInit(table: array<HashEntry>)
    modifies table
    ensures Counts(table[..], multiset{})
  {
    for i := 0 to table.Length
      invariant forall j :: 0 <= j < i ==> table[j].flag == 0
    {
      table[i] := table[i].(flag := 0);
    }
    assert forall i :: 0 <= i < table.Length ==> !Used(table[..], i);
  }

  /** hash_put; ok is false where the source reports a full table and exits. */
  method HashPut(table: array<HashEntry>, key: nat, ghost puts: multiset<nat>) returns (ok: bool)
    requires table.Length > 0 && Counts(table[..], puts)
    modifies table
    ensures ok ==> Counts(table[..], puts + multiset{key})
    ensures !ok <==> old(!Holds(table[..], key) && forall i :: 0 <= i < table.Length ==> Used(table[..], i))
    ensures !ok ==> table[..] == old(table[..])
  {
    hide Probe, Distance, NoGaps;
    var n := table.Length;
    ghost var s := table[..];
    var hash := key % n;
    FirstProbe(key, n);
    var i := 0;
    while table[hash].flag != 0 && table[hash].key != key && i < n
      invariant i <= n && hash == (if i < n then Probe(key, i, n) else key % n)
      invariant table[..] == s && Passed(s, key, i)
      decreases n - i
    {
      assert Used(s, hash) && s[hash].key != key;
      NextProbe(key, i, n);
      hash := (hash + 1) % n;
      i := i + 1;
    }
    if i == n {
      ok := false;
      forall j | 0 <= j < n ensures Used(s, j) && s[j].key != key {
        assert j == Probe(key, Distance(key, j, n), n);
      }
    } else {
      ok := true;
      assert s[hash] == table[hash];
      if table[hash].flag != 0 {
        StoreAgain(s, hash, puts);
        table[hash] := table[hash].(num := table[hash].num + 1);
        assert table[..] == s[hash := s[hash].(num := s[hash].num + 1)];
      } else {
        StoreNew(s, key, i, puts);
        table[hash] := HashEntry(1, key, 1);
        assert table[..] == s[hash := HashEntry(1, key, 1)];
        assert !Used(s, hash);
      }
    }
  }

  /** hash_get; without an unused slot an absent key would be probed for ever. */
  method HashGet(table: array<HashEntry>, key: nat, ghost puts: multiset<nat>) returns (num: int)
    requires table.Length > 0 && Counts(table[..], puts)
    requires Holds(table[..], key) || exists i :: 0 <= i < table.Length && !Used(table[..], i)
    ensures num == if key in puts then puts[key] else ABSENT
  {
    hide Probe, Distance, NoGaps;
    var n := table.Length;
    ghost var s := table[..];
    ghost var stop :| 0 <= stop < n && (!Used(s, stop) || s[stop].key == key);
    ghost var d, j := Distance(key, stop, n), 0;
    var hash := key % n;
    FirstProbe(key, n);
    while table[hash].flag != 0 && table[hash].key != key
      invariant j <= d && hash == Probe(key, j, n) && Passed(s, key, j)
      decreases d - j
    {
      NextProbe(key, j, n);
      hash := (hash + 1) % n;
      j := j + 1;
    }
    if table[hash].flag == 0 {
      AbsentKey(s, key, j);
      num := ABSENT;
    } else {
      assert Used(s, hash);
      num := table[hash].num;
    }
  }

  // ----- whole runs -----

  ghost function StoredKeys(s: seq<HashEntry>, m: nat): set<nat>
    requires m <= |s|
  {
    set i | 0 <= i < m && Used(s, i) :: s[i].key
  }

  lemma {:induction false} StoredCount(s: seq<HashEntry>, m: nat)
    requires NoGaps(s) && m <= |s|
    ensures |StoredKeys(s, m)| <= m
    ensures |StoredKeys(s, m)| == m <==> forall i :: 0 <= i < m ==> Used(s, i)
  {
    hide NoGaps, StoredKeys;
    if m == 0 {
      NothingStored(s);
    } else {
      StoredCount(s, m - 1);
      StoredStep(s, m - 1);
    }
  }

  lemma NothingStored(s: seq<HashEntry>)
    ensures StoredKeys(s, 0) == {}
  {}

  lemma StoredStep(s: seq<HashEntry>, i: nat)
    requires NoGaps(s) && i < |s|
    ensures StoredKeys(s, i + 1) == StoredKeys(s, i) + if Used(s, i) then {s[i].key} else {}
    ensures Used(s, i) ==> s[i].key !in StoredKeys(s, i)
  {
    hide NoGaps;
    if Used(s, i) {
      forall j | 0 <= j < i && Used(s, j) ensures s[j].key != s[i].key {
        OtherSlot(s, i, j);
      }
    }
  }

  lemma OtherSlot(s: seq<HashEntry>, i: nat, j: nat)
    requires NoGaps(s) && i < |s| && j < |s| && Used(s, i) && Used(s, j) && i != j
    ensures s[i].key != s[j].key
  {
    hide NoGaps;
    if s[i].key == s[j].key {
      UniqueSlot(s, i, j);
    }
  }

  ghost function Distinct(keys: seq<nat>): set<nat> {
    set k | k in keys
  }

  lemma StoredAreDistinct(s: seq<HashEntry>, keys: seq<nat>)
    requires Counts(s, multiset(keys))
    ensures StoredKeys(s, |s|) == Distinct(keys)
  {
    forall k | k in Distinct(keys) ensures k in StoredKeys(s, |s|) {
      assert k in multiset(keys);
      assert Holds(s, k);
    }
  }

  /**
    A run of puts on a fresh table succeeds exactly when the distinct keys fit, and then every key's
    count is stored; if a slot is left over, every later hash_get terminates.
   */
  method PutAll(table: array<HashEntry>, keys: seq<nat>) returns (ok: bool)
    requires table.Length > 0
    modifies table
    ensures ok <==> |Distinct(keys)| <= table.Length
    ensures ok ==> Counts(table[..], multiset(keys))
    ensures |Distinct(keys)| < table.Length ==> exists i :: 0 <= i < table.Length && !Used(table[..], i)
  {
    hide Counts, NoGaps, Distinct, StoredKeys;
    HashInit(table);
    assert multiset(keys[..0]) == multiset{};
    for i := 0 to |keys|
      invariant Counts(table[..], multiset(keys[..i]))
    {
      ghost var s := table[..];
      ok := HashPut(table, keys[i], multiset(keys[..i]));
      assert keys[..i + 1] == keys[..i] + [keys[i]];
      if !ok {
        TooManyKeys(s, keys, i);
        return;
      }
    }
    assert keys[..|keys|] == keys;
    ok := true;
    AllKeysFit(table[..], keys);
  }

  /** A put that fails shows one distinct key more than there are slots. */
  lemma TooManyKeys(s: seq<HashEntry>, keys: seq<nat>, i: nat)
    requires i < |keys| && Counts(s, multiset(keys[..i]))
    requires !Holds(s, keys[i]) && forall j :: 0 <= j < |s| ==> Used(s, j)
    ensures |Distinct(keys)| > |s|
  {
    hide NoGaps;
    StoredAreDistinct(s, keys[..i]);
    StoredCount(s, |s|);
    var before := Distinct(keys[..i]);
    assert keys[i] !in before by {
      assert forall j :: 0 <= j < |s| && Used(s, j) ==> s[j].key != keys[i];
    }
    SubsetSize(before + {keys[i]}, Distinct(keys));
  }

  /** If all puts succeeded, the distinct keys fit, and a slot is free if they are fewer. */
  lemma AllKeysFit(s: seq<HashEntry>, keys: seq<nat>)
    requires Counts(s, multiset(keys))
    ensures |Distinct(keys)| <= |s|
    ensures |Distinct(keys)| < |s| ==> exists i :: 0 <= i < |s| && !Used(s, i)
  {
    hide NoGaps;
    StoredAreDistinct(s, keys);
    StoredCount(s, |s|);
  }

  lemma {:induction false} SubsetSize(a: set<nat>, b: set<nat>)
    requires a <= b
    ensures |a| <= |b|
  {
    if a != {} {
      var x :| x in a;
      SubsetSize(a - {x}, b - {x});
    }
  }

  /** After any run of puts that leaves a free slot, hash_get returns exactly how often the key was put. */
  method PutAllThenGet(table: array<HashEntry>, keys: seq<nat>, key: nat) returns (num: int)
    requires |Distinct(keys)| < table.Length
    modifies table
    ensures num == if key in keys then multiset(keys)[key] else ABSENT
  {
    var ok := PutAll(table, keys);
    num := HashGet(table, key, multiset(keys));
  }
}
