/** The separate-chaining hash table of zc/src/ZC_Hashtable.c. */
module ChainedTable {

  /** A stored void pointer; 0 is NULL. */
  type Pointer = nat

  const NULL: Pointer := 0
  const HASHTABLE_SIZE := 65536
  const ULONG_MAX := 0xFFFF_FFFF_FFFF_FFFF

  /** A char added to an unsigned long: bytes from 128 up count as negative. */
  function SignExtended(c: char): nat {
    if 128 <= c as int < 256 then ULONG_MAX + 1 - (256 - c as int) else c as int
  }

  function HashStep(h: nat, c: char): (r: nat)
    ensures r <= ULONG_MAX
  {
    (h * 256 % (ULONG_MAX + 1) + SignExtended(c)) % (ULONG_MAX + 1)
  }

  /** The value of the hash loop from character i on. */
  function HashFrom(h: nat, key: string, i: nat): nat
    requires i <= |key|
    decreases |key| - i
  {
    if h < ULONG_MAX && i < |key| then HashFrom(HashStep(h, key[i]), key, i + 1) else h
  }

  function HashOf(key: string, capacity: nat): (b: nat)
    requires capacity > 0
    ensures b < capacity
  {
    HashFrom(0, key, 0) % capacity
  }

  class Entry {
    const key: string
    var value: Pointer
    var next: Entry?

    /** ht_newpair. */
    constructor (key: string, value: Pointer)
      ensures this.key == key && this.value == value && this.next == null
    {
      this.key, this.value, this.next := key, value, null;
    }
  }

  /** Chain c starts at head and its links follow its order. */
  ghost predicate Linked(head: Entry?, c: seq<Entry>)
    reads c
  {
    && head == (if c == [] then null else c[0])
    && forall i {:trigger c[i].next} :: 0 <= i < |c| ==> c[i].next == if i + 1 < |c| then c[i + 1] else null
  }

  class HashTable {
    const capacity: nat
    var count: nat
    var table: array<Entry?>

    /** The chains as sequences, the entries they hold, and the map they stand for. */
    ghost var bins: seq<seq<Entry>>
    ghost var nodes: set<Entry>
    ghost var Contents: map<string, Pointer>

    function Bin(key: string): (b: nat)
      requires capacity > 0
      ensures b < capacity
    {
      HashOf(key, capacity)
    }

    /** The chain of bin b is linked and its keys belong there, without repetition. */
    ghost predicate ChainOk(b: nat)
      reads this`table, this`bins, this`nodes, table, nodes
      requires capacity == table.Length == |bins| && b < capacity
    {
      && (forall e :: e in bins[b] ==> e in nodes && Bin(e.key) == b)
      && Linked(table[b], bins[b])
      && (forall i, j :: 0 <= i < j < |bins[b]| ==> bins[b][i].key != bins[b][j].key)
    }

    ghost predicate MapOk()
      reads this, nodes
      requires capacity == |bins| > 0
    {
      && (forall e :: e in nodes ==> e.key in Contents && Contents[e.key] == e.value && e in bins[Bin(e.key)])
      && (forall k :: k in Contents ==> exists e :: e in nodes && e.key == k)
      && count == |Contents|
    }

    lemma MapIs()
      requires capacity == |bins| > 0
      requires forall e :: e in nodes ==> e.key in Contents && Contents[e.key] == e.value && e in bins[Bin(e.key)]
      requires forall k :: k in Contents ==> exists e :: e in nodes && e.key == k
      requires count == |Contents|
      ensures MapOk()
    {}

    ghost predicate Valid()
      reads this, table, nodes
    {
      && 0 < capacity == table.Length == |bins|
      && (forall b :: 0 <= b < capacity ==> ChainOk(b))
      && MapOk()
    }

    /** ht_create, for a positive capacity; the source returns NULL otherwise. */
    constructor (capacity: nat)
      requires capacity > 0
      ensures Valid() && Contents == map[] && this.capacity == capacity && fresh(table) && nodes == {}
    {
      this.capacity := capacity;
      count := 0;
      table := new Entry?[capacity](_ => null);
      bins := seq(capacity, _ => []);
      nodes := {};
      Contents := map[];
    }

    /** The two statements of the hash loop: a shift and the addition of a signed char, on an unsigned long. */
    static method AddChar(h0: nat, c: char) returns (h: nat)
      ensures h == HashStep(h0, c)
    {
      var signed := if 128 <= c as int < 256 then c as int - 256 else c as int;
      h := h0 * 256 % (ULONG_MAX + 1);
      h := (h + signed) % (ULONG_MAX + 1);
    }

    /** ht_hash. */
    method Hash(key: string) returns (b: nat)
      requires capacity > 0
      ensures b == Bin(key)
    {
      var h: nat := 0;
      var i: nat := 0;
      while h < ULONG_MAX && i < |key|
        invariant i <= |key| && HashFrom(h, key, i) == HashFrom(0, key, 0)
        decreases |key| - i
      {
        hide HashStep;
        h := AddChar(h, key[i]);
        i := i + 1;
      }
      b := h % capacity;
    }

    /** The walk along a chain: the entry of the key, or null, and the entry before it. */
    method Walk(bin: nat, key: string) returns (pair: Entry?, last: Entry?, ghost i: nat)
      requires Valid() && bin < capacity
      ensures i <= |bins[bin]| && pair == if i < |bins[bin]| then bins[bin][i] else null
      ensures last == if i == 0 then null else bins[bin][i - 1]
      ensures pair == null ==> i == |bins[bin]| && (bin == Bin(key) ==> key !in Contents)
      ensures pair != null ==> pair in nodes && pair.key == key && bin == Bin(key)
    {
      hide Bin;
      ghost var c := bins[bin];
      assert ChainOk(bin);
      pair, last, i := table[bin], null, 0;
      while pair != null && pair.key != key
        invariant i <= |c| && pair == (if i < |c| then c[i] else null)
        invariant last == (if i == 0 then null else c[i - 1])
        invariant forall j :: 0 <= j < i ==> c[j].key != key
        decreases |c| - i
      {
        last := pair;
        pair := pair.next;
        i := i + 1;
      }
    }

    /** ht_get. */
    method Get(key: string) returns (value: Pointer)
      requires Valid()
      ensures value == if key in Contents then Contents[key] else NULL
    {
      hide Bin, ChainOk;
      var bin := Hash(key);
      var pair, last, i := Walk(bin, key);
      if pair == null {
        value := NULL;
      } else {
        value := pair.value;
      }
    }

    /** ht_set. */
    method Set(key: string, value: Pointer)
      requires Valid()
      modifies this, table, nodes
      ensures Valid() && table == old(table) && fresh(nodes - old(nodes))
      ensures Contents == old(Contents)[key := value]
    {
      hide Bin, ChainOk, MapOk;
      var bin := Hash(key);
      var pair, last, i := Walk(bin, key);
      if pair != null {
        Replace(pair, value);
      } else {
        Append(bin, key, value, last);
      }
    }

    /** A known key gets a new value. */
    method Replace(e: Entry, value: Pointer)
      requires Valid() && e in nodes
      modifies this`Contents, e`value
      ensures Valid() && Contents == old(Contents)[e.key := value]
    {
      hide Bin;
      assert ChainOk(Bin(e.key));
      e.value := value;
      Contents := Contents[e.key := value];
      forall b | 0 <= b < capacity ensures ChainOk(b) {
        assert old(ChainOk(b));
      }
      forall f | f in nodes ensures f.key == e.key ==> f == e {
        assert e in bins[Bin(e.key)] && f in bins[Bin(f.key)];
      }
    }

    /** A new key goes to the end of its chain. */
    method Append(bin: nat, key: string, value: Pointer, last: Entry?)
      requires Valid() && bin == Bin(key) && key !in Contents
      requires last == if bins[bin] == [] then null else bins[bin][|bins[bin]| - 1]
      modifies this, table, nodes
      ensures Valid() && table == old(table) && fresh(nodes - old(nodes))
      ensures Contents == old(Contents)[key := value]
    {
      hide Bin, Linked;
      ghost var before := nodes;
      assert ChainOk(bin);
      assert forall e :: e in bins[bin] ==> e.key != key;
      var newpair := new Entry(key, value);
      LinkEntry(bin, newpair, last);
      hide ChainOk;
      Record(newpair, before);
    }

    /** Counts a linked entry whose key is new. */
    method Record(e: Entry, ghost before: set<Entry>)
      requires 0 < capacity == table.Length == |bins| && (forall b :: 0 <= b < capacity ==> ChainOk(b))
      requires nodes == before + {e} && e !in before && e in bins[Bin(e.key)]
      requires forall x :: x in before ==>
                 x.key in Contents && Contents[x.key] == x.value && x in bins[Bin(x.key)]
      requires forall k :: k in Contents ==> exists x :: x in before && x.key == k
      requires count == |Contents| && e.key !in Contents
      modifies this`Contents, this`count
      ensures Valid() && Contents == old(Contents)[e.key := e.value]
    {
      hide Bin, ChainOk, MapOk;
      ghost var m := Contents;
      KeysGrow(e, before, m, m[e.key := e.value]);
      Contents := m[e.key := e.value];
      count := count + 1;
      assert MapOk() by { MapIs(); }
    }

    /** The keys of the entries once one more is linked. */
    lemma KeysGrow(e: Entry, before: set<Entry>, m: map<string, Pointer>, grown: map<string, Pointer>)
      requires nodes == before + {e} && grown == m[e.key := e.value]
      requires forall k :: k in m ==> exists x :: x in before && x.key == k
      ensures forall k :: k in grown ==> exists x :: x in nodes && x.key == k
    {
      forall k | k in grown ensures exists x :: x in nodes && x.key == k {
        if k == e.key {
          assert e in nodes;
        } else {
          var x :| x in before && x.key == k;
          assert x in nodes;
        }
      }
    }

    /** Links a fresh entry behind the last one of its chain. */
    method LinkEntry(bin: nat, newpair: Entry, last: Entry?)
      requires 0 < capacity == table.Length == |bins| && forall b :: 0 <= b < capacity ==> ChainOk(b)
      requires newpair !in nodes && newpair.next == null && bin == Bin(newpair.key)
      requires forall e :: e in bins[bin] ==> e.key != newpair.key
      requires last == if bins[bin] == [] then null else bins[bin][|bins[bin]| - 1]
      modifies this`bins, this`nodes, table, nodes`next
      ensures bins == old(bins)[bin := old(bins)[bin] + [newpair]] && nodes == old(nodes) + {newpair}
      ensures forall b :: 0 <= b < capacity ==> ChainOk(b)
    {
      hide Bin;
      ghost var c := bins[bin];
      assert ChainOk(bin);
      if last == null {
        table[bin] := newpair;
      } else {
        last.next := newpair;
      }
      bins := bins[bin := c + [newpair]];
      nodes := nodes + {newpair};
      forall b | 0 <= b < capacity ensures ChainOk(b) {
        assert old(ChainOk(b));
        if b == bin {
          assert Linked(table[b], c + [newpair]);
        }
      }
    }

    /**
      ht_freePairEntry: searches the first HASHTABLE_SIZE bins one after the other, whatever the capacity,
      so in a larger table a key that hashes beyond them is not found.
     */
    method FreePairEntry(key: string) returns (found: Pointer)
      requires Valid() && capacity >= HASHTABLE_SIZE
      modifies this, table, nodes
      ensures Valid() && table == old(table) && nodes <= old(nodes)
      ensures var hit := key in old(Contents) && HashOf(key, capacity) < HASHTABLE_SIZE;
              && Contents == (if hit then old(Contents) - {key} else old(Contents))
              && found == if hit then old(Contents)[key] else NULL
    {
      hide ChainOk, MapOk, HashOf;
      found := NULL;
      var i: nat := 0;
      while i < HASHTABLE_SIZE
        invariant i <= HASHTABLE_SIZE && Valid() && found == NULL && table == old(table)
        invariant bins == old(bins) && nodes == old(nodes) && Contents == old(Contents)
        invariant Bin(key) < i ==> key !in Contents
      {
        var pair, prePair, j := Walk(i, key);
        if pair != null {
          KnownEntry(pair);
          found := pair.value;
          Unlink(i, j, pair, prePair);
          return;
        }
        i := i + 1;
      }
    }

    lemma KnownEntry(e: Entry)
      requires Valid() && e in nodes
      ensures e.key in Contents && Contents[e.key] == e.value
    {}

    /** Takes entry j out of its chain and its key out of the map. */
    method Unlink(bin: nat, ghost j: nat, pair: Entry, prePair: Entry?)
      requires Valid() && bin < capacity && j < |bins[bin]| && pair == bins[bin][j]
      requires prePair == if j == 0 then null else bins[bin][j - 1]
      modifies this, table, nodes
      ensures Valid() && table == old(table) && nodes <= old(nodes)
      ensures Contents == old(Contents) - {pair.key}
    {
      hide Bin, Linked;
      ghost var before, m := nodes, Contents;
      assert ChainOk(bin);
      UnlinkEntry(bin, j, pair, prePair);
      hide ChainOk;
      Forget(pair, before);
    }

    method UnlinkEntry(bin: nat, ghost j: nat, pair: Entry, prePair: Entry?)
      requires 0 < capacity == table.Length == |bins| && forall b :: 0 <= b < capacity ==> ChainOk(b)
      requires bin < capacity && j < |bins[bin]| && pair == bins[bin][j]
      requires prePair == if j == 0 then null else bins[bin][j - 1]
      modifies this`bins, this`nodes, table, nodes`next
      ensures bins == old(bins)[bin := old(bins)[bin][..j] + old(bins)[bin][j + 1..]]
      ensures nodes == old(nodes) - {pair}
      ensures forall b :: 0 <= b < capacity ==> ChainOk(b)
    {
      hide Bin;
      ghost var c := bins[bin];
      assert ChainOk(bin);
      assert forall b :: 0 <= b < capacity ==> ChainOk(b);
      Relink(bin, j, pair, prePair);
      hide Linked;
      ghost var d := c[..j] + c[j + 1..];
      WithoutOne(c, j);
      bins := bins[bin := d];
      nodes := nodes - {pair};
      forall b | 0 <= b < capacity ensures ChainOk(b) {
        assert old(ChainOk(b));
      }
    }

    /** The pointer that leads past entry j; all other chains keep their links. */
    method Relink(bin: nat, ghost j: nat, pair: Entry, prePair: Entry?)
      requires 0 < capacity == table.Length == |bins| && forall b :: 0 <= b < capacity ==> ChainOk(b)
      requires bin < capacity && j < |bins[bin]| && pair == bins[bin][j]
      requires prePair == if j == 0 then null else bins[bin][j - 1]
      modifies table, nodes`next
      ensures Linked(table[bin], bins[bin][..j] + bins[bin][j + 1..])
      ensures forall b :: 0 <= b < capacity && b != bin ==> Linked(table[b], bins[b])
    {
      hide Bin;
      assert ChainOk(bin);
      if prePair == null {
        table[bin] := pair.next;
      } else {
        assert prePair in bins[bin];
        prePair.next := pair.next;
      }
      forall b | 0 <= b < capacity && b != bin ensures Linked(table[b], bins[b]) {
        assert old(ChainOk(b));
      }
    }

    /** Taking an entry out of a chain keeps the others and only them. */
    lemma WithoutOne(c: seq<Entry>, j: nat)
      requires j < |c| && forall x, y :: 0 <= x < y < |c| ==> c[x].key != c[y].key
      ensures var d := c[..j] + c[j + 1..];
              && (forall e :: e in d ==> e in c && e != c[j])
              && (forall e :: e in c && e != c[j] ==> e in d)
              && (forall x, y :: 0 <= x < y < |d| ==> d[x].key != d[y].key)
    {}

    method Forget(e: Entry, ghost before: set<Entry>)
      requires 0 < capacity == table.Length == |bins| && (forall b :: 0 <= b < capacity ==> ChainOk(b))
      requires nodes == before - {e} && e in before
      requires forall x :: x in before ==> x.key in Contents && Contents[x.key] == x.value
      requires forall x :: x in nodes ==> x.key != e.key && x in bins[Bin(x.key)]
      requires forall k :: k in Contents ==> exists x :: x in before && x.key == k
      requires count == |Contents|
      modifies this`Contents, this`count
      ensures Valid() && Contents == old(Contents) - {e.key}
    {
      hide Bin, ChainOk, MapOk;
      ghost var m := Contents;
      KeysShrink(e, before, m);
      Contents := m - {e.key};
      assert Contents.Keys == m.Keys - {e.key};
      assert |Contents.Keys| == |m.Keys| - 1;
      count := count - 1;
      assert MapOk() by { MapIs(); }
    }

    /** The keys of the entries once one is taken out. */
    lemma KeysShrink(e: Entry, before: set<Entry>, m: map<string, Pointer>)
      requires nodes == before - {e}
      requires forall k :: k in m ==> exists x :: x in before && x.key == k
      ensures forall k :: k in m - {e.key} ==> exists x :: x in nodes && x.key == k
    {
      forall k | k in m - {e.key} ensures exists x :: x in nodes && x.key == k {
        var x :| x in before && x.key == k;
        assert x in nodes;
      }
    }

    /** ht_getAllKeys: an array of exactly the stored keys, each once. */
    method GetAllKeys() returns (result: array<string>)
      requires Valid()
      ensures fresh(result) && result.Length == count
      ensures NoRepeats(result[..]) && forall k :: k in result[..] <==> k in Contents
    {
      hide Bin, MapOk;
      result := new string[count];
      var i: nat, j: nat := 0, 0;
      CountIsSize();
      while i < capacity && j < count
        invariant i <= capacity && j <= count
        invariant Collected(result[..j], i)
      {
        j := CollectChain(i, result, j);
        i := i + 1;
      }
      AllCollected(result[..j], i);
      assert result[..j] == result[..];
    }

    lemma CountIsSize()
      requires Valid()
      ensures count == |Contents.Keys|
    {}

    /** keys lists, without repetition, exactly the stored keys of the bins before b. */
    ghost predicate Collected(keys: seq<string>, b: nat)
      reads this
      requires capacity > 0
    {
      && NoRepeats(keys)
      && forall k :: k in keys <==> k in Contents && Bin(k) < b
    }

    /** The outer loop stops at the last bin or as soon as the array is full; either way nothing is missing. */
    lemma AllCollected(keys: seq<string>, b: nat)
      requires Valid() && Collected(keys, b) && (b >= capacity || |keys| >= count)
      ensures |keys| == count && forall k :: k in keys <==> k in Contents
    {
      hide Bin, ChainOk;
      CountIsSize();
      NoRepeatsSize(keys, Contents.Keys);
      if b >= capacity {
        assert forall k :: k in Contents ==> k in keys;
      }
      AllListed(keys, Contents.Keys);
    }

    ghost function KeysOf(b: nat): (ks: seq<string>)
      reads this
      requires b < |bins|
      ensures |ks| == |bins[b]|
    {
      var c := bins[b];
      seq(|c|, q requires 0 <= q < |c| => c[q].key)
    }

    /** The inner loop: appends the keys of one chain. */
    method CollectChain(b: nat, result: array<string>, j0: nat) returns (j: nat)
      requires Valid() && b < capacity && result.Length == count && j0 <= count
      requires Collected(result[..j0], b)
      requires result as object != table
      modifies result
      ensures j0 <= j <= count && Collected(result[..j], b + 1)
    {
      hide Bin, MapOk, Collected;
      assert ChainOk(b);
      ghost var c, start, ks, p := bins[b], result[..j0], KeysOf(b), 0;
      ChainCollected(start, b);
      var t := table[b];
      j := j0;
      while t != null
        invariant p <= |c| && t == (if p < |c| then c[p] else null)
        invariant j == j0 + p && result[..j] == start + ks[..p]
        decreases |c| - p
      {
        assert t.key == ks[p];
        result[j] := t.key;
        j := j + 1;
        t := t.next;
        p := p + 1;
      }
      assert ks[..p] == ks;
    }

    lemma ChainCollected(start: seq<string>, b: nat)
      requires Valid() && b < capacity && Collected(start, b)
      ensures Collected(start + KeysOf(b), b + 1) && |start + KeysOf(b)| <= count
    {
      hide Bin, Linked;
      var ks, c := KeysOf(b), bins[b];
      assert ChainOk(b);
      CountIsSize();
      forall k | k in ks ensures k in Contents && Bin(k) == b {
        var q :| 0 <= q < |ks| && ks[q] == k;
        assert c[q] in nodes;
      }
      forall k | k in Contents && Bin(k) == b ensures k in ks {
        StoredIn(k);
        var q :| 0 <= q < |c| && c[q].key == k;
        assert ks[q] == k;
      }
      hide ChainOk, MapOk;
      NoRepeatsSize(start + ks, Contents.Keys);
    }

    lemma StoredIn(k: string)
      requires Valid() && k in Contents
      ensures exists q :: 0 <= q < |bins[Bin(k)]| && bins[Bin(k)][q].key == k
    {}
  }

  ghost predicate NoRepeats(s: seq<string>) {
    forall i, j :: 0 <= i < j < |s| ==> s[i] != s[j]
  }

  lemma {:induction false} NoRepeatsSize(s: seq<string>, keys: set<string>)
    requires NoRepeats(s) && forall k :: k in s ==> k in keys
    ensures |s| <= |keys|
  {
    if s != [] {
      var m := |s| - 1;
      assert s[m] in s;
      assert forall k :: k in s[..m] ==> k in s && k != s[m];
      NoRepeatsSize(s[..m], keys - {s[m]});
    }
  }

  lemma OneMoreFits(s: seq<string>, keys: set<string>, k: string)
    requires NoRepeats(s) && (forall x :: x in s ==> x in keys) && k in keys && k !in s
    ensures |s| < |keys|
  {
    NoRepeatsSize(s + [k], keys);
  }

  lemma AllListed(s: seq<string>, keys: set<string>)
    requires NoRepeats(s) && forall k :: k in s ==> k in keys
    ensures |s| <= |keys|
    ensures |s| == |keys| <==> forall k :: k in keys ==> k in s
  {
    NoRepeatsSize(s, keys);
    if k :| k in keys && k !in s {
      OneMoreFits(s, keys, k);
    } else {
      SetSizeAtMost(keys, s);
    }
  }

  lemma {:induction false} SetSizeAtMost(keys: set<string>, s: seq<string>)
    requires forall k :: k in keys ==> k in s
    ensures |keys| <= |s|
  {
    if s == [] {
      assert keys == {};
    } else {
      var m := |s| - 1;
      assert forall k :: k in keys - {s[m]} ==> k in s[..m];
      SetSizeAtMost(keys - {s[m]}, s[..m]);
    }
  }
}
