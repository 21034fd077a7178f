/** The slot-array dictionary of zc/src/dictionary.c. NULL strings are None. */
module Dictionaries {

  import opened Options

  type CString = Option<string>

  const DICTMINSZ := 128

  // ----- hashing -----

  /** A char converted to unsigned: bytes from 128 up are negative and wrap around. */
  function ToUnsigned(c: char): bv32 {
    if 128 <= c as int < 256 then (c as int as bv32) - 256 else c as int as bv32
  }

  function Add(h: bv32, x: bv32): bv32 { h + x }

  function AddLeft(h: bv32, k: nat): bv32
    requires k < 32
  {
    h + (h << k)
  }

  function XorRight(h: bv32, k: nat): bv32
    requires k < 32
  {
    h ^ (h >> k)
  }

  /** One character of the hash. */
  function Mix(h: bv32, c: char): bv32 {
    XorRight(AddLeft(Add(h, ToUnsigned(c)), 10), 6)
  }

  function Finish(h: bv32): bv32 {
    AddLeft(XorRight(AddLeft(h, 3), 11), 15)
  }

  function HashPrefix(key: string, i: nat): bv32
    requires i <= |key|
  {
    if i == 0 then 0 else Mix(HashPrefix(key, i - 1), key[i - 1])
  }

  /** dictionary_hash, as a function of the key. */
  function HashOf(key: string): bv32 {
    Finish(HashPrefix(key, |key|))
  }

  method DictionaryHash(key: string) returns (hash: bv32)
    ensures hash == HashOf(key)
  {
    hide Add, AddLeft, XorRight, ToUnsigned;
    hash := 0;
    for i := 0 to |key|
      invariant hash == HashPrefix(key, i)
    {
      var c := Unsigned(key[i]);
      hash := Added(hash, c);
      hash := AddShifted(hash, 10);
      hash := XorShifted(hash, 6);
    }
    hash := AddShifted(hash, 3);
    hash := XorShifted(hash, 11);
    hash := AddShifted(hash, 15);
  }

  /** (unsigned)c, the char being signed. */
  method Unsigned(c: char) returns (u: bv32)
    ensures u == ToUnsigned(c)
  {
    if 128 <= c as int < 256 {
      return (c as int as bv32) - 256;
    }
    return c as int as bv32;
  }

  /** hash += c. */
  method Added(hash: bv32, c: bv32) returns (r: bv32)
    ensures r == Add(hash, c)
  {
    r := hash + c;
  }

  /** hash += (hash << k). */
  method AddShifted(hash: bv32, k: nat) returns (r: bv32)
    requires k < 32
    ensures r == AddLeft(hash, k)
  {
    r := hash + (hash << k);
  }

  /** hash ^= (hash >> k). */
  method XorShifted(hash: bv32, k: nat) returns (r: bv32)
    requires k < 32
    ensures r == XorRight(hash, k)
  {
    r := hash ^ (hash >> k);
  }

  // ----- counting occupied slots -----

  function Occupied(s: seq<CString>): nat {
    if s == [] then 0 else Occupied(s[..|s| - 1]) + if s[|s| - 1].Some? then 1 else 0
  }

  lemma {:induction false} OccupiedBound(s: seq<CString>)
    ensures Occupied(s) <= |s|
    ensures Occupied(s) == |s| <==> forall i :: 0 <= i < |s| ==> s[i].Some?
    ensures Occupied(s) == 0 <==> forall i :: 0 <= i < |s| ==> s[i].None?
  {
    if s != [] {
      OccupiedBound(s[..|s| - 1]);
    }
  }

  lemma {:induction false} OccupiedUpdate(s: seq<CString>, i: nat, v: CString)
    requires i < |s|
    ensures Occupied(s[i := v]) == Occupied(s) + (if v.Some? then 1 else 0) - (if s[i].Some? then 1 else 0)
  {
    var m := |s| - 1;
    if i < m {
      assert s[i := v][..m] == s[..m][i := v];
      OccupiedUpdate(s[..m], i, v);
    } else {
      assert s[i := v][..m] == s[..m];
    }
  }

  lemma {:induction false} OccupiedPadding(s: seq<CString>, k: nat)
    ensures Occupied(s + seq(k, _ => None)) == Occupied(s)
  {
    if k == 0 {
      assert s + seq(0, _ => None) == s;
    } else {
      var t := s + seq(k, _ => None);
      assert t[..|t| - 1] == s + seq(k - 1, _ => None);
      OccupiedPadding(s, k - 1);
    }
  }

  // ----- slots and the map they stand for -----

  /** No key is stored twice. */
  ghost predicate UniqueKeys(keys: seq<CString>) {
    forall i, j :: 0 <= i < j < |keys| && keys[i].Some? ==> keys[i] != keys[j]
  }

  /** Every stored hash belongs to its key; unused slots hold no value and hash 0. */
  ghost predicate SlotsOk(keys: seq<CString>, vals: seq<CString>, hashes: seq<bv32>) {
    && |vals| == |hashes| == |keys|
    && forall i :: 0 <= i < |keys| ==>
         match keys[i]
         case Some(k) => hashes[i] == HashOf(k)
         case None => vals[i] == None && hashes[i] == 0
  }

  /** The map that the slots represent. */
  ghost function ContentsOf(keys: seq<CString>, vals: seq<CString>): (m: map<string, CString>)
    requires |keys| == |vals|
  {
    if keys == [] then map[]
    else
      var m := |keys| - 1;
      var rest := ContentsOf(keys[..m], vals[..m]);
      if keys[m].Some? then rest[keys[m].value := vals[m]] else rest
  }

  lemma {:induction false} ContentsAre(keys: seq<CString>, vals: seq<CString>)
    requires |keys| == |vals| && UniqueKeys(keys)
    ensures forall i :: 0 <= i < |keys| && keys[i].Some? ==>
              keys[i].value in ContentsOf(keys, vals) && ContentsOf(keys, vals)[keys[i].value] == vals[i]
    ensures forall k :: k in ContentsOf(keys, vals) ==> Some(k) in keys
  {
    if keys != [] {
      var m := |keys| - 1;
      var ks, vs := keys[..m], vals[..m];
      LastIsUnique(keys, m);
      ContentsAre(ks, vs);
      hide UniqueKeys;
      forall i | 0 <= i < m && keys[i].Some?
        ensures keys[i].value in ContentsOf(keys, vals) && ContentsOf(keys, vals)[keys[i].value] == vals[i]
      {
        assert ks[i] == keys[i] && vs[i] == vals[i];
      }
      assert keys == ks + [keys[m]];
    }
  }

  lemma LastIsUnique(keys: seq<CString>, m: nat)
    requires m + 1 == |keys| && UniqueKeys(keys)
    ensures UniqueKeys(keys[..m]) && forall i :: 0 <= i < m && keys[i].Some? ==> keys[i] != keys[m]
  {}

  lemma {:induction false} ContentsSize(keys: seq<CString>, vals: seq<CString>)
    requires |keys| == |vals| && UniqueKeys(keys)
    ensures |ContentsOf(keys, vals)| == Occupied(keys)
  {
    if keys != [] {
      var m := |keys| - 1;
      ContentsSize(keys[..m], vals[..m]);
      ContentsAre(keys[..m], vals[..m]);
      assert keys[m].Some? ==> keys[m].value !in ContentsOf(keys[..m], vals[..m]);
    }
  }

  /** Two slot arrays with the same key-value pairs stand for the same map. */
  lemma ContentsDetermined(keys: seq<CString>, vals: seq<CString>, m: map<string, CString>)
    requires |keys| == |vals| && UniqueKeys(keys)
    requires forall i :: 0 <= i < |keys| && keys[i].Some? ==> keys[i].value in m && m[keys[i].value] == vals[i]
    requires forall k :: k in m ==> Some(k) in keys
    ensures ContentsOf(keys, vals) == m
  {
    ContentsAre(keys, vals);
    var c := ContentsOf(keys, vals);
    forall k | k in m ensures k in c && c[k] == m[k] {
      var i :| 0 <= i < |keys| && keys[i] == Some(k);
    }
    forall k | k in c ensures k in m {
      var i :| 0 <= i < |keys| && keys[i] == Some(k);
    }
  }

  // ----- slot updates -----

  lemma StoredInsert(keys: seq<CString>, vals: seq<CString>, hashes: seq<bv32>, i: nat, k: string, v: CString)
    requires UniqueKeys(keys) && SlotsOk(keys, vals, hashes)
    requires i < |keys| && keys[i].None? && Some(k) !in keys
    ensures UniqueKeys(keys[i := Some(k)])
    ensures SlotsOk(keys[i := Some(k)], vals[i := v], hashes[i := HashOf(k)])
    ensures ContentsOf(keys[i := Some(k)], vals[i := v]) == ContentsOf(keys, vals)[k := v]
    ensures Occupied(keys[i := Some(k)]) == Occupied(keys) + 1
  {
    hide HashOf, ContentsOf, Occupied;
    OccupiedUpdate(keys, i, Some(k));
    ContentsWith(keys, vals, i, k, v);
  }

  lemma ContentsWith(keys: seq<CString>, vals: seq<CString>, i: nat, k: string, v: CString)
    requires |keys| == |vals| && UniqueKeys(keys) && i < |keys| && keys[i].None? && Some(k) !in keys
    ensures UniqueKeys(keys[i := Some(k)])
    ensures ContentsOf(keys[i := Some(k)], vals[i := v]) == ContentsOf(keys, vals)[k := v]
  {
    hide ContentsOf;
    var keys', vals' := keys[i := Some(k)], vals[i := v];
    ContentsAre(keys, vals);
    forall x | x in ContentsOf(keys, vals)[k := v] ensures Some(x) in keys' {
      if x == k {
        assert keys'[i] == Some(x);
      } else {
        var j :| 0 <= j < |keys| && keys[j] == Some(x);
        assert keys'[j] == Some(x);
      }
    }
    ContentsDetermined(keys', vals', ContentsOf(keys, vals)[k := v]);
  }

  lemma StoredReplace(keys: seq<CString>, vals: seq<CString>, hashes: seq<bv32>, i: nat, k: string, v: CString)
    requires UniqueKeys(keys) && SlotsOk(keys, vals, hashes)
    requires i < |keys| && keys[i] == Some(k)
    ensures SlotsOk(keys, vals[i := v], hashes)
    ensures ContentsOf(keys, vals[i := v]) == ContentsOf(keys, vals)[k := v]
  {
    hide HashOf, ContentsOf;
    ContentsAre(keys, vals);
    ContentsDetermined(keys, vals[i := v], ContentsOf(keys, vals)[k := v]);
  }

  lemma StoredRemove(keys: seq<CString>, vals: seq<CString>, hashes: seq<bv32>, i: nat, k: string)
    requires UniqueKeys(keys) && SlotsOk(keys, vals, hashes)
    requires i < |keys| && keys[i] == Some(k)
    ensures UniqueKeys(keys[i := None])
    ensures SlotsOk(keys[i := None], vals[i := None], hashes[i := 0])
    ensures ContentsOf(keys[i := None], vals[i := None]) == ContentsOf(keys, vals) - {k}
    ensures Occupied(keys[i := None]) == Occupied(keys) - 1
  {
    hide HashOf, ContentsOf, Occupied;
    OccupiedUpdate(keys, i, None);
    ClearedUnique(keys, i);
    ContentsWithout(keys, vals, i, k);
  }

  lemma ClearedUnique(keys: seq<CString>, i: nat)
    requires UniqueKeys(keys) && i < |keys|
    ensures UniqueKeys(keys[i := None])
  {}

  lemma ContentsWithout(keys: seq<CString>, vals: seq<CString>, i: nat, k: string)
    requires |keys| == |vals| && UniqueKeys(keys) && i < |keys| && keys[i] == Some(k)
    ensures ContentsOf(keys[i := None], vals[i := None]) == ContentsOf(keys, vals) - {k}
  {
    hide ContentsOf;
    var keys', vals', m := keys[i := None], vals[i := None], ContentsOf(keys, vals) - {k};
    ContentsAre(keys, vals);
    ClearedUnique(keys, i);
    forall x | x in m ensures Some(x) in keys' {
      var j :| 0 <= j < |keys| && keys[j] == Some(x);
      assert keys'[j] == Some(x);
    }
    forall j | 0 <= j < |keys'| && keys'[j].Some? ensures keys'[j].value in m && m[keys'[j].value] == vals'[j] {
      assert keys[j] == keys'[j] != keys[i];
    }
    ContentsDetermined(keys', vals', m);
  }

  lemma StoredGrow(keys: seq<CString>, vals: seq<CString>, hashes: seq<bv32>, k: nat)
    requires UniqueKeys(keys) && SlotsOk(keys, vals, hashes)
    ensures UniqueKeys(keys + seq(k, _ => None))
    ensures SlotsOk(keys + seq(k, _ => None), vals + seq(k, _ => None), hashes + seq(k, _ => 0))
    ensures ContentsOf(keys + seq(k, _ => None), vals + seq(k, _ => None)) == ContentsOf(keys, vals)
    ensures Occupied(keys + seq(k, _ => None)) == Occupied(keys)
  {
    hide HashOf, ContentsOf, Occupied, UniqueKeys;
    OccupiedPadding(keys, k);
    ContentsPadded(keys, vals, keys + seq(k, _ => None), vals + seq(k, _ => None));
  }

  /** Empty slots behind the others change nothing. */
  lemma ContentsPadded(keys: seq<CString>, vals: seq<CString>, keys': seq<CString>, vals': seq<CString>)
    requires |keys| == |vals| <= |keys'| == |vals'| && UniqueKeys(keys)
    requires forall i :: 0 <= i < |keys'| ==> keys'[i] == if i < |keys| then keys[i] else None
    requires forall i :: 0 <= i < |keys| ==> vals'[i] == vals[i]
    ensures UniqueKeys(keys') && ContentsOf(keys', vals') == ContentsOf(keys, vals)
  {
    hide ContentsOf;
    ContentsAre(keys, vals);
    forall x | x in ContentsOf(keys, vals) ensures Some(x) in keys' {
      var i :| 0 <= i < |keys| && keys[i] == Some(x);
      assert keys'[i] == Some(x);
    }
    ContentsDetermined(keys', vals', ContentsOf(keys, vals));
  }

  class Dictionary {
    var n: nat
    var size: nat
    var val: array<CString>
    var key: array<CString>
    var hash: array<bv32>

    ghost predicate Valid()
      reads this, val, key, hash
    {
      && 0 < size == key.Length == val.Length == hash.Length
      && key != val && key as object != hash && val as object != hash
      && UniqueKeys(key[..])
      && SlotsOk(key[..], val[..], hash[..])
      && n == Occupied(key[..])
    }

    ghost function Contents(): map<string, CString>
      reads this, val, key, hash
      requires Valid()
    {
      ContentsOf(key[..], val[..])
    }

    /** n is the number of entries of the map. */
    lemma CountIsSize()
      requires Valid()
      ensures n == |Contents()|
    {
      ContentsSize(key[..], val[..]);
    }

    /** dictionary_new. */
    constructor (requested: int)
      ensures Valid() && Contents() == map[] && fresh(val) && fresh(key) && fresh(hash)
      ensures size == if requested < DICTMINSZ then DICTMINSZ else requested
    {
      var s := if requested < DICTMINSZ then DICTMINSZ else requested;
      size := s;
      n := 0;
      val := new CString[s](_ => None);
      key := new CString[s](_ => None);
      hash := new bv32[s](_ => 0);
      new;
      OccupiedBound(key[..]);
      ContentsAre(key[..], val[..]);
    }

    /** The slot search shared by get, set and unset: the slot of the key, or size if it is absent. */
    method FindSlot(k: string) returns (i: nat)
      requires Valid()
      ensures i <= size
      ensures i < size ==> key[i] == Some(k)
      ensures i == size ==> Some(k) !in key[..]
    {
      var h := DictionaryHash(k);
      i := 0;
      while i < size
        invariant i <= size && Some(k) !in key[..i]
      {
        if key[i].Some? {
          if h == hash[i] {
            if key[i].value == k {
              return;
            }
          }
        }
        i := i + 1;
      }
      assert key[..size] == key[..];
    }

    /** dictionary_get. */
    method Get(k: string, def: CString) returns (r: CString)
      requires Valid()
      ensures r == if k in Contents() then Contents()[k] else def
    {
      ContentsAre(key[..], val[..]);
      var i := FindSlot(k);
      if i < size {
        r := val[i];
      } else {
        r := def;
      }
    }

    /** dictionary_set; the result is -1 for a NULL key and 0 otherwise. */
    method Set(k: CString, v: CString) returns (status: int)
      requires Valid()
      modifies this, val, key, hash
      ensures Valid()
      ensures key == old(key) || fresh(key)
      ensures val == old(val) || fresh(val)
      ensures hash == old(hash) || fresh(hash)
      ensures k.None? ==> status == -1 && Contents() == old(Contents())
      ensures k.Some? ==> status == 0 && Contents() == old(Contents())[k.value := v]
    {
      hide UniqueKeys, SlotsOk, ContentsOf, Occupied;
      if k.None? {
        return -1;
      }
      var i := size;
      if n > 0 {
        i := FindSlot(k.value);
      }
      OccupiedBound(key[..]);
      if i < size {
        StoredReplace(key[..], val[..], hash[..], i, k.value, v);
        ghost var vals := val[..];
        val[i] := v;
        assert val[..] == vals[i := v];
      } else {
        if n == size {
          Grow();
        }
        Insert(k.value, v);
      }
      status := 0;
    }

    /** The reallocation of a full dictionary: twice the slots, the new ones empty. */
    method Grow()
      requires Valid()
      modifies this
      ensures Valid() && fresh(key) && fresh(val) && fresh(hash)
      ensures size == 2 * old(size) && n == old(n) && Contents() == old(Contents())
      ensures key[..] == old(key[..]) + seq(old(size), _ => None)
    {
      hide UniqueKeys, SlotsOk, ContentsOf, Occupied;
      StoredGrow(key[..], val[..], hash[..], size);
      var newVal := MemDouble(val, None);
      var newKey := MemDouble(key, None);
      var newHash := MemDouble(hash, 0);
      val, key, hash := newVal, newKey, newHash;
      size := 2 * size;
    }

    /** The first empty slot from index n on, wrapping at size, receives the new entry. */
    method Insert(k: string, v: CString)
      requires Valid() && n < size && Some(k) !in key[..]
      modifies this, val, key, hash
      ensures Valid() && key == old(key) && val == old(val) && hash == old(hash) && size == old(size)
      ensures Contents() == old(Contents())[k := v]
    {
      hide UniqueKeys, SlotsOk, ContentsOf, Occupied;
      var i := FindEmpty();
      var h := DictionaryHash(k);
      ghost var keys, vals, hashes := key[..], val[..], hash[..];
      StoredInsert(keys, vals, hashes, i, k, v);
      key[i] := Some(k);
      val[i] := v;
      hash[i] := h;
      n := n + 1;
      assert key[..] == keys[i := Some(k)] && val[..] == vals[i := v] && hash[..] == hashes[i := h];
    }

    /** The wraparound search always stops: fewer entries than slots leave one empty. */
    method FindEmpty() returns (i: nat)
      requires Valid() && n < size
      ensures i < size && key[i].None?
    {
      OccupiedBound(key[..]);
      ghost var free :| 0 <= free < size && key[free].None?;
      i := n;
      while key[i].Some?
        invariant i < size
        decreases if i <= free then free - i else free + size - i
      {
        i := i + 1;
        if i == size {
          i := 0;
        }
      }
    }

    /** dictionary_unset. */
    method Unset(k: CString)
      requires Valid()
      modifies this, val, key, hash
      ensures Valid() && key == old(key) && val == old(val) && hash == old(hash) && size == old(size)
      ensures Contents() == if k.None? then old(Contents()) else old(Contents()) - {k.value}
    {
      if k.None? {
        return;
      }
      hide UniqueKeys, SlotsOk, ContentsOf, Occupied;
      var i := FindSlot(k.value);
      if i >= size {
        ContentsAre(key[..], val[..]);
        return;
      }
      ClearSlot(i, k.value);
    }

    /** The slot of the key is emptied. */
    method ClearSlot(i: nat, k: string)
      requires Valid() && i < size && key[i] == Some(k)
      modifies this`n, val, key, hash
      ensures Valid() && key == old(key) && val == old(val) && hash == old(hash) && size == old(size)
      ensures Contents() == old(Contents()) - {k}
    {
      hide UniqueKeys, SlotsOk, ContentsOf, Occupied;
      ghost var keys, vals, hashes := key[..], val[..], hash[..];
      StoredRemove(keys, vals, hashes, i, k);
      OccupiedBound(keys[i := None]);
      key[i] := None;
      val[i] := None;
      hash[i] := 0;
      n := n - 1;
      assert key[..] == keys[i := None] && val[..] == vals[i := None] && hash[..] == hashes[i := 0];
    }
  }

  /** mem_double: a copy of twice the length whose second half is zeroed. */
  method MemDouble<T(0)>(a: array<T>, zero: T) returns (b: array<T>)
    ensures fresh(b) && b.Length == 2 * a.Length
    ensures b[..] == a[..] + seq(a.Length, _ => zero)
  {
    b := new T[2 * a.Length](_ => zero);
    forall i | 0 <= i < a.Length { b[i] := a[i]; }
  }
}
