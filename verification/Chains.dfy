/** What the operations of lib/hash.c mean, on plain values: a table is a sequence of chains and a
    chain is a sequence of entries, the first of which sits in the bucket array itself. */
module Chains {
  import opened Base
  import opened Words
  import opened HashIndex

  type CKey = k: Key | IsCString(k) witness [0]
  type Bytes = seq<byte>

  datatype Entry<V> = Entry(key: CKey, val: V)
  type Chain<V> = seq<Entry<V>>
  type Table<V> = seq<Chain<V>>

  predicate DistinctKeys<V>(c: Chain<V>) {
    forall i, j | 0 <= i < j < |c| :: c[i].key != c[j].key
  }

  /** Every chain holds distinct keys, all of them keys of that bucket. */
  ghost predicate WellPlaced<V>(t: Table<V>) {
    IsPow2(|t|) &&
    forall i | 0 <= i < |t| ::
      DistinctKeys(t[i]) && forall j | 0 <= j < |t[i]| :: HashVal(t[i][j].key, |t|) == i
  }

  /** The position of the key in the chain, or its length. */
  function IndexOf<V>(c: Chain<V>, key: CKey): (i: nat)
    ensures i <= |c| && (i < |c| ==> c[i].key == key)
    ensures forall j | 0 <= j < i :: c[j].key != key
  {
    IndexFrom(c, key, 0)
  }

  function IndexFrom<V>(c: Chain<V>, key: CKey, from: nat): (i: nat)
    requires from <= |c|
    ensures from <= i <= |c| && (i < |c| ==> c[i].key == key)
    ensures forall j | from <= j < i :: c[j].key != key
    decreases |c| - from
  {
    if from == |c| || c[from].key == key then from else IndexFrom(c, key, from + 1)
  }

  function Find<V>(c: Chain<V>, key: CKey): Option<V> {
    var i := IndexOf(c, key);
    if i < |c| then Some(c[i].val) else None
  }

  /** The sequence without its element at position i. */
  function Cut<T>(s: seq<T>, i: nat): seq<T> {
    if i < |s| then s[..i] + s[i + 1..] else s
  }

  lemma CutAt<T>(s: seq<T>, i: nat)
    requires i < |s|
    ensures |Cut(s, i)| == |s| - 1
    ensures forall j | 0 <= j < |s| - 1 :: Cut(s, i)[j] == if j < i then s[j] else s[j + 1]
  {
  }

  function Removed<V>(c: Chain<V>, key: CKey): Chain<V> {
    Cut(c, IndexOf(c, key))
  }

  /** What an update leaves: the new bytes, and behind them what a longer old value had there. */
  function Overlay(old_: Bytes, new_: Bytes): Bytes {
    if |old_| <= |new_| then new_ else new_ + old_[|new_|..]
  }

  /** The value after val has been stored over before: as long as the longer of the two, with val in front
      and the tail of the old value behind it. */
  predicate IsOverlay(before: Bytes, val: Bytes, after: Bytes) {
    |after| == (if |before| < |val| then |val| else |before|) &&
    (forall i | 0 <= i < |val| :: after[i] == val[i]) &&
    (forall i | |val| <= i < |before| :: after[i] == before[i])
  }

  lemma OverlayExact(before: Bytes, val: Bytes, after: Bytes)
    ensures after == Overlay(before, val) <==> IsOverlay(before, val, after)
  {
    var r := Overlay(before, val);
    assert IsOverlay(before, val, r);
    if IsOverlay(before, val, after) {
      assert forall i | 0 <= i < |r| :: after[i] == if i < |val| then val[i] else before[i];
    }
  }

  function Updated(v: Option<Bytes>, val: Bytes): Bytes {
    if v.Some? then Overlay(v.value, val) else val
  }

  /** A new entry goes behind the first one; an existing entry is overlaid where it is. */
  function Inserted(c: Chain<Bytes>, key: CKey, val: Bytes): Chain<Bytes> {
    var i := IndexOf(c, key);
    if i < |c| then c[i := Entry(key, Overlay(c[i].val, val))]
    else if c == [] then [Entry(key, val)]
    else [c[0], Entry(key, val)] + c[1..]
  }

  /** A new key comes second, or first in an empty chain; storing to a known key changes its value alone. */
  predicate IsInsert(before: Chain<Bytes>, key: CKey, val: Bytes, after: Chain<Bytes>) {
    if forall e <- before :: e.key != key then
      |after| == |before| + 1 && after[if before == [] then 0 else 1] == Entry(key, val) &&
      (before != [] ==> after[0] == before[0]) && forall i | 0 < i < |before| :: after[i + 1] == before[i]
    else
      |after| == |before| &&
      forall i | 0 <= i < |before| ::
        if before[i].key == key then after[i].key == key && IsOverlay(before[i].val, val, after[i].val)
        else after[i] == before[i]
  }

  lemma InsertExact(c: Chain<Bytes>, key: CKey, val: Bytes)
    requires DistinctKeys(c)
    ensures IsInsert(c, key, val, Inserted(c, key, val))
  {
    var i := IndexOf(c, key);
    if i < |c| {
      assert c[i] in c;
      OverlayExact(c[i].val, val, Overlay(c[i].val, val));
    } else {
      assert forall e <- c :: e.key != key;
    }
  }

  function Bucket<V>(t: Table<V>, key: CKey): (i: nat)
    requires |t| > 0
  {
    HashVal(key, |t|)
  }

  lemma BucketInRange<V>(t: Table<V>, key: CKey)
    requires IsPow2(|t|)
    ensures |t| > 0 && Bucket(t, key) < |t|
  {
    HashValIsMod(key, |t|);
  }

  ghost function Lookup<V>(t: Table<V>, key: CKey): Option<V>
    requires IsPow2(|t|)
  {
    BucketInRange(t, key);
    Find(t[Bucket(t, key)], key)
  }

  /** The table stands for this finite map. */
  ghost predicate Represents<V(!new)>(t: Table<V>, m: map<CKey, V>)
    requires IsPow2(|t|)
  {
    forall k: CKey :: Lookup(t, k) == if k in m then Some(m[k]) else None
  }

  lemma FindUnique<V>(c: Chain<V>, i: nat)
    requires DistinctKeys(c) && i < |c|
    ensures IndexOf(c, c[i].key) == i
  {
    var j := IndexOf(c, c[i].key);
    assert j < |c| ==> c[j].key == c[i].key;
  }

  lemma RemovedAt<V>(c: Chain<V>, key: CKey, j: nat)
    requires j < |Removed(c, key)|
    ensures Removed(c, key)[j] == if j < IndexOf(c, key) then c[j] else c[j + 1]
  {
    var i := IndexOf(c, key);
    if i < |c| {
      CutAt(c, i);
    }
  }

  lemma RemovedDistinct<V>(c: Chain<V>, key: CKey)
    requires DistinctKeys(c)
    ensures DistinctKeys(Removed(c, key))
    ensures forall e <- Removed(c, key) :: e.key != key
  {
    var r, i := Removed(c, key), IndexOf(c, key);
    forall j | 0 <= j < |r|
      ensures r[j] == (if j < i then c[j] else c[j + 1]) && r[j].key != key
    {
      RemovedAt(c, key, j);
    }
  }

  lemma FindRemoved<V>(c: Chain<V>, key: CKey, k: CKey)
    requires DistinctKeys(c)
    ensures DistinctKeys(Removed(c, key))
    ensures Find(Removed(c, key), k) == if k == key then None else Find(c, k)
  {
    RemovedDistinct(c, key);
    var r, i, n := Removed(c, key), IndexOf(c, key), IndexOf(c, k);
    var n' := IndexOf(r, k);
    if n' < |r| {
      RemovedAt(c, key, n');
      FindUnique(c, if n' < i then n' else n' + 1);
    } else if k != key && n < |c| {
      RemovedAt(c, key, if n < i then n else n - 1);
    }
  }

  lemma FindInserted(c: Chain<Bytes>, key: CKey, val: Bytes, k: CKey)
    requires DistinctKeys(c)
    ensures DistinctKeys(Inserted(c, key, val))
    ensures Find(Inserted(c, key, val), k) == if k == key then Some(Updated(Find(c, key), val)) else Find(c, k)
  {
    if IndexOf(c, key) < |c| {
      FindOverlaid(c, key, val, k);
    } else {
      FindPushed(c, key, val, k);
    }
  }

  lemma FindOverlaid(c: Chain<Bytes>, key: CKey, val: Bytes, k: CKey)
    requires DistinctKeys(c) && IndexOf(c, key) < |c|
    ensures DistinctKeys(Inserted(c, key, val))
    ensures Find(Inserted(c, key, val), k) == if k == key then Some(Updated(Find(c, key), val)) else Find(c, k)
  {
    var r, n := Inserted(c, key, val), IndexOf(c, k);
    if n < |c| {
      FindUnique(r, n);
    }
  }

  lemma FindPushed(c: Chain<Bytes>, key: CKey, val: Bytes, k: CKey)
    requires DistinctKeys(c) && IndexOf(c, key) == |c|
    ensures DistinctKeys(Inserted(c, key, val))
    ensures Find(Inserted(c, key, val), k) == if k == key then Some(val) else Find(c, k)
  {
    var r, n := Inserted(c, key, val), IndexOf(c, k);
    if k == key {
      FindUnique(r, if c == [] then 0 else 1);
    } else if n < |c| {
      assert r[if n == 0 then 0 else n + 1] == c[n];
      FindUnique(r, if n == 0 then 0 else n + 1);
    }
  }

  /** Replacing the chain of the key's bucket keeps the placement and the rest of the map. */
  lemma ReplaceChain<V(!new)>(t: Table<V>, m: map<CKey, V>, key: CKey, c: Chain<V>, m': map<CKey, V>)
    requires WellPlaced(t) && Represents(t, m)
    requires Bucket(t, key) < |t|
    requires DistinctKeys(c) && forall e <- c :: e in t[Bucket(t, key)] || e.key == key
    requires forall k: CKey :: (k in m' <==> if k == key then Find(c, key).Some? else k in m)
    requires forall k: CKey | k in m' :: if k == key then Find(c, key) == Some(m'[k]) else m'[k] == m[k]
    requires forall k: CKey | k != key :: Find(c, k) == Find(t[Bucket(t, key)], k)
    ensures WellPlaced(t[Bucket(t, key) := c]) && Represents(t[Bucket(t, key) := c], m')
  {
    var b := Bucket(t, key);
    var t' := t[b := c];
    forall i | 0 <= i < |t'|
      ensures DistinctKeys(t'[i]) && forall j | 0 <= j < |t'[i]| :: HashVal(t'[i][j].key, |t'|) == i
    {
      if i == b {
        forall j | 0 <= j < |c|
          ensures HashVal(c[j].key, |t'|) == b
        {
          assert c[j] in c;
          if c[j].key != key {
            var n :| 0 <= n < |t[b]| && t[b][n] == c[j];
          }
        }
      }
    }
    forall k: CKey
      ensures Lookup(t', k) == if k in m' then Some(m'[k]) else None
    {
      BucketInRange(t, k);
      assert Lookup(t, k) == if k in m then Some(m[k]) else None;
    }
  }

  lemma RemoveRefinesMap<V(!new)>(t: Table<V>, m: map<CKey, V>, key: CKey)
    requires WellPlaced(t) && Represents(t, m)
    ensures Bucket(t, key) < |t|
    ensures var t' := t[Bucket(t, key) := Removed(t[Bucket(t, key)], key)];
      WellPlaced(t') && Represents(t', m - {key})
    ensures Find(t[Bucket(t, key)], key) == if key in m then Some(m[key]) else None
  {
    BucketInRange(t, key);
    var c := t[Bucket(t, key)];
    assert Lookup(t, key) == Find(c, key);
    forall k: CKey
      ensures Find(Removed(c, key), k) == if k == key then None else Find(c, k)
      ensures DistinctKeys(Removed(c, key))
    {
      FindRemoved(c, key, k);
    }
    ReplaceChain(t, m, key, Removed(c, key), m - {key});
  }

  lemma InsertRefinesMap(t: Table<Bytes>, m: map<CKey, Bytes>, key: CKey, val: Bytes)
    requires WellPlaced(t) && Represents(t, m)
    ensures Bucket(t, key) < |t|
    ensures var t' := t[Bucket(t, key) := Inserted(t[Bucket(t, key)], key, val)];
      WellPlaced(t') && Represents(t', m[key := if key in m then Overlay(m[key], val) else val])
    ensures key in m ==> IsOverlay(m[key], val, Overlay(m[key], val))
  {
    if key in m {
      OverlayExact(m[key], val, Overlay(m[key], val));
    }
    BucketInRange(t, key);
    var c := t[Bucket(t, key)];
    assert Lookup(t, key) == Find(c, key);
    forall k: CKey
      ensures Find(Inserted(c, key, val), k) == if k == key then Some(Updated(Find(c, key), val)) else Find(c, k)
      ensures DistinctKeys(Inserted(c, key, val))
    {
      FindInserted(c, key, val, k);
    }
    ReplaceChain(t, m, key, Inserted(c, key, val), m[key := if key in m then Overlay(m[key], val) else val]);
  }

  // ---- All entries of a table, in the order of a walk ----

  function Flatten<V>(t: Table<V>, from: nat): Chain<V>
    decreases |t| - from
  {
    if from >= |t| then [] else t[from] + Flatten(t, from + 1)
  }

  lemma {:induction false} FlattenIndex<V>(t: Table<V>, from: nat, e: Entry<V>)
    ensures e in Flatten(t, from) <==> exists i :: from <= i < |t| && e in t[i]
    decreases |t| - from
  {
    if from < |t| {
      var rest := Flatten(t, from + 1);
      FlattenIndex(t, from + 1, e);
      assert Flatten(t, from) == t[from] + rest && (e in t[from] + rest <==> e in t[from] || e in rest);
    }
  }

  /** The entries of a table have distinct keys: each stored value occurs once. */
  lemma {:induction false} FlattenDistinct<V>(t: Table<V>, from: nat)
    requires WellPlaced(t)
    ensures DistinctKeys(Flatten(t, from))
    decreases |t| - from
  {
    if from < |t| {
      FlattenDistinct(t, from + 1);
      var a, rest := t[from], Flatten(t, from + 1);
      forall i, j | 0 <= i < |a| && 0 <= j < |rest|
        ensures a[i].key != rest[j].key
      {
        FlattenIndex(t, from + 1, rest[j]);
        var n :| from + 1 <= n < |t| && rest[j] in t[n];
        var m :| 0 <= m < |t[n]| && t[n][m] == rest[j];
      }
    }
  }

  lemma FlattenRepresents<V(!new)>(t: Table<V>, m: map<CKey, V>, e: Entry<V>)
    requires WellPlaced(t) && Represents(t, m)
    ensures e in Flatten(t, 0) <==> e.key in m && m[e.key] == e.val
  {
    FlattenIndex(t, 0, e);
    BucketInRange(t, e.key);
    var b := Bucket(t, e.key);
    assert Lookup(t, e.key) == Find(t[b], e.key);
    if i :| 0 <= i < |t| && e in t[i] {
      var j :| 0 <= j < |t[i]| && t[i][j] == e;
      FindUnique(t[i], j);
    }
  }

  /** Where a walk stops: at the first entry for which the callback asks it to. */
  function FirstHit<V>(c: Chain<V>, stop: Entry<V> -> bool): Option<Entry<V>> {
    if c == [] then None else if stop(c[0]) then Some(c[0]) else FirstHit(c[1..], stop)
  }

  /** It stops at an entry that asks for it, with none in front of it that does. */
  lemma {:induction false} FirstHitExact<V>(c: Chain<V>, stop: Entry<V> -> bool)
    ensures var hit := FirstHit(c, stop);
      if hit.None? then forall j | 0 <= j < |c| :: !stop(c[j])
      else exists i | 0 <= i < |c| :: c[i] == hit.value && stop(c[i]) && forall j | 0 <= j < i :: !stop(c[j])
  {
    if c != [] && !stop(c[0]) {
      FirstHitExact(c[1..], stop);
      assert forall j | 0 < j < |c| :: c[j] == c[1..][j - 1];
      var hit := FirstHit(c, stop);
      if hit.Some? {
        var i :| 0 <= i < |c[1..]| && c[1..][i] == hit.value && forall j | 0 <= j < i :: !stop(c[1..][j]);
        assert c[i + 1] == hit.value;
      }
    }
  }

  lemma {:induction false} FirstHitAppend<V>(a: Chain<V>, b: Chain<V>, stop: Entry<V> -> bool)
    ensures FirstHit(a + b, stop) == if FirstHit(a, stop).Some? then FirstHit(a, stop) else FirstHit(b, stop)
  {
    if a == [] {
      assert a + b == b;
    } else {
      FirstHitAppend(a[1..], b, stop);
      assert (a + b)[1..] == a[1..] + b;
    }
  }

  function WalkHit<V>(t: Table<V>, from: nat, stop: Entry<V> -> bool): Option<Entry<V>> {
    FirstHit(Flatten(t, from), stop)
  }

  lemma WalkStep<V>(t: Table<V>, i: nat, stop: Entry<V> -> bool)
    ensures WalkHit(t, i, stop) ==
            if i >= |t| then None
            else if FirstHit(t[i], stop).Some? then FirstHit(t[i], stop)
            else WalkHit(t, i + 1, stop)
  {
    if i < |t| {
      FirstHitAppend(t[i], Flatten(t, i + 1), stop);
    }
  }
}
