/** The table of lib/hash.c in memory: an array of head nodes, each with a linked chain behind it.
    Every operation works on one bucket, under that bucket's lock. */
module HashTable {
  import opened Base
  import opened Words
  import opened HashIndex
  import opened Chains

  class Node {
    var key: Option<CKey>  // None is a NULL key: an unused head
    var val: Bytes
    var next: Node?
    ghost const home: nat  // the number of the bucket the node was made for

    constructor (key: Option<CKey>, val: Bytes, next: Node?, ghost home: nat)
      ensures this.key == key && this.val == val && this.next == next && this.home == home
    {
      this.key, this.val, this.next, this.home := key, val, next, home;
    }
  }

  /** The node at the position, or null behind the last one. */
  ghost function At(nodes: seq<Node>, i: nat): Node? {
    if i < |nodes| then nodes[i] else null
  }

  /** The nodes are different, and each points to the one behind it. */
  ghost predicate Linked(nodes: seq<Node>)
    reads nodes
  {
    (forall i, j | 0 <= i < j < |nodes| :: nodes[i] != nodes[j]) &&
    forall i {:trigger nodes[i].next} | 0 <= i < |nodes| :: nodes[i].next == At(nodes, i + 1)
  }

  /** The first nodes hold these entries. */
  ghost predicate Stores(nodes: seq<Node>, c: Chain<Bytes>)
    reads nodes
  {
    |c| <= |nodes| && forall i | 0 <= i < |c| :: nodes[i].key == Some(c[i].key) && nodes[i].val == c[i].val
  }

  /** The chain after the node in front of position i has been pointed past it. */
  ghost predicate LinkedPast(nodes: seq<Node>, i: nat)
    requires 0 < i < |nodes|
    reads nodes
  {
    (forall j, k | 0 <= j < k < |nodes| :: nodes[j] != nodes[k]) &&
    forall k {:trigger nodes[k].next} | 0 <= k < |nodes| ::
      nodes[k].next == if k == i - 1 then At(nodes, i + 1) else At(nodes, k + 1)
  }

  /** The chain after n has been put between its first node and the rest. */
  lemma LinkedPush(nodes: seq<Node>, n: Node)
    requires nodes != [] && n !in nodes && nodes[0].next == n && n.next == At(nodes, 1)
    requires forall j, k | 0 <= j < k < |nodes| :: nodes[j] != nodes[k]
    requires forall k {:trigger nodes[k].next} | 0 < k < |nodes| :: nodes[k].next == At(nodes, k + 1)
    ensures Linked([nodes[0], n] + nodes[1..])
  {
    var r := [nodes[0], n] + nodes[1..];
    PushedAt(nodes, n);
    forall k | 0 <= k < |r|
      ensures r[k].next == At(r, k + 1)
    {
      if k > 1 {
        assert r[k] == nodes[k - 1] && At(r, k + 1) == At(nodes, k);
      }
    }
  }

  lemma StoresPush(nodes: seq<Node>, n: Node, c: Chain<Bytes>, e: Entry<Bytes>)
    requires Stores(nodes, c) && c != [] && n.key == Some(e.key) && n.val == e.val
    ensures Stores([nodes[0], n] + nodes[1..], [c[0], e] + c[1..])
  {
    PushedAt(nodes, n);
    PushedAt(c, e);
  }

  lemma DistinctPush(c: Chain<Bytes>, e: Entry<Bytes>)
    requires DistinctKeys(c) && c != [] && forall x <- c :: x.key != e.key
    ensures DistinctKeys([c[0], e] + c[1..])
  {
    PushedAt(c, e);
  }

  lemma Pushed(nodes: seq<Node>, n: Node, c: Chain<Bytes>, e: Entry<Bytes>)
      returns (nodes': seq<Node>, c': Chain<Bytes>)
    requires nodes != [] && n !in nodes && nodes[0].next == n && n.next == At(nodes, 1)
    requires forall j, k | 0 <= j < k < |nodes| :: nodes[j] != nodes[k]
    requires forall k {:trigger nodes[k].next} | 0 < k < |nodes| :: nodes[k].next == At(nodes, k + 1)
    requires Stores(nodes, c) && |c| == |nodes| && n.key == Some(e.key) && n.val == e.val
    requires DistinctKeys(c) && forall x <- c :: x.key != e.key
    ensures |nodes'| == |c'| == |c| + 1 && nodes'[0] == nodes[0] && forall m <- nodes' :: m == n || m in nodes
    ensures c' == [c[0], e] + c[1..] && n in nodes' && forall m <- nodes :: m in nodes'
    ensures Linked(nodes') && Stores(nodes', c') && DistinctKeys(c')
  {
    nodes', c' := [nodes[0], n] + nodes[1..], [c[0], e] + c[1..];
    LinkedPush(nodes, n);
    StoresPush(nodes, n, c, e);
    DistinctPush(c, e);
    PushedAt(nodes, n);
    assert nodes'[1] == n && forall k | 0 <= k < |nodes| :: nodes[k] == nodes'[if k == 0 then 0 else k + 1];
  }

  lemma LinkedCut(nodes: seq<Node>, i: nat)
    requires 0 < i < |nodes| && LinkedPast(nodes, i)
    ensures Linked(Cut(nodes, i)) && Cut(nodes, i)[0] == nodes[0] && forall n <- Cut(nodes, i) :: n in nodes
  {
    var r := Cut(nodes, i);
    CutAt(nodes, i);
    forall k | 0 <= k < |r|
      ensures r[k].next == At(r, k + 1)
    {
      assert r[k] == nodes[if k < i then k else k + 1];
    }
  }

  lemma StoresCut(nodes: seq<Node>, c: Chain<Bytes>, i: nat)
    requires Stores(nodes, c) && i < |c| == |nodes| && DistinctKeys(c)
    ensures Stores(Cut(nodes, i), Cut(c, i)) && DistinctKeys(Cut(c, i))
  {
    CutAt(nodes, i);
    CutAt(c, i);
  }

  /** One slot of the bucket array and its chain. */
  class Bucket {
    const head: Node
    ghost const id: nat
    ghost var spine: seq<Node>
    ghost var contents: Chain<Bytes>

    ghost predicate Valid()
      reads this, Nodes()
    {
      |spine| > 0 && spine[0] == head && (forall n <- spine :: n.home == id) && Linked(spine) &&
      |contents| == (if head.key.None? then 0 else |spine|) &&
      (head.key.None? ==> |spine| == 1) &&
      Stores(spine, contents) && DistinctKeys(contents)
    }

    /** The nodes of the chain, the head included. */
    ghost function Nodes(): set<Node>
      reads this
    {
      set n <- spine
    }

    constructor (ghost id: nat)
      ensures Valid() && fresh(Nodes()) && contents == [] && this.id == id
    {
      this.id := id;
      head := new Node(None, [], null, id);
      spine := [head];
      contents := [];
    }

    /** The loop all operations share: walk the chain up to the node that holds the key. */
    method Locate(key: CKey) returns (last: Node?, b: Node?, ghost i: nat)
      requires Valid()
      ensures i == (if IndexOf(contents, key) < |contents| then IndexOf(contents, key) else |spine|)
      ensures b == At(spine, i)
      ensures last == if i > 0 then spine[i - 1] else null
    {
      last, b, i := null, head, 0;
      while b != null
        invariant 0 <= i <= |spine| && b == At(spine, i)
        invariant last == if i > 0 then spine[i - 1] else null
        invariant forall j | 0 <= j < i && j < |contents| :: contents[j].key != key
        decreases |spine| - i
      {
        if i < |contents| {
          KeyCmpIsEquality(key, b.key.value);
        }
        if b.key.Some? && KeyCmp(key, b.key.value) {
          return;
        }
        last, b := b, b.next;
        i := i + 1;
      }
    }

    method Lookup(key: CKey) returns (val: Option<Bytes>)
      requires Valid()
      ensures val == Find(contents, key)
    {
      var last, b, i := Locate(key);
      val := if b == null then None else Some(b.val);
    }

    method Walk(stop: Entry<Bytes> -> bool) returns (hit: Option<Entry<Bytes>>)
      requires Valid()
      ensures hit == FirstHit(contents, stop)
    {
      var b: Node? := head;
      ghost var i := 0;
      while b != null && b.key != None
        invariant 0 <= i <= |spine| && b == At(spine, i)
        invariant i <= |contents| && FirstHit(contents, stop) == FirstHit(contents[i..], stop)
        decreases |spine| - i
      {
        assert contents[i..][1..] == contents[i + 1..];
        if stop(Entry(b.key.value, b.val)) {
          return Some(Entry(b.key.value, b.val));
        }
        b := b.next;
        i := i + 1;
      }
      return None;
    }

    method Insert(key: CKey, val: Bytes)
      requires Valid()
      modifies this, Nodes()
      ensures Valid() && contents == Inserted(old(contents), key, val)
      ensures fresh(Nodes() - old(Nodes()))
    {
      if head.key.None? {
        head.key := Some(key);
        head.val := val;
        contents := [Entry(key, val)];
        return;
      }
      var last, b, i := Locate(key);
      if b != null {
        OverlayAt(b, i, val);
      } else {
        PushBehindHead(key, val);
      }
    }

    method OverlayAt(b: Node, ghost i: nat, val: Bytes)
      requires Valid() && i < |contents| && b == spine[i]
      modifies this, b
      ensures Valid() && spine == old(spine)
      ensures contents == old(contents)[i := Entry(old(contents)[i].key, Overlay(old(contents)[i].val, val))]
    {
      b.val := Overlay(b.val, val);
      contents := contents[i := Entry(contents[i].key, b.val)];
    }

    method PushBehindHead(key: CKey, val: Bytes)
      requires Valid() && contents != [] && forall e <- contents :: e.key != key
      modifies this, Nodes()
      ensures Valid() && contents == [old(contents)[0], Entry(key, val)] + old(contents)[1..]
      ensures fresh(Nodes() - old(Nodes()))
    {
      var n := new Node(Some(key), val, head.next, id);
      head.next := n;
      spine, contents := Pushed(spine, n, contents, Entry(key, val));
    }

    /** b says what the head slot says; behind the end of a chain that is nothing. */
    ghost predicate LikeHead(b: Node?)
      reads this, head, if b == null then {} else {b}
    {
      if b == null then contents == [] else b.key == head.key && b.next == head.next
    }

    /** Deleting the head entry copies the second node up into the bucket array; the nodes of the
        chain, the copied one included, are not touched. */
    method Delete(key: CKey) returns (val: Option<Bytes>)
      requires Valid()
      modifies this, Nodes()
      ensures Valid() && contents == Removed(old(contents), key) && val == Find(old(contents), key)
      ensures Nodes() <= old(Nodes())
      ensures old(contents) != [] && old(contents)[0].key == key ==> LikeHead(old(head.next))
      ensures old(contents) != [] && old(contents)[0].key == key && old(head.next) != null ==> unchanged(old(head.next))
    {
      if head.key.None? {
        return None;
      }
      var last, b, i := Locate(key);
      if b == null {
        return None;
      }
      val := Some(b.val);
      if b == head {
        RemoveHead();
      } else {
        RemoveBehind(last, b, i);
      }
    }

    method RemoveHead()
      requires Valid() && contents != []
      modifies this, head
      ensures Valid() && contents == old(contents)[1..]
      ensures Nodes() <= old(Nodes())
      ensures LikeHead(old(head.next))
    {
      if head.next != null {
        head.key := head.next.key;
        head.val := head.next.val;
        head.next := head.next.next;
        assert LinkedPast(spine, 1);
        LinkedCut(spine, 1);
        spine := Cut(spine, 1);
      } else {
        head.key, head.val, head.next := None, [], null;
      }
      contents := contents[1..];
    }

    method RemoveBehind(last: Node, b: Node, ghost i: nat)
      requires Valid() && 0 < i < |contents| && last == spine[i - 1] && b == spine[i]
      modifies this, last
      ensures Valid() && contents == Cut(old(contents), i)
      ensures Nodes() <= old(Nodes())
    {
      last.next := b.next;
      assert LinkedPast(spine, i);
      LinkedCut(spine, i);
      StoresCut(spine, contents, i);
      spine := Cut(spine, i);
      contents := Cut(contents, i);
    }

    /** The part of hash_destroy that empties one bucket. The node saved in `next` before a delete is
        the one the delete copies up, so when its turn comes the head slot carries its key. */
    method Drain() returns (freed: Chain<Bytes>)
      requires Valid()
      modifies this, Nodes()
      ensures Valid() && contents == [] && freed == old(contents)
      ensures Nodes() <= old(Nodes())
    {
      freed := [];
      var b: Node? := head;
      ghost var was, all := contents, Nodes();
      while b != null
        invariant Valid() && freed + contents == was && Nodes() <= all
        invariant LikeHead(b)
        decreases |contents|, b != null
      {
        b, freed := DrainStep(b, freed, all);
      }
    }

    /** One round of the loop. */
    method DrainStep(b: Node, before: Chain<Bytes>, ghost all: set<Node>) returns (next: Node?, freed: Chain<Bytes>)
      requires Valid() && LikeHead(b) && Nodes() <= all
      modifies this, all
      ensures Valid() && freed + contents == before + old(contents) && Nodes() <= all
      ensures LikeHead(next) && (next != null ==> |contents| < |old(contents)|)
    {
      next := b.next;
      freed := before;
      if b.key.Some? {
        var e := DeleteFirst(b.key.value);
        freed := before + [e];
        assert freed + contents == before + ([e] + contents);
      }
    }

    /** hash_delete of the key in the head slot. */
    method DeleteFirst(key: CKey) returns (e: Entry<Bytes>)
      requires Valid() && contents != [] && contents[0].key == key
      modifies this, Nodes()
      ensures Valid() && old(contents) == [e] + contents && e.key == key
      ensures Nodes() <= old(Nodes())
      ensures LikeHead(old(head.next))
    {
      FirstOf(contents, key);
      var val := Delete(key);
      e := Entry(key, val.value);
    }
  }

  lemma PushedAt<T>(s: seq<T>, x: T)
    requires s != []
    ensures var r := [s[0], x] + s[1..];
      |r| == |s| + 1 && forall k | 0 <= k < |r| :: r[k] == if k == 0 then s[0] else if k == 1 then x else s[k - 1]
  {
  }

  lemma FirstOf(c: Chain<Bytes>, key: CKey)
    requires c != [] && c[0].key == key
    ensures Find(c, key).Some? && c == [Entry(key, Find(c, key).value)] + Removed(c, key)
  {
    assert Removed(c, key) == c[1..];
  }

  lemma AfterRemove(t: Table<Bytes>, m: map<CKey, Bytes>, key: CKey) returns (t': Table<Bytes>, found: Option<Bytes>)
    requires WellPlaced(t) && Represents(t, m)
    ensures var b := HashVal(key, |t|); b < |t| && t' == t[b := Removed(t[b], key)] && found == Chains.Find(t[b], key)
    ensures WellPlaced(t') && Represents(t', m - {key}) && found == if key in m then Some(m[key]) else None
  {
    RemoveRefinesMap(t, m, key);
    var b := Chains.Bucket(t, key);
    t', found := t[b := Removed(t[b], key)], Chains.Find(t[b], key);
  }

  lemma AfterInsert(t: Table<Bytes>, m: map<CKey, Bytes>, key: CKey, val: Bytes) returns (t': Table<Bytes>)
    requires WellPlaced(t) && Represents(t, m)
    ensures var b := HashVal(key, |t|); b < |t| && t' == t[b := Inserted(t[b], key, val)]
    ensures WellPlaced(t') && Represents(t', m[key := if key in m then Overlay(m[key], val) else val])
  {
    InsertRefinesMap(t, m, key, val);
    t' := t[Chains.Bucket(t, key) := Inserted(t[Chains.Bucket(t, key)], key, val)];
  }

  lemma EmptyTable(t: Table<Bytes>)
    requires IsPow2(|t|) && forall i | 0 <= i < |t| :: t[i] == []
    ensures WellPlaced(t) && Represents(t, map[])
  {
    forall k: CKey ensures Lookup(t, k) == None { BucketInRange(t, k); }
  }

  method NewBuckets(n: nat) returns (buckets: seq<Bucket>, ghost nodes: set<Node>)
    ensures |buckets| == n && fresh(nodes)
    ensures forall i | 0 <= i < n :: fresh(buckets[i]) && IsNew(buckets[i], i, nodes)
  {
    buckets, nodes := [], {};
    for i := 0 to n
      invariant |buckets| == i && fresh(nodes)
      invariant forall j | 0 <= j < i :: fresh(buckets[j]) && IsNew(buckets[j], j, nodes)
    {
      var b := new Bucket(i);
      buckets := buckets + [b];
      nodes := nodes + b.Nodes();
    }
  }

  ghost predicate IsNew(b: Bucket, i: nat, nodes: set<Node>)
    reads b, b.Nodes()
  {
    b.Valid() && b.contents == [] && b.id == i && b.Nodes() <= nodes
  }

  /** The whole table: a fixed array of buckets, standing for the map M. */
  class HashTable {
    const size: nat
    const node: seq<Bucket>
    ghost var M: map<CKey, Bytes>
    ghost var Repr: set<Node>

    ghost function Abs(): Table<Bytes>
      reads node
    {
      seq(|node|, i requires 0 <= i < |node| reads node => node[i].contents)
    }

    ghost predicate Separate()
      reads this`Repr, node, Repr
    {
      forall i | 0 <= i < |node| :: node[i].id == i && node[i].Nodes() <= Repr && node[i].Valid()
    }

    ghost predicate Valid()
      reads this, node, Repr
    {
      size == |node| && Separate() && WellPlaced(Abs()) && Represents(Abs(), M)
    }

    constructor (size0: nat)
      requires 1 <= size0 <= U64 / 2 && NoGap(size0 - 1)
      ensures Valid() && M == map[]
      ensures LeastPow2AtLeast(size, size0)
      ensures forall b <- node :: fresh(b)
      ensures fresh(Repr)
    {
      var n := RoundSize(size0);
      var buckets, nodes := NewBuckets(n);
      size := n;
      node := buckets;
      M := map[];
      Repr := nodes;
      new;
      EmptyTable(Abs());
    }

    /** What happens to the nodes of one bucket leaves the others as they were. */
    twostate lemma OthersStand(i: nat)
      requires old(Separate())
      requires forall j | 0 <= j < |node| && j != i :: unchanged(node[j])
      requires forall n <- old(Repr) | n.home != i :: unchanged(n)
      ensures forall j | 0 <= j < |node| && j != i :: node[j].Valid() && node[j].contents == old(node[j].contents)
      ensures forall j | 0 <= j < |node| && j != i :: node[j].Nodes() == old(node[j].Nodes())
    {
      forall j | 0 <= j < |node| && j != i
        ensures node[j].Valid() && node[j].Nodes() == old(node[j].Nodes())
      {
        assert old(node[j].Valid());
      }
    }

    method InsertAt(i: nat, key: CKey, val: Bytes)
      requires Separate() && i < |node|
      modifies this`Repr, node, Repr
      ensures Separate() && fresh(Repr - old(Repr))
      ensures Abs() == old(Abs())[i := Inserted(old(Abs())[i], key, val)]
    {
      node[i].Insert(key, val);
      OthersStand(i);
      Repr := Repr + node[i].Nodes();
    }

    method DeleteAt(i: nat, key: CKey) returns (val: Option<Bytes>)
      requires Separate() && i < |node|
      modifies node, Repr
      ensures Separate()
      ensures Abs() == old(Abs())[i := Removed(old(Abs())[i], key)]
      ensures val == Chains.Find(old(Abs())[i], key)
    {
      val := node[i].Delete(key);
      OthersStand(i);
    }

    method DrainAt(i: nat) returns (freed: Chain<Bytes>)
      requires Separate() && i < |node|
      modifies node, Repr
      ensures Separate()
      ensures Abs() == old(Abs())[i := []] && freed == old(Abs())[i]
    {
      freed := node[i].Drain();
      OthersStand(i);
    }

    method Insert(key: CKey, val: Bytes)
      requires Valid()
      modifies this, node, Repr
      ensures Valid() && fresh(Repr - old(Repr))
      ensures M == old(M)[key := if key in old(M) then Overlay(old(M)[key], val) else val]
      ensures key in M && if key in old(M) then IsOverlay(old(M)[key], val, M[key]) else M[key] == val
    {
      if key in M {
        OverlayExact(M[key], val, Overlay(M[key], val));
      }
      ghost var m := M[key := if key in M then Overlay(M[key], val) else val];
      ghost var t' := AfterInsert(Abs(), M, key, val);
      InsertAt(HashVal(key, size), key, val);
      assert Abs() == t';
      M := m;
    }

    method Find(key: CKey) returns (val: Option<Bytes>)
      requires Valid()
      ensures val == if key in M then Some(M[key]) else None
    {
      BucketInRange(Abs(), key);
      assert Lookup(Abs(), key) == if key in M then Some(M[key]) else None;
      val := node[HashVal(key, size)].Lookup(key);
    }

    method Delete(key: CKey) returns (val: Option<Bytes>)
      requires Valid()
      modifies this, node, Repr
      ensures Valid() && Repr == old(Repr)
      ensures M == old(M) - {key} && val == if key in old(M) then Some(old(M)[key]) else None
    {
      ghost var t, m := Abs(), M - {key};
      ghost var t', found := AfterRemove(t, M, key);
      val := DeleteAt(HashVal(key, size), key);
      assert Abs() == t' && val == found && |t'| == |t|;
      M := m;
    }

    /** hash_walkfrom with a callback that changes nothing; hash_foreach is WalkFrom(0, stop). */
    method WalkFrom(from: nat, stop: Entry<Bytes> -> bool) returns (hit: Option<Entry<Bytes>>)
      requires size == |node| && Separate()
      ensures hit == WalkHit(Abs(), from, stop)
    {
      hit := None;
      ghost var t := Abs();
      var i := from;
      while i < size && hit == None
        invariant WalkHit(t, from, stop) == if hit.Some? then hit else WalkHit(t, i, stop)
        decreases size - i
      {
        WalkStep(t, i, stop);
        assert node[i].Valid() && node[i].contents == t[i];
        hit := node[i].Walk(stop);
        i := i + 1;
      }
      WalkStep(t, i, stop);
    }

    /** hash_destroy: the values it frees are all the stored ones, each once. */
    method Destroy() returns (freed: Chain<Bytes>)
      requires Valid()
      modifies node, Repr
      ensures Separate() && Abs() == Emptied(old(Abs()), size) && DistinctKeys(freed)
      ensures forall e :: e in freed <==> e.key in old(M) && old(M)[e.key] == e.val
    {
      ghost var t, m := Abs(), M;
      freed := DrainAll();
      FlattenDistinct(t, 0);
      forall e ensures e in Flatten(t, 0) <==> e.key in m && m[e.key] == e.val { FlattenRepresents(t, m, e); }
    }

    /** One round of the loop over the buckets of a table that was t. */
    method DrainNext(i: nat, ghost t: Table<Bytes>) returns (freed: Chain<Bytes>)
      requires Separate() && i < |node| == |t| && Abs() == Emptied(t, i)
      modifies node, Repr
      ensures Separate() && Abs() == Emptied(t, i + 1) && freed == t[i]
    {
      EmptiedStep(t, i);
      freed := DrainAt(i);
    }

    method DrainAll() returns (freed: Chain<Bytes>)
      requires size == |node| && Separate()
      modifies node, Repr
      ensures Separate() && Abs() == Emptied(old(Abs()), size)
      ensures freed == Flatten(old(Abs()), 0)
    {
      freed := [];
      ghost var t := Abs();
      var i := 0;
      EmptiedStep(t, 0);
      while i < size
        invariant i <= size && Separate()
        invariant Abs() == Emptied(t, i)
        invariant freed + Flatten(t, i) == Flatten(t, 0)
      {
        FreedStep(freed, t, i);
        var chain := DrainNext(i, t);
        freed := freed + chain;
        i := i + 1;
      }
    }
  }

  lemma FreedStep<V>(freed: Chain<V>, t: Table<V>, i: nat)
    requires i < |t|
    ensures freed + Flatten(t, i) == (freed + t[i]) + Flatten(t, i + 1)
  {
    assert Flatten(t, i) == t[i] + Flatten(t, i + 1);
  }

  /** The table with its first n buckets emptied. */
  function Emptied<V>(t: Table<V>, n: nat): Table<V> {
    seq(|t|, j requires 0 <= j < |t| => if j < n then [] else t[j])
  }

  lemma EmptiedStep<V>(t: Table<V>, i: nat)
    ensures Emptied(t, 0) == t
    ensures i < |t| ==> Emptied(t, i)[i] == t[i] && Emptied(t, i)[i := []] == Emptied(t, i + 1)
  {
  }
}
