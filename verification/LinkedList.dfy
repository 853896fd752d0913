/** The doubly linked list of lib/llist.c. */
module LinkedList {
  class Entry<T> {
    var val: T
    var prev: Entry?<T>
    var next: Entry?<T>

    constructor (v: T)
      ensures val == v && prev == null && next == null
    {
      val, prev, next := v, null, null;
    }
  }

  /** The entry at position i, with nothing in front of the list and nothing behind it. */
  ghost function At<T>(s: seq<Entry<T>>, i: int): Entry?<T> {
    if 0 <= i < |s| then s[i] else null
  }

  ghost predicate Distinct<T>(s: seq<Entry<T>>) {
    forall i, j | 0 <= i < j < |s| :: s[i] != s[j]
  }

  ghost predicate LinkedAt<T>(s: seq<Entry<T>>, i: nat)
    requires i < |s|
    reads {s[i]}`prev, {s[i]}`next
  {
    s[i].prev == At(s, i - 1) && s[i].next == At(s, i + 1)
  }

  ghost predicate Linked<T>(s: seq<Entry<T>>)
    reads (set x | x in s)`prev, (set x | x in s)`next
  {
    Distinct(s) && forall i | 0 <= i < |s| :: LinkedAt(s, i)
  }

  ghost function Values<T>(s: seq<Entry<T>>): (v: seq<T>)
    reads s
    ensures |v| == |s|
    ensures forall i | 0 <= i < |s| :: v[i] == s[i].val
  {
    seq(|s|, i requires 0 <= i < |s| reads s => s[i].val)
  }

  /** The sequence s with the first e taken out. */
  ghost function Without<T>(s: seq<Entry<T>>, e: Entry<T>): seq<Entry<T>> {
    if s == [] then [] else if s[0] == e then s[1..] else [s[0]] + Without(s[1..], e)
  }

  lemma {:induction false} WithoutAt<T>(s: seq<Entry<T>>, i: nat)
    requires Distinct(s) && i < |s|
    ensures Without(s, s[i]) == s[..i] + s[i + 1..]
  {
    if i > 0 {
      assert s[1..][i - 1] == s[i];
      WithoutAt(s[1..], i - 1);
      assert s[..i] == [s[0]] + s[1..][..i - 1] && s[1..][i..] == s[i + 1..];
    }
  }

  lemma {:induction false} WithoutAbsent<T>(s: seq<Entry<T>>, e: Entry<T>)
    requires e !in s
    ensures Without(s, e) == s
  {
    if s != [] {
      WithoutAbsent(s[1..], e);
    }
  }

  /** Removing what was just added gives the old list back. */
  lemma RemoveUndoesAdd<T>(s: seq<Entry<T>>, e: Entry<T>)
    ensures Without([e] + s, e) == s
  {
    assert ([e] + s)[1..] == s;
  }

  /** prev and next are inverse to each other, and following next from anywhere ends. */
  lemma LinksAreInverse<T>(s: seq<Entry<T>>, e: Entry<T>)
    requires Linked(s) && e in s
    ensures e.next != null ==> e.next in s && e.next.prev == e
    ensures e.prev != null ==> e.prev in s && e.prev.next == e
    ensures e.next == null <==> e == s[|s| - 1]
    ensures e.prev == null <==> e == s[0]
  {
    var i :| 0 <= i < |s| && s[i] == e;
    assert LinkedAt(s, i);
    assert i + 1 < |s| ==> LinkedAt(s, i + 1);
    assert i > 0 ==> LinkedAt(s, i - 1);
  }

  class List<T(!new)> {
    var head: Entry?<T>
    ghost var spine: seq<Entry<T>>

    ghost predicate Valid()
      reads this, (set x | x in spine)`prev, (set x | x in spine)`next
    {
      head == At(spine, 0) && Linked(spine)
    }

    constructor ()
      ensures Valid() && spine == []
    {
      head, spine := null, [];
    }

    /** llist_add */
    method Add(e: Entry<T>)
      requires Valid() && e !in spine
      modifies this, e`prev, e`next, (if head == null then {} else {head})`prev
      ensures Valid() && spine == [e] + old(spine)
    {
      if head != null {
        e.prev := null;
        e.next := head;
        head.prev := e;
        head := e;
      } else {
        e.prev := null;
        e.next := null;
        head := e;
      }
      ghost var s := spine;
      spine := [e] + spine;
      forall i | 0 <= i < |spine|
        ensures LinkedAt(spine, i)
      {
        assert i > 0 ==> spine[i] == s[i - 1] && old(LinkedAt(s, i - 1));
      }
    }

    /** llist_remove. The entry taken out keeps its own pointers. */
    method Remove(e: Entry<T>) returns (rc: int)
      requires Valid()
      modifies this, (set x | x in spine)`prev, (set x | x in spine)`next
      ensures Valid() && spine == Without(old(spine), e)
      ensures rc == (if e in old(spine) then 0 else -1)
      ensures e.prev == old(e.prev) && e.next == old(e.next)
    {
      ghost var s := spine;
      ghost var i := 0;
      var ei := head;
      while ei != null
        invariant 0 <= i <= |s| && ei == At(s, i) && e !in s[..i]
        invariant Valid() && spine == s && e.prev == old(e.prev) && e.next == old(e.next)
        modifies {}
        decreases |s| - i
      {
        assert LinkedAt(s, i);
        if ei == e {
          break;
        }
        ei := ei.next;
        i := i + 1;
      }
      if ei == null {
        WithoutAbsent(s, e);
        return -1;
      }
      WithoutAt(s, i);
      Unlink(e, i);
      return 0;
    }

    /** The four cases of llist_remove for an entry found at position i. */
    method Unlink(e: Entry<T>, ghost i: nat)
      requires Valid() && i < |spine| && spine[i] == e
      modifies this, (set x | x in spine)`prev, (set x | x in spine)`next
      ensures Valid() && spine == old(spine[..i] + spine[i + 1..])
      ensures e.prev == old(e.prev) && e.next == old(e.next)
    {
      assert LinkedAt(spine, i);
      if e == head && e.next == null {
        head := null;
      } else if e == head && e.next != null {
        e.next.prev := null;
        head := e.next;
      } else if e.next == null {
        e.prev.next := null;
      } else {
        e.prev.next := e.next;
        e.next.prev := e.prev;
      }
      ghost var s := spine;
      spine := s[..i] + s[i + 1..];
      forall k | 0 <= k < |spine|
        ensures LinkedAt(spine, k)
      {
        assert old(LinkedAt(s, if k < i then k else k + 1));
      }
    }

    /** Removing the entry that was just added undoes the adding, in every link of the list. */
    method AddThenRemove(e: Entry<T>) returns (rc: int)
      requires Valid() && e !in spine
      modifies this, e`prev, e`next, (set x | x in spine)`prev, (set x | x in spine)`next
      ensures Valid() && rc == 0 && head == old(head) && spine == old(spine)
      ensures forall x <- spine :: x.prev == old(x.prev) && x.next == old(x.next)
    {
      ghost var s := spine;
      Add(e);
      rc := Remove(e);
      RemoveUndoesAdd(s, e);
      forall x | x in s
        ensures x.prev == old(x.prev) && x.next == old(x.next)
      {
        var i :| 0 <= i < |s| && s[i] == x;
        assert LinkedAt(s, i) && old(LinkedAt(s, i));
      }
    }

    /** The values, from the head on. */
    ghost function Vals(): seq<T>
      reads this, spine
    {
      Values(spine)
    }

    method Exchange(lle1: Entry<T>, lle2: Entry<T>, ghost i: nat, ghost j: nat)
      requires Valid() && i < j < |spine| && spine[i] == lle1 && spine[j] == lle2
      modifies lle1`val, lle2`val
      ensures Valid() && Vals() == Exchanged(old(Vals()), i, j)
    {
      var tmp := lle1.val;
      lle1.val := lle2.val;
      lle2.val := tmp;
    }

    /** One round of the inner loop. */
    method CompareAndExchange(lle1: Entry<T>, lle2: Entry<T>, ghost v0: seq<T>, ghost i: nat, ghost j: nat,
        compare: (T, T) -> int)
      requires Valid() && i < j < |spine| && spine[i] == lle1 && spine[j] == lle2
      requires Settled(v0, Vals(), i, j, compare)
      modifies lle1`val, lle2`val
      ensures Valid() && Settled(v0, Vals(), i, j + 1, compare)
    {
      ExchangeStep(v0, Vals(), i, j, compare);
      if compare(lle1.val, lle2.val) == 1 {
        Exchange(lle1, lle2, i, j);
      }
    }

    /** The inner loop of llist_sort: brings the least of the values from lle1 on to lle1. */
    method Settle(lle1: Entry<T>, ghost i: nat, compare: (T, T) -> int)
      requires Valid() && i < |spine| && spine[i] == lle1
      modifies (set x | x in spine)`val
      ensures Valid()
      ensures multiset(Vals()) == multiset(old(Vals()))
      ensures IsPreorder(compare) && SortedUpTo(old(Vals()), i, compare) ==> SortedUpTo(Vals(), i + 1, compare)
    {
      ghost var v0, j := Vals(), i + 1;
      assert LinkedAt(spine, i);
      var lle2 := lle1.next;
      while lle2 != null
        invariant i < j <= |spine| && lle2 == At(spine, j) && Valid()
        invariant Settled(v0, Vals(), i, j, compare)
        decreases |spine| - j
      {
        assert LinkedAt(spine, j);
        CompareAndExchange(lle1, lle2, v0, i, j, compare);
        lle2 := lle2.next;
        j := j + 1;
      }
      NextIsSorted(Vals(), i, compare);
    }

    /** llist_sort: exchanges values, never links. */
    method Sort(compare: (T, T) -> int)
      requires Valid()
      modifies (set x | x in spine)`val
      ensures Valid()
      ensures multiset(Vals()) == multiset(old(Vals()))
      ensures IsPreorder(compare) ==> Sorted(Vals(), compare)
    {
      ghost var i := 0;
      var lle1 := head;
      while lle1 != null
        invariant 0 <= i <= |spine| && lle1 == At(spine, i) && Valid()
        invariant multiset(Vals()) == multiset(old(Vals()))
        invariant IsPreorder(compare) ==> SortedUpTo(Vals(), i, compare)
        decreases |spine| - i
      {
        assert LinkedAt(spine, i);
        Settle(lle1, i, compare);
        lle1 := lle1.next;
        i := i + 1;
      }
    }
  }

  // ---- The exchange sort on values ----

  predicate Le<T>(compare: (T, T) -> int, a: T, b: T) {
    compare(a, b) != 1
  }

  /** "Not 1" is total and transitive. */
  ghost predicate IsPreorder<T(!new)>(compare: (T, T) -> int) {
    (forall a, b :: Le(compare, a, b) || Le(compare, b, a)) &&
    (forall a, b, c :: Le(compare, a, b) && Le(compare, b, c) ==> Le(compare, a, c))
  }

  ghost predicate Sorted<T>(v: seq<T>, compare: (T, T) -> int) {
    forall p, q | 0 <= p < q < |v| :: Le(compare, v[p], v[q])
  }

  /** The first i values are in order and not above any later one. */
  ghost predicate SortedUpTo<T>(v: seq<T>, i: nat, compare: (T, T) -> int) {
    forall p, q | 0 <= p < q < |v| && p < i :: Le(compare, v[p], v[q])
  }

  /** The value at i is not above those between i and j. */
  ghost predicate LeastOf<T>(v: seq<T>, i: nat, j: nat, compare: (T, T) -> int) {
    forall q | i < q < j && q < |v| :: Le(compare, v[i], v[q])
  }

  /** v' is v after the inner loop at i has come to j. */
  ghost predicate Settled<T(!new)>(v: seq<T>, v': seq<T>, i: nat, j: nat, compare: (T, T) -> int) {
    multiset(v') == multiset(v) &&
    (IsPreorder(compare) && SortedUpTo(v, i, compare) ==> SortedUpTo(v', i, compare) && LeastOf(v', i, j, compare))
  }

  ghost function Exchanged<T>(v: seq<T>, i: nat, j: nat): seq<T>
    requires i < |v| && j < |v|
  {
    v[i := v[j]][j := v[i]]
  }

  lemma ExchangeStep<T(!new)>(v0: seq<T>, v: seq<T>, i: nat, j: nat, compare: (T, T) -> int)
    requires i < j < |v| && Settled(v0, v, i, j, compare)
    ensures Settled(v0, if compare(v[i], v[j]) == 1 then Exchanged(v, i, j) else v, i, j + 1, compare)
  {
    var v' := if compare(v[i], v[j]) == 1 then Exchanged(v, i, j) else v;
    assert multiset(v') == multiset(v);
    if IsPreorder(compare) && SortedUpTo(v0, i, compare) {
      assert Le(compare, v[i], v[j]) || Le(compare, v[j], v[i]);
      forall q | i < q < j + 1
        ensures Le(compare, v'[i], v'[q])
      {
        if q < j {
          assert Le(compare, v[i], v[q]);
        }
      }
    }
  }

  lemma NextIsSorted<T(!new)>(v: seq<T>, i: nat, compare: (T, T) -> int)
    requires i < |v|
    ensures SortedUpTo(v, i, compare) && LeastOf(v, i, |v|, compare) ==> SortedUpTo(v, i + 1, compare)
  {
  }

  // ---- The comparators of lib/ganglia.c ----

  datatype Host = Host(load: real, cpus: real, lastReported: real)

  function LoadSort(a: Host, b: Host): int {
    if a.load - a.cpus > b.load - b.cpus then 1 else 0
  }

  function DeadHostsSort(a: Host, b: Host): int {
    if a.lastReported < b.lastReported then 1 else 0
  }

  /** Sorted by them, the least loaded host and the latest crash come first. */
  lemma HostOrders(v: seq<Host>)
    ensures IsPreorder(LoadSort) && IsPreorder(DeadHostsSort)
    ensures Sorted(v, LoadSort) <==> forall p, q | 0 <= p < q < |v| :: v[p].load - v[p].cpus <= v[q].load - v[q].cpus
    ensures Sorted(v, DeadHostsSort) <==> forall p, q | 0 <= p < q < |v| :: v[p].lastReported >= v[q].lastReported
  {
    assert forall a, b :: Le(LoadSort, a, b) <==> a.load - a.cpus <= b.load - b.cpus;
    assert forall a, b :: Le(DeadHostsSort, a, b) <==> a.lastReported >= b.lastReported;
  }
}
