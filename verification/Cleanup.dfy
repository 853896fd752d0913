/** The expiry sweep of gmetad/cleanup.c. A sweep deletes by resuming a walk, again and again, at the
    bucket of the entry it deleted last. */
module Cleanup {
  import opened Base
  import opened Words
  import opened HashIndex
  import opened Chains
  import HashTable

  datatype Metric = Metric(t0: int, dmax: nat)
  datatype Host = Host(t0: int, dmax: nat, metrics: Table<Metric>)
  datatype Source = Source(summary: Table<Metric>, authority: Option<Table<Host>>)

  /** Older than its DMAX, which 0 switches off. The birth time is held in an unsigned 32-bit
      variable; the age is a signed difference. */
  predicate Expired(t0: int, dmax: nat, now: int) {
    dmax != 0 && now - t0 % U32 > dmax
  }

  function MetricDead(now: int): Entry<Metric> -> bool {
    (e: Entry<Metric>) => Expired(e.val.t0, e.val.dmax, now)
  }

  function HostDead(now: int): Entry<Host> -> bool {
    (e: Entry<Host>) => Expired(e.val.t0, e.val.dmax, now)
  }

  // ---- What a sweep should leave ----

  function Keep<V>(c: Chain<V>, dead: Entry<V> -> bool): Chain<V> {
    if c == [] then []
    else if dead(c[0]) then Keep(c[1..], dead)
    else [c[0]] + Keep(c[1..], dead)
  }

  function Kept<V>(t: Table<V>, dead: Entry<V> -> bool): Table<V> {
    seq(|t|, i requires 0 <= i < |t| => Keep(t[i], dead))
  }

  function CleanHost(h: Host, now: int): Host {
    h.(metrics := Kept(h.metrics, MetricDead(now)))
  }

  function CleanEach(c: Chain<Host>, now: int): Chain<Host> {
    seq(|c|, i requires 0 <= i < |c| => Entry(c[i].key, CleanHost(c[i].val, now)))
  }

  /** The hosts that are not expired, each without its expired metrics. */
  function CleanChain(c: Chain<Host>, now: int): Chain<Host> {
    CleanEach(Keep(c, HostDead(now)), now)
  }

  function CleanHosts(t: Table<Host>, now: int): Table<Host> {
    seq(|t|, i requires 0 <= i < |t| => CleanChain(t[i], now))
  }

  function CleanSource(s: Source, now: int): Source {
    Source(Kept(s.summary, MetricDead(now)),
           if s.authority.Some? then Some(CleanHosts(s.authority.value, now)) else None)
  }

  // ---- Keep ----

  predicate NoneDead<V>(c: Chain<V>, dead: Entry<V> -> bool) {
    forall i | 0 <= i < |c| :: !dead(c[i])
  }

  lemma {:induction false} KeepAppend<V>(a: Chain<V>, b: Chain<V>, dead: Entry<V> -> bool)
    ensures Keep(a + b, dead) == Keep(a, dead) + Keep(b, dead)
  {
    if a == [] {
      assert a + b == b;
    } else {
      KeepAppend(a[1..], b, dead);
      assert (a + b)[0] == a[0] && (a + b)[1..] == a[1..] + b;
      assert [a[0]] + (Keep(a[1..], dead) + Keep(b, dead)) == [a[0]] + Keep(a[1..], dead) + Keep(b, dead);
    }
  }

  lemma {:induction false} KeepAll<V>(c: Chain<V>, dead: Entry<V> -> bool)
    ensures Keep(c, dead) == c <==> NoneDead(c, dead)
    ensures |Keep(c, dead)| <= |c|
  {
    if c != [] {
      KeepAll(c[1..], dead);
      assert c == [c[0]] + c[1..];
      if NoneDead(c, dead) {
        assert forall i | 0 <= i < |c[1..]| :: !dead(c[1..][i]) by {
          forall i | 0 <= i < |c[1..]| ensures !dead(c[1..][i]) { assert c[1..][i] == c[i + 1]; }
        }
      }
    }
  }

  /** A sweep removes all and only the dead entries. */
  lemma {:induction false} KeepExactly<V>(c: Chain<V>, dead: Entry<V> -> bool, e: Entry<V>)
    ensures e in Keep(c, dead) <==> e in c && !dead(e)
  {
    if c != [] {
      KeepExactly(c[1..], dead, e);
      assert c == [c[0]] + c[1..];
    }
  }

  lemma {:induction false} KeepDistinct<V>(c: Chain<V>, dead: Entry<V> -> bool)
    requires DistinctKeys(c)
    ensures DistinctKeys(Keep(c, dead))
  {
    if c != [] {
      KeepDistinct(c[1..], dead);
      var k := Keep(c[1..], dead);
      forall j | 0 <= j < |k|
        ensures k[j].key != c[0].key
      {
        KeepExactly(c[1..], dead, k[j]);
      }
    }
  }

  lemma {:induction false} KeepCut<V>(c: Chain<V>, dead: Entry<V> -> bool, n: nat)
    requires n < |c| && dead(c[n])
    ensures Keep(Cut(c, n), dead) == Keep(c, dead)
  {
    if n == 0 {
      assert Cut(c, 0) == c[1..];
    } else {
      KeepCut(c[1..], dead, n - 1);
      CutAt(c, n);
      CutAt(c[1..], n - 1);
      assert Cut(c, n)[1..] == Cut(c[1..], n - 1);
    }
  }

  lemma KeepRemoved<V>(c: Chain<V>, dead: Entry<V> -> bool, e: Entry<V>)
    requires DistinctKeys(c) && e in c && dead(e)
    ensures Keep(Removed(c, e.key), dead) == Keep(c, dead)
    ensures |Removed(c, e.key)| == |c| - 1
  {
    var n :| 0 <= n < |c| && c[n] == e;
    FindUnique(c, n);
    KeepCut(c, dead, n);
    CutAt(c, n);
  }

  /** On the map a table stands for, a sweep is the restriction to the living. */
  lemma SweepRefinesMap<V(!new)>(t: Table<V>, m: map<CKey, V>, dead: Entry<V> -> bool)
    requires WellPlaced(t) && Represents(t, m)
    ensures WellPlaced(Kept(t, dead))
    ensures Represents(Kept(t, dead), map k | k in m && !dead(Entry(k, m[k])) :: m[k])
  {
    var t', m' := Kept(t, dead), map k | k in m && !dead(Entry(k, m[k])) :: m[k];
    KeptWellPlaced(t, dead);
    forall k: CKey
      ensures Lookup(t', k) == if k in m' then Some(m'[k]) else None
    {
      BucketInRange(t, k);
      var c := t[Bucket(t, k)];
      assert Find(c, k) == Lookup(t, k);
      assert Find(Keep(c, dead), k) == Lookup(t', k);
      var i, j := IndexOf(c, k), IndexOf(Keep(c, dead), k);
      if j < |Keep(c, dead)| {
        KeepExactly(c, dead, Keep(c, dead)[j]);
        var n :| 0 <= n < |c| && c[n] == Keep(c, dead)[j];
        FindUnique(c, n);
      } else if i < |c| && !dead(c[i]) {
        KeepExactly(c, dead, c[i]);
      }
    }
  }

  lemma KeptWellPlaced<V>(t: Table<V>, dead: Entry<V> -> bool)
    requires WellPlaced(t)
    ensures WellPlaced(Kept(t, dead))
  {
    var t' := Kept(t, dead);
    forall i | 0 <= i < |t'|
      ensures DistinctKeys(t'[i]) && forall j | 0 <= j < |t'[i]| :: HashVal(t'[i][j].key, |t'|) == i
    {
      KeepDistinct(t[i], dead);
      forall j | 0 <= j < |t'[i]|
        ensures HashVal(t'[i][j].key, |t'|) == i
      {
        KeepExactly(t[i], dead, t'[i][j]);
        var n :| 0 <= n < |t[i]| && t[i][n] == t'[i][j];
      }
    }
  }

  // ---- The sweep of a metric table ----

  function Size<V>(t: Table<V>): nat {
    |Flatten(t, 0)|
  }

  lemma {:induction false} SizeShrinks<V>(t: Table<V>, b: nat, c: Chain<V>, from: nat)
    requires b < |t| && |c| < |t[b]|
    ensures |Flatten(t[b := c], from)| == |Flatten(t, from)| - if from <= b then |t[b]| - |c| else 0
    decreases |t| - from
  {
    if from < |t| {
      SizeShrinks(t, b, c, from + 1);
    }
  }

  /** Bucket b holds the first dead entry at or behind bucket from. */
  ghost predicate FirstDeadIn<V>(t: Table<V>, from: nat, b: nat, e: Entry<V>, dead: Entry<V> -> bool) {
    from <= b < |t| && e in t[b] && dead(e) && forall i | from <= i < b :: NoneDead(t[i], dead)
  }

  /** hash_walkfrom with cleanup_metric as its callback. */
  method WalkMetrics(t: Table<Metric>, from: nat, now: int) returns (hit: Option<Entry<Metric>>)
    requires WellPlaced(t)
    ensures hit.None? ==> forall i | from <= i < |t| :: NoneDead(t[i], MetricDead(now))
    ensures hit.Some? ==> FirstDeadIn(t, from, HashVal(hit.value.key, |t|), hit.value, MetricDead(now))
  {
    var i := from;
    while i < |t|
      invariant from <= i
      invariant forall k | from <= k < i && k < |t| :: NoneDead(t[k], MetricDead(now))
      decreases |t| - i
    {
      var j := 0;
      while j < |t[i]|
        invariant j <= |t[i]| && forall k | 0 <= k < j :: !MetricDead(now)(t[i][k])
      {
        var m := t[i][j].val;
        if m.dmax != 0 && now - m.t0 % U32 > m.dmax {
          return Some(t[i][j]);
        }
        j := j + 1;
      }
      i := i + 1;
    }
    return None;
  }

  lemma DeleteDead<V>(t: Table<V>, from: nat, e: Entry<V>, dead: Entry<V> -> bool)
    requires WellPlaced(t) && FirstDeadIn(t, from, HashVal(e.key, |t|), e, dead)
    requires forall i | 0 <= i < from && i < |t| :: NoneDead(t[i], dead)
    ensures var b := HashVal(e.key, |t|); var t' := t[b := Removed(t[b], e.key)];
      WellPlaced(t') && Kept(t', dead) == Kept(t, dead) && Size(t') < Size(t) &&
      (forall i | 0 <= i < b :: NoneDead(t'[i], dead))
  {
    var b := HashVal(e.key, |t|);
    KeepRemoved(t[b], dead, e);
    RemovedInPlace(t, e.key);
    SizeShrinks(t, b, Removed(t[b], e.key), 0);
  }

  lemma RemovedInPlace<V>(t: Table<V>, key: CKey)
    requires WellPlaced(t)
    ensures var b := HashVal(key, |t|); b < |t| && WellPlaced(t[b := Removed(t[b], key)])
  {
    BucketInRange(t, key);
    var b := HashVal(key, |t|);
    var c := Removed(t[b], key);
    RemovedDistinct(t[b], key);
    forall j | 0 <= j < |c|
      ensures HashVal(c[j].key, |t|) == b
    {
      RemovedAt(t[b], key, j);
    }
  }

  method SweepMetrics(metrics: Table<Metric>, now: int) returns (t: Table<Metric>)
    requires WellPlaced(metrics)
    ensures t == Kept(metrics, MetricDead(now)) && WellPlaced(t)
  {
    t := metrics;
    var hint := 0;
    var hit := WalkMetrics(t, hint, now);
    while hit.Some?
      invariant WellPlaced(t) && Kept(t, MetricDead(now)) == Kept(metrics, MetricDead(now))
      invariant forall i | 0 <= i < hint && i < |t| :: NoneDead(t[i], MetricDead(now))
      invariant hit.None? ==> forall i | hint <= i < |t| :: NoneDead(t[i], MetricDead(now))
      invariant hit.Some? ==> FirstDeadIn(t, hint, HashVal(hit.value.key, |t|), hit.value, MetricDead(now))
      decreases Size(t)
    {
      DeleteDead(t, hint, hit.value, MetricDead(now));
      hint := HashVal(hit.value.key, |t|);
      t := t[hint := Removed(t[hint], hit.value.key)];
      hit := WalkMetrics(t, hint, now);
    }
    forall i | 0 <= i < |t|
      ensures Keep(t[i], MetricDead(now)) == t[i]
    {
      KeepAll(t[i], MetricDead(now));
    }
    assert t == Kept(t, MetricDead(now));
  }

  // ---- The sweep of a host table ----

  ghost predicate HostsWellPlaced(t: Table<Host>) {
    WellPlaced(t) && forall i, j | 0 <= i < |t| && 0 <= j < |t[i]| :: WellPlaced(t[i][j].val.metrics)
  }

  predicate IsClean(c: Chain<Host>, now: int) {
    c == CleanChain(c, now)
  }

  lemma CleanTwice(h: Host, now: int)
    ensures CleanHost(CleanHost(h, now), now) == CleanHost(h, now)
  {
    var m, dead := h.metrics, MetricDead(now);
    forall i | 0 <= i < |m|
      ensures Keep(Keep(m[i], dead), dead) == Keep(m[i], dead)
    {
      forall e ensures e in Keep(m[i], dead) ==> !dead(e) { KeepExactly(m[i], dead, e); }
      KeepAll(Keep(m[i], dead), dead);
    }
    assert Kept(Kept(m, dead), dead) == Kept(m, dead);
  }

  /** Cleaning the metrics of one host in its chain does not change what the sweep should leave. */
  lemma {:induction false} CleanOne(c: Chain<Host>, j: nat, now: int)
    requires j < |c|
    ensures CleanChain(c[j := Entry(c[j].key, CleanHost(c[j].val, now))], now) == CleanChain(c, now)
  {
    var c' := c[j := Entry(c[j].key, CleanHost(c[j].val, now))];
    CleanTwice(c[j].val, now);
    CleanChainStep(c, now);
    CleanChainStep(c', now);
    if j == 0 {
      assert c'[1..] == c[1..] && CleanHost(c'[0].val, now) == CleanHost(c[0].val, now);
      assert HostDead(now)(c'[0]) == HostDead(now)(c[0]);
    } else {
      assert c'[1..] == c[1..][j - 1 := c'[j]] && c'[0] == c[0] && c[1..][j - 1] == c[j];
      CleanOne(c[1..], j - 1, now);
    }
  }

  lemma CleanChainStep(c: Chain<Host>, now: int)
    requires c != []
    ensures CleanChain(c, now) == if HostDead(now)(c[0]) then CleanChain(c[1..], now)
                                  else [Entry(c[0].key, CleanHost(c[0].val, now))] + CleanChain(c[1..], now)
  {
  }

  /** A chain of living hosts with clean metrics is clean. */
  lemma AllClean(c: Chain<Host>, now: int)
    requires NoneDead(c, HostDead(now))
    requires forall j | 0 <= j < |c| :: CleanHost(c[j].val, now) == c[j].val
    ensures IsClean(c, now)
  {
    KeepAll(c, HostDead(now));
  }

  lemma CleanAppendsDead(c: Chain<Host>, e: Entry<Host>, now: int)
    requires DistinctKeys(c) && e in c && HostDead(now)(e)
    ensures CleanChain(Removed(c, e.key), now) == CleanChain(c, now)
  {
    KeepRemoved(c, HostDead(now), e);
  }

  ghost predicate Walked(t: Table<Host>, t': Table<Host>, from: nat, now: int) {
    HostsWellPlaced(t') && |t'| == |t| && CleanHosts(t', now) == CleanHosts(t, now) && Size(t') == Size(t) &&
    forall i | 0 <= i < from && i < |t| :: t'[i] == t[i]
  }

  /** hash_walkfrom with cleanup_node as its callback: it sweeps the metrics of every host it passes
      and stops at the first expired host. */
  method WalkHosts(hosts: Table<Host>, from: nat, now: int) returns (t: Table<Host>, hit: Option<Entry<Host>>)
    requires HostsWellPlaced(hosts)
    ensures Walked(hosts, t, from, now)
    ensures hit.None? ==> forall i | from <= i < |t| :: IsClean(t[i], now)
    ensures hit.Some? ==>
      var b := HashVal(hit.value.key, |t|);
      from <= b < |t| && hit.value in t[b] && HostDead(now)(hit.value) &&
      forall i | from <= i < b :: IsClean(t[i], now)
  {
    t := hosts;
    var i := from;
    while i < |t|
      invariant from <= i && Walked(hosts, t, from, now)
      invariant forall k | from <= k < i && k < |t| :: IsClean(t[k], now)
      decreases |t| - i
    {
      var j := 0;
      while j < |t[i]|
        invariant i < |t| && j <= |t[i]| && Walked(hosts, t, from, now)
        invariant forall k | from <= k < i :: IsClean(t[k], now)
        invariant NoneDead(t[i][..j], HostDead(now))
        invariant forall k | 0 <= k < j :: CleanHost(t[i][k].val, now) == t[i][k].val
        decreases |t[i]| - j
      {
        var h := t[i][j].val;
        if h.dmax != 0 && now - h.t0 % U32 > h.dmax {
          return t, Some(t[i][j]);
        }
        var metrics := SweepMetrics(h.metrics, now);
        CleanTwice(h, now);
        StoreHost(hosts, t, from, i, j, now);
        t := t[i := t[i][j := Entry(t[i][j].key, h.(metrics := metrics))]];
        j := j + 1;
      }
      assert t[i][..j] == t[i];
      AllClean(t[i], now);
      i := i + 1;
    }
    return t, None;
  }

  lemma StoreHost(hosts: Table<Host>, t: Table<Host>, from: nat, i: nat, j: nat, now: int)
    requires Walked(hosts, t, from, now) && from <= i < |t| && j < |t[i]|
    ensures Walked(hosts, t[i := t[i][j := Entry(t[i][j].key, CleanHost(t[i][j].val, now))]], from, now)
  {
    var c := t[i][j := Entry(t[i][j].key, CleanHost(t[i][j].val, now))];
    var t' := t[i := c];
    CleanOne(t[i], j, now);
    KeptWellPlaced(t[i][j].val.metrics, MetricDead(now));
    assert CleanHosts(t', now) == CleanHosts(t, now);
    SameSize(t, i, c, 0);
  }

  lemma {:induction false} SameSize<V>(t: Table<V>, b: nat, c: Chain<V>, from: nat)
    requires b < |t| && |c| == |t[b]|
    ensures |Flatten(t[b := c], from)| == |Flatten(t, from)|
    decreases |t| - from
  {
    if from < |t| {
      SameSize(t, b, c, from + 1);
    }
  }

  lemma DeleteHost(t: Table<Host>, e: Entry<Host>, now: int)
    requires HostsWellPlaced(t)
    requires HashVal(e.key, |t|) < |t| && e in t[HashVal(e.key, |t|)] && HostDead(now)(e)
    ensures var b := HashVal(e.key, |t|); var t' := t[b := Removed(t[b], e.key)];
      HostsWellPlaced(t') && CleanHosts(t', now) == CleanHosts(t, now) && Size(t') < Size(t)
  {
    var b := HashVal(e.key, |t|);
    var c := Removed(t[b], e.key);
    var t' := t[b := c];
    RemovedInPlace(t, e.key);
    CleanAppendsDead(t[b], e, now);
    KeepRemoved(t[b], HostDead(now), e);
    SizeShrinks(t, b, c, 0);
    assert CleanHosts(t', now) == CleanHosts(t, now);
    forall j | 0 <= j < |c| ensures WellPlaced(c[j].val.metrics) { RemovedAt(t[b], e.key, j); }
  }

  method SweepHosts(hosts: Table<Host>, now: int) returns (t: Table<Host>)
    requires HostsWellPlaced(hosts)
    ensures t == CleanHosts(hosts, now)
  {
    var hint := 0;
    var hit: Option<Entry<Host>>;
    t, hit := WalkHosts(hosts, hint, now);
    while hit.Some?
      invariant HostsWellPlaced(t) && CleanHosts(t, now) == CleanHosts(hosts, now)
      invariant forall i | 0 <= i < hint && i < |t| :: IsClean(t[i], now)
      invariant hit.None? ==> forall i | hint <= i < |t| :: IsClean(t[i], now)
      invariant hit.Some? ==>
        var b := HashVal(hit.value.key, |t|);
        hint <= b < |t| && hit.value in t[b] && HostDead(now)(hit.value) &&
        forall i | hint <= i < b :: IsClean(t[i], now)
      decreases Size(t)
    {
      DeleteHost(t, hit.value, now);
      hint := HashVal(hit.value.key, |t|);
      t := t[hint := Removed(t[hint], hit.value.key)];
      t, hit := WalkHosts(t, hint, now);
    }
    assert t == CleanHosts(t, now);
  }

  /** The host table a sweep leaves stands for the living hosts, each with its living metrics. */
  lemma HostSweepRefinesMap(t: Table<Host>, m: map<CKey, Host>, now: int)
    requires WellPlaced(t) && Represents(t, m)
    ensures Represents(CleanHosts(t, now),
                       map k | k in m && !Expired(m[k].t0, m[k].dmax, now) :: CleanHost(m[k], now))
  {
    var dead := HostDead(now);
    var kept := map k | k in m && !dead(Entry(k, m[k])) :: m[k];
    var m' := map k | k in m && !Expired(m[k].t0, m[k].dmax, now) :: CleanHost(m[k], now);
    SweepRefinesMap(t, m, dead);
    forall k: CKey
      ensures Lookup(CleanHosts(t, now), k) == if k in m' then Some(m'[k]) else None
    {
      BucketInRange(t, k);
      var c := Kept(t, dead)[Bucket(t, k)];
      assert Lookup(Kept(t, dead), k) == Find(c, k) == if k in kept then Some(kept[k]) else None;
      FindCleanEach(c, k, now);
      assert Lookup(CleanHosts(t, now), k) == Find(CleanEach(c, now), k);
    }
  }

  lemma FindCleanEach(c: Chain<Host>, k: CKey, now: int)
    requires DistinctKeys(c)
    ensures Find(CleanEach(c, now), k) ==
            if Find(c, k).Some? then Some(CleanHost(Find(c, k).value, now)) else None
  {
    var d := CleanEach(c, now);
    var i, j := IndexOf(c, k), IndexOf(d, k);
    if j < |d| {
      assert c[j].key == d[j].key == k;
    }
    if i < |c| {
      FindUnique(d, i);
    }
  }

  // ---- One run of the cleanup thread ----

  /** cleanup_source; a grid keeps no hosts. */
  method SweepSource(s: Source, now: int) returns (r: Source)
    requires WellPlaced(s.summary) && (s.authority.Some? ==> HostsWellPlaced(s.authority.value))
    ensures r == CleanSource(s, now)
  {
    var summary := SweepMetrics(s.summary, now);
    if s.authority.None? {
      return Source(summary, None);
    }
    var hosts := SweepHosts(s.authority.value, now);
    return Source(summary, Some(hosts));
  }

  /** A birth time that the unsigned 32-bit variable holds. */
  predicate InClock(t0: int) {
    0 <= t0 < 0x1_0000_0000
  }

  /** Not older than its DMAX, if it has one. */
  predicate Stays(t0: int, dmax: nat, now: int) {
    dmax == 0 || now <= t0 + dmax
  }

  /** The entries that stay, on the numbers. */
  function Staying(m: map<CKey, Metric>, now: int): map<CKey, Metric> {
    map k | k in m && Stays(m[k].t0, m[k].dmax, now) :: m[k]
  }

  lemma ExpiredExact(t0: int, dmax: nat, now: int)
    requires InClock(t0)
    ensures Expired(t0, dmax, now) <==> !Stays(t0, dmax, now)
  {
  }

  /** The sweep of a metric table leaves exactly the metrics that stay. */
  lemma MetricsSwept(t: Table<Metric>, m: map<CKey, Metric>, now: int)
    requires WellPlaced(t) && Represents(t, m) && forall k <- m :: InClock(m[k].t0)
    ensures Represents(Kept(t, MetricDead(now)), Staying(m, now))
  {
    SweepRefinesMap(t, m, MetricDead(now));
    forall k | k in m
      ensures Expired(m[k].t0, m[k].dmax, now) <==> !Stays(m[k].t0, m[k].dmax, now)
    {
      ExpiredExact(m[k].t0, m[k].dmax, now);
    }
    assert Staying(m, now) == map k | k in m && !MetricDead(now)(Entry(k, m[k])) :: m[k];
  }

  /** After cleanup_source the summary has exactly the metrics that stay; the host table has a host exactly if
      it was there and stays, with its times, and in it exactly the metrics that stay. */
  lemma SourceSwept(s: Source, now: int, summary: map<CKey, Metric>, hosts: map<CKey, Host>, k: CKey,
      metrics: map<CKey, Metric>)
    requires WellPlaced(s.summary) && Represents(s.summary, summary) && forall i <- summary :: InClock(summary[i].t0)
    requires s.authority.Some? && HostsWellPlaced(s.authority.value) && Represents(s.authority.value, hosts)
    requires forall i <- hosts :: InClock(hosts[i].t0)
    requires k in hosts && WellPlaced(hosts[k].metrics) && Represents(hosts[k].metrics, metrics)
    requires forall i <- metrics :: InClock(metrics[i].t0)
    ensures var r := CleanSource(s, now);
      WellPlaced(r.summary) && Represents(r.summary, Staying(summary, now)) &&
      r.authority.Some? && IsPow2(|r.authority.value|) &&
      var found := Lookup(r.authority.value, k);
      (found.Some? <==> Stays(hosts[k].t0, hosts[k].dmax, now)) &&
      (found.Some? ==>
        var h := found.value;
        h.t0 == hosts[k].t0 && h.dmax == hosts[k].dmax && WellPlaced(h.metrics) &&
        Represents(h.metrics, Staying(metrics, now)))
    ensures forall i: CKey | i !in hosts :: Lookup(CleanSource(s, now).authority.value, i).None?
  {
    MetricsSwept(s.summary, summary, now);
    KeptWellPlaced(s.summary, MetricDead(now));
    HostSweepRefinesMap(s.authority.value, hosts, now);
    ExpiredExact(hosts[k].t0, hosts[k].dmax, now);
    MetricsSwept(hosts[k].metrics, metrics, now);
    KeptWellPlaced(hosts[k].metrics, MetricDead(now));
  }

  /** A grid has no host table before and none after. */
  lemma GridSwept(s: Source, now: int)
    ensures CleanSource(s, now).authority.None? <==> s.authority.None?
  {
  }

  /** The walk over the root's sources. cleanup_source never asks it to stop, so no source is ever
      deleted and the walk passes every one of them once. */
  method SweepRoot(root: Table<Source>, now: int) returns (t: Table<Source>)
    requires forall c <- root, e <- c ::
      WellPlaced(e.val.summary) && (e.val.authority.Some? ==> HostsWellPlaced(e.val.authority.value))
    ensures |t| == |root| && forall i | 0 <= i < |t| :: |t[i]| == |root[i]|
    ensures forall i, j | 0 <= i < |t| && 0 <= j < |t[i]| ::
      t[i][j] == Entry(root[i][j].key, CleanSource(root[i][j].val, now))
  {
    t := [];
    for i := 0 to |root|
      invariant |t| == i && forall k | 0 <= k < i :: |t[k]| == |root[k]|
      invariant forall k, j | 0 <= k < i && 0 <= j < |t[k]| ::
        t[k][j] == Entry(root[k][j].key, CleanSource(root[k][j].val, now))
    {
      var c := [];
      for j := 0 to |root[i]|
        invariant |c| == j
        invariant forall k | 0 <= k < j :: c[k] == Entry(root[i][k].key, CleanSource(root[i][k].val, now))
      {
        assert root[i] in root && root[i][j] in root[i];
        var s := SweepSource(root[i][j].val, now);
        c := c + [Entry(root[i][j].key, s)];
      }
      t := t + [c];
    }
  }

  // ---- The sweep of a table in memory ----

  /** A walk stops in the first bucket, from the given one on, that holds something dead. */
  lemma {:induction false} WalkFindsFirst<V>(t: Table<V>, from: nat, dead: Entry<V> -> bool)
    requires WellPlaced(t)
    ensures var hit := WalkHit(t, from, dead);
      if hit.None? then forall i | from <= i < |t| :: NoneDead(t[i], dead)
      else FirstDeadIn(t, from, HashVal(hit.value.key, |t|), hit.value, dead)
    decreases |t| - from
  {
    WalkStep(t, from, dead);
    if from < |t| {
      FirstHitExact(t[from], dead);
      if FirstHit(t[from], dead).None? {
        WalkFindsFirst(t, from + 1, dead);
      }
    }
  }

  /** The entries of a map that are not dead. */
  function Living<V>(m: map<CKey, V>, dead: Entry<V> -> bool): map<CKey, V> {
    map k | k in m && !dead(Entry(k, m[k])) :: m[k]
  }

  /** No dead entry of the map belongs to one of these buckets of a table of size n. */
  predicate CleanBuckets<V>(m: map<CKey, V>, n: nat, from: nat, to: nat, dead: Entry<V> -> bool)
    requires n > 0
  {
    forall k <- m | from <= HashVal(k, n) < to :: !dead(Entry(k, m[k]))
  }

  /** The walk from a bucket of a table of size n that stands for m stops here. */
  predicate StopsAt<V(==)>(m: map<CKey, V>, n: nat, from: nat, hit: Option<Entry<V>>, dead: Entry<V> -> bool) {
    n > 0 &&
    if hit.None? then CleanBuckets(m, n, from, n, dead)
    else hit.value.key in m && m[hit.value.key] == hit.value.val && dead(hit.value) &&
         CleanBuckets(m, n, from, HashVal(hit.value.key, n), dead)
  }

  lemma WalkOnMap<V(!new)>(t: Table<V>, m: map<CKey, V>, from: nat, dead: Entry<V> -> bool)
    requires WellPlaced(t) && Represents(t, m)
    ensures StopsAt(m, |t|, from, WalkHit(t, from, dead), dead)
    ensures forall k <- m :: HashVal(k, |t|) < |t|
  {
    WalkFindsFirst(t, from, dead);
    forall k | k in m
      ensures Bucket(t, k) < |t| && Entry(k, m[k]) in t[Bucket(t, k)]
    {
      BucketInRange(t, k);
      assert Lookup(t, k) == Some(m[k]);
    }
    var hit := WalkHit(t, from, dead);
    if hit.Some? {
      FlattenIndex(t, 0, hit.value);
      FlattenRepresents(t, m, hit.value);
    }
  }

  lemma LivingDelete<V>(m: map<CKey, V>, key: CKey, dead: Entry<V> -> bool)
    requires key in m && dead(Entry(key, m[key]))
    ensures Living(m - {key}, dead) == Living(m, dead) && |m - {key}| < |m|
  {
    assert (m - {key}).Keys == m.Keys - {key} && key in m.Keys;
    assert |(m - {key}).Keys| == |m - {key}| && |m.Keys| == |m|;
  }

  /** When the walk finds nothing more, nothing dead is left. */
  lemma AllLiving<V>(m: map<CKey, V>, n: nat, from: nat, dead: Entry<V> -> bool)
    requires n > 0 && CleanBuckets(m, n, 0, from, dead) && CleanBuckets(m, n, from, n, dead)
    requires forall k <- m :: HashVal(k, n) < n
    ensures Living(m, dead) == m
  {
    forall k | k in m
      ensures !dead(Entry(k, m[k]))
    {
      assert HashVal(k, n) < from || from <= HashVal(k, n) < n;
    }
  }

  /** The loop has deleted only dead entries, none is left in front of bucket from, and the walk from there
      has stopped at hit. */
  predicate Sweeping(m: map<CKey, Bytes>, m': map<CKey, Bytes>, n: nat, from: nat, hit: Option<Entry<Bytes>>,
      dead: Entry<Bytes> -> bool)
  {
    Living(m', dead) == Living(m, dead) && n > 0 && CleanBuckets(m', n, 0, from, dead) &&
    StopsAt(m', n, from, hit, dead) && forall k <- m' :: HashVal(k, n) < n
  }

  lemma SweptAll(m: map<CKey, Bytes>, m': map<CKey, Bytes>, n: nat, from: nat, dead: Entry<Bytes> -> bool)
    requires Sweeping(m, m', n, from, None, dead)
    ensures m' == Living(m, dead)
  {
    AllLiving(m', n, from, dead);
  }

  lemma SweptOne(m: map<CKey, Bytes>, m': map<CKey, Bytes>, n: nat, from: nat, hit: Entry<Bytes>,
      dead: Entry<Bytes> -> bool) returns (r: map<CKey, Bytes>)
    requires Sweeping(m, m', n, from, Some(hit), dead)
    ensures r == m' - {hit.key} && |r| < |m'| && Living(r, dead) == Living(m, dead)
    ensures CleanBuckets(r, n, 0, HashVal(hit.key, n), dead)
  {
    r := m' - {hit.key};
    LivingDelete(m', hit.key, dead);
  }

  method NextDead(table: HashTable.HashTable, ghost m: map<CKey, Bytes>, from: nat, dead: Entry<Bytes> -> bool)
      returns (hit: Option<Entry<Bytes>>)
    requires table.Valid() && Living(table.M, dead) == Living(m, dead)
    requires table.size > 0 && CleanBuckets(table.M, table.size, 0, from, dead)
    ensures table.Valid() && Sweeping(m, table.M, table.size, from, hit, dead)
  {
    hit := table.WalkFrom(from, dead);
    WalkOnMap(table.Abs(), table.M, from, dead);
  }

  method DeleteHit(table: HashTable.HashTable, ghost m: map<CKey, Bytes>, from: nat, hit: Entry<Bytes>,
      dead: Entry<Bytes> -> bool) returns (hint: nat)
    requires table.Valid() && Sweeping(m, table.M, table.size, from, Some(hit), dead)
    modifies table, table.node, table.Repr
    ensures table.Valid() && table.Repr == old(table.Repr) && |table.M| < |old(table.M)|
    ensures Living(table.M, dead) == Living(m, dead)
    ensures table.size > 0 && CleanBuckets(table.M, table.size, 0, hint, dead)
  {
    ghost var m' := SweptOne(m, table.M, table.size, from, hit, dead);
    hint := HashVal(hit.key, table.size);
    var _ := table.Delete(hit.key);
    assert table.M == m';
  }

  /** The loop on the nodes in memory: what stays is exactly what is not dead. */
  method SweepTable(table: HashTable.HashTable, dead: Entry<Bytes> -> bool)
    requires table.Valid()
    modifies table, table.node, table.Repr
    ensures table.Valid() && table.Repr == old(table.Repr)
    ensures table.M == Living(old(table.M), dead)
  {
    ghost var m := table.M;
    var hint := 0;
    BucketInRange(table.Abs(), [0]);
    var hit := NextDead(table, m, hint, dead);
    while hit.Some?
      invariant table.Valid() && table.Repr == old(table.Repr)
      invariant Sweeping(m, table.M, table.size, hint, hit, dead)
      decreases |table.M|
    {
      hint := DeleteHit(table, m, hint, hit.value, dead);
      hit := NextDead(table, m, hint, dead);
    }
    SweptAll(m, table.M, table.size, hint, dead);
  }
}
