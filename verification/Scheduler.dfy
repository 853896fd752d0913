/** The collection-group scheduler of gmond/gmond.c. Times are in microseconds. */
module Scheduler {
  import opened Words

  const USEC: nat := 1000000

  /** How a value moves between two readings: a string does not; a 32-bit unsigned number is compared
      through the signed difference, the other numbers exactly. */
  datatype Kind = Text | Number | Unsigned32

  /** A metric callback: what scheduling reads of it. A metric of unknown type cannot be sent. */
  datatype Metric = Metric(sendable: bool, kind: Kind, threshold: real, last: real, now: real, metadataLastSent: int)

  datatype Group = Group(nextCollect: int, nextSend: int, collectEvery: nat, timeThreshold: nat, metrics: seq<Metric>)

  /** The outside world during one pass: the value each metric reads, and whether sending its metadata
      and its value succeeds. Indices are the group and the metric. */
  datatype World = World(reading: (nat, nat) -> real, metadataOk: (nat, nat) -> bool, valueOk: (nat, nat) -> bool,
                         metadataInterval: nat)

  function Abs(x: real): real {
    if x < 0.0 then -x else x
  }

  /** How far the value has moved, as the C code measures it. */
  function Moved(m: Metric): real {
    if m.kind.Unsigned32? then AbsDifference(m.last.Floor, m.now.Floor) as real else Abs(m.last - m.now)
  }

  /** Collecting this metric asks for the group to be sent at once. */
  predicate Urgent(m: Metric) {
    (m.threshold >= 0.0 && !m.kind.Text? && Moved(m) >= m.threshold) || m.metadataLastSent == 0
  }

  function Read(m: Metric, value: real): Metric {
    m.(last := m.now, now := value)
  }

  predicate MetadataDue(m: Metric, now: int, interval: nat) {
    m.metadataLastSent == 0 || (interval != 0 && m.metadataLastSent < now - interval * USEC)
  }

  // ---- Ganglia_collection_group_collect ----

  method Collect(g: Group, k: nat, now: int, w: World) returns (r: Group)
    ensures r.nextCollect == now + g.collectEvery * USEC
    ensures r.collectEvery == g.collectEvery && r.timeThreshold == g.timeThreshold && |r.metrics| == |g.metrics|
    ensures forall i | 0 <= i < |g.metrics| :: r.metrics[i] == Read(g.metrics[i], w.reading(k, i))
    ensures r.nextSend == if exists i :: 0 <= i < |r.metrics| && Urgent(r.metrics[i]) then 0 else g.nextSend
  {
    r := g;
    var i := 0;
    while i < |g.metrics|
      invariant i <= |g.metrics| == |r.metrics|
      invariant r.collectEvery == g.collectEvery && r.timeThreshold == g.timeThreshold
      invariant forall n | 0 <= n < |g.metrics| ::
        r.metrics[n] == (if n < i then Read(g.metrics[n], w.reading(k, n)) else g.metrics[n])
      invariant r.nextSend == (if exists n :: 0 <= n < i && Urgent(r.metrics[n]) then 0 else g.nextSend)
    {
      var cb := r.metrics[i];
      cb := cb.(last := cb.now);
      cb := cb.(now := w.reading(k, i));
      ghost var before := r.metrics;
      r := r.(metrics := r.metrics[i := cb]);
      assert forall n | 0 <= n < i :: r.metrics[n] == before[n];
      if cb.threshold >= 0.0 {
        if !cb.kind.Text? && Moved(cb) >= cb.threshold {
          r := r.(nextSend := 0);
        }
      }
      if cb.metadataLastSent == 0 {
        r := r.(nextSend := 0);
      }
      i := i + 1;
    }
    r := r.(nextCollect := now + g.collectEvery * USEC);
  }

  // ---- Ganglia_collection_group_send ----

  predicate Delivered(g: Group, k: nat, w: World) {
    exists i :: 0 <= i < |g.metrics| && g.metrics[i].sendable && w.valueOk(k, i)
  }

  /** A metric whose metadata was due and got sent remembers when. */
  function Noted(m: Metric, now: int, w: World, k: nat, i: nat): Metric {
    if m.sendable && MetadataDue(m, now, w.metadataInterval) && w.metadataOk(k, i) then m.(metadataLastSent := now)
    else m
  }

  method Send(g: Group, k: nat, now: int, w: World) returns (r: Group)
    ensures r.nextCollect == g.nextCollect
    ensures r.collectEvery == g.collectEvery && r.timeThreshold == g.timeThreshold && |r.metrics| == |g.metrics|
    ensures forall i | 0 <= i < |g.metrics| :: r.metrics[i] == Noted(g.metrics[i], now, w, k, i)
    ensures r.nextSend == if Delivered(g, k, w) then now + g.timeThreshold * USEC else g.nextSend
  {
    r := g;
    var i := 0;
    while i < |g.metrics|
      invariant i <= |g.metrics| == |r.metrics|
      invariant r.nextCollect == g.nextCollect
      invariant r.collectEvery == g.collectEvery && r.timeThreshold == g.timeThreshold
      invariant forall n | 0 <= n < |g.metrics| ::
        r.metrics[n] == (if n < i then Noted(g.metrics[n], now, w, k, n) else g.metrics[n])
      invariant r.nextSend == (if exists n :: 0 <= n < i && g.metrics[n].sendable && w.valueOk(k, n)
                               then now + g.timeThreshold * USEC else g.nextSend)
    {
      var cb := r.metrics[i];
      if cb.sendable {
        if MetadataDue(cb, now, w.metadataInterval) && w.metadataOk(k, i) {
          r := r.(metrics := r.metrics[i := cb.(metadataLastSent := now)]);
        }
        if w.valueOk(k, i) {
          r := r.(nextSend := now + g.timeThreshold * USEC);
        }
      }
      i := i + 1;
    }
  }

  // ---- process_collection_groups ----

  /** What one pass may do to group k. */
  ghost predicate Passed(g: Group, g': Group, k: nat, now: int, w: World) {
    exists c: Group :: Collected(g, c, k, now, w) && Sent(c, g', k, now, w)
  }

  ghost predicate Collected(g: Group, c: Group, k: nat, now: int, w: World) {
    if g.nextCollect > now then c == g
    else
      c.nextCollect == now + g.collectEvery * USEC && c.collectEvery == g.collectEvery &&
      c.timeThreshold == g.timeThreshold && |c.metrics| == |g.metrics| &&
      (forall i | 0 <= i < |g.metrics| :: c.metrics[i] == Read(g.metrics[i], w.reading(k, i))) &&
      c.nextSend == if exists i :: 0 <= i < |c.metrics| && Urgent(c.metrics[i]) then 0 else g.nextSend
  }

  ghost predicate Sent(c: Group, g': Group, k: nat, now: int, w: World) {
    if c.nextSend > now then g' == c
    else
      g'.nextCollect == c.nextCollect && g'.collectEvery == c.collectEvery &&
      g'.timeThreshold == c.timeThreshold && |g'.metrics| == |c.metrics| &&
      (forall i | 0 <= i < |c.metrics| :: g'.metrics[i] == Noted(c.metrics[i], now, w, k, i)) &&
      g'.nextSend == if Delivered(c, k, w) then now + c.timeThreshold * USEC else c.nextSend
  }

  function Earliest(g: Group): int {
    if g.nextSend < g.nextCollect then g.nextSend else g.nextCollect
  }

  /** The running minimum, which takes 0 for "not set yet". */
  function MinLoop(gs: seq<Group>): int {
    if gs == [] then 0
    else
      var next, m := MinLoop(gs[..|gs| - 1]), Earliest(gs[|gs| - 1]);
      if next == 0 || m < next then m else next
  }

  function NextTime(gs: seq<Group>, now: int): int {
    if MinLoop(gs) < now then now + USEC else MinLoop(gs)
  }

  method Pass(groups: array<Group>, now: int, w: World) returns (next: int)
    modifies groups
    ensures forall k | 0 <= k < groups.Length :: Passed(old(groups[k]), groups[k], k, now, w)
    ensures next == NextTime(groups[..], now)
  {
    var i := 0;
    while i < groups.Length
      invariant i <= groups.Length
      invariant forall k | 0 <= k < i :: Collected(old(groups[k]), groups[k], k, now, w)
      invariant forall k | i <= k < groups.Length :: groups[k] == old(groups[k])
    {
      if groups[i].nextCollect <= now {
        var g := Collect(groups[i], i, now, w);
        groups[i] := g;
      }
      i := i + 1;
    }
    ghost var collected := groups[..];
    i := 0;
    while i < groups.Length
      invariant i <= groups.Length
      invariant forall k | 0 <= k < i :: Sent(collected[k], groups[k], k, now, w)
      invariant forall k | i <= k < groups.Length :: groups[k] == collected[k]
    {
      if groups[i].nextSend <= now {
        var g := Send(groups[i], i, now, w);
        groups[i] := g;
      }
      i := i + 1;
    }
    forall k | 0 <= k < groups.Length
      ensures Passed(old(groups[k]), groups[k], k, now, w)
    {
      assert Collected(old(groups[k]), collected[k], k, now, w);
    }
    next := 0;
    i := 0;
    while i < groups.Length
      invariant i <= groups.Length && next == MinLoop(groups[..i])
    {
      assert groups[..i + 1][..i] == groups[..i];
      var min := if groups[i].nextSend < groups[i].nextCollect then groups[i].nextSend else groups[i].nextCollect;
      if next == 0 {
        next := min;
      } else if min < next {
        next := min;
      }
      i := i + 1;
    }
    assert groups[..i] == groups[..];
    next := if next < now then now + 1 * USEC else next;
  }

  // ---- A pass schedules everything for the future ----

  /** The source's good case: periods are positive, every send succeeds, something can be sent. */
  ghost predicate Healthy(g: Group, k: nat, w: World) {
    g.collectEvery > 0 && g.timeThreshold > 0 && (exists i :: 0 <= i < |g.metrics| && g.metrics[i].sendable) &&
    forall i | 0 <= i < |g.metrics| :: w.valueOk(k, i)
  }

  predicate DueCollect(g: Group, now: int) {
    g.nextCollect <= now
  }

  /** The pass found the group due for sending, after collecting it if that was due. */
  ghost predicate WasSent(g: Group, k: nat, now: int, w: World) {
    exists c: Group :: Collected(g, c, k, now, w) && c.nextSend <= now
  }

  lemma CollectedUnique(g: Group, c: Group, d: Group, k: nat, now: int, w: World)
    requires Collected(g, c, k, now, w) && Collected(g, d, k, now, w)
    ensures c == d
  {
    if g.nextCollect <= now {
      assert c.metrics == d.metrics;
    }
  }

  lemma PassedHealthy(g: Group, g': Group, k: nat, now: int, w: World)
    requires Passed(g, g', k, now, w) && Healthy(g, k, w) && now >= 0
    ensures g'.nextCollect > now && g'.nextSend > now
    ensures g'.collectEvery == g.collectEvery && g'.timeThreshold == g.timeThreshold
    ensures g'.nextCollect == if DueCollect(g, now) then now + g.collectEvery * USEC else g.nextCollect
    ensures g'.nextSend == if WasSent(g, k, now, w) then now + g.timeThreshold * USEC else g.nextSend
  {
    var c :| Collected(g, c, k, now, w) && Sent(c, g', k, now, w);
    var i :| 0 <= i < |g.metrics| && g.metrics[i].sendable;
    assert c.metrics[i].sendable && w.valueOk(k, i);
    assert Delivered(c, k, w);
    if WasSent(g, k, now, w) {
      var d: Group :| Collected(g, d, k, now, w) && d.nextSend <= now;
      CollectedUnique(g, c, d, k, now, w);
    }
  }

  /** A value that moves by its threshold, or metadata asked for, has the group sent in the pass that
      collects it, whenever the group was to be sent otherwise. */
  lemma UrgentIsSentAtOnce(g: Group, g': Group, k: nat, i: nat, now: int, w: World)
    requires Passed(g, g', k, now, w) && DueCollect(g, now) && now > 0 && i < |g.metrics|
    requires Urgent(Read(g.metrics[i], w.reading(k, i)))
    ensures WasSent(g, k, now, w)
    ensures g'.nextSend == now + g.timeThreshold * USEC <==>
              exists j :: 0 <= j < |g.metrics| && g.metrics[j].sendable && w.valueOk(k, j)
  {
    var c :| Collected(g, c, k, now, w) && Sent(c, g', k, now, w);
    assert Urgent(c.metrics[i]);
    if j :| 0 <= j < |g.metrics| && g.metrics[j].sendable && w.valueOk(k, j) {
      assert c.metrics[j].sendable;
    }
    if j :| 0 <= j < |c.metrics| && c.metrics[j].sendable && w.valueOk(k, j) {
      assert g.metrics[j].sendable;
    }
  }

  /** How far two readings lie apart; 32-bit unsigned ones are whole numbers. */
  function Distance(kind: Kind, a: real, b: real): real {
    if kind.Unsigned32? then (if a.Floor < b.Floor then b.Floor - a.Floor else a.Floor - b.Floor) as real
    else if a < b then b - a else a - b
  }

  /** The new reading is at least the threshold away from the one before, or metadata has been asked for. */
  predicate Jumps(m: Metric, reading: real) {
    m.metadataLastSent == 0 || (!m.kind.Text? && m.threshold >= 0.0 && Distance(m.kind, m.now, reading) >= m.threshold)
  }

  /** 32-bit readings that lie less than half the range apart. */
  predicate InSpan(m: Metric, reading: real) {
    m.kind.Unsigned32? ==> -0x8000_0000 < m.now.Floor - reading.Floor < 0x8000_0000
  }

  lemma UrgentExact(m: Metric, reading: real)
    requires InSpan(m, reading)
    ensures Urgent(Read(m, reading)) <==> Jumps(m, reading)
  {
  }

  /** A pass that collects a group makes it due at once exactly if a metric has jumped since the collection before,
      or metadata has been asked for. */
  lemma UrgencyExact(g: Group, g': Group, k: nat, now: int, w: World)
    requires Passed(g, g', k, now, w) && DueCollect(g, now) && now > 0 && g.nextSend > now
    requires forall i | 0 <= i < |g.metrics| :: InSpan(g.metrics[i], w.reading(k, i))
    ensures WasSent(g, k, now, w) <==> exists i | 0 <= i < |g.metrics| :: Jumps(g.metrics[i], w.reading(k, i))
  {
    forall i | 0 <= i < |g.metrics|
      ensures Urgent(Read(g.metrics[i], w.reading(k, i))) <==> Jumps(g.metrics[i], w.reading(k, i))
    {
      UrgentExact(g.metrics[i], w.reading(k, i));
    }
    DueAtOnce(g, g', k, now, w);
  }

  lemma DueAtOnce(g: Group, g': Group, k: nat, now: int, w: World)
    requires Passed(g, g', k, now, w) && DueCollect(g, now) && now > 0 && g.nextSend > now
    ensures WasSent(g, k, now, w) <==>
              exists i | 0 <= i < |g.metrics| :: Urgent(Read(g.metrics[i], w.reading(k, i)))
  {
    var c :| Collected(g, c, k, now, w) && Sent(c, g', k, now, w);
    if WasSent(g, k, now, w) {
      var d: Group :| Collected(g, d, k, now, w) && d.nextSend <= now;
      var i :| 0 <= i < |d.metrics| && Urgent(d.metrics[i]);
      assert d.metrics[i] == Read(g.metrics[i], w.reading(k, i));
    }
    if i :| 0 <= i < |g.metrics| && Urgent(Read(g.metrics[i], w.reading(k, i))) {
      assert Urgent(c.metrics[i]);
    }
  }

  /** And it keeps both readings for the next comparison. */
  lemma ReadingsShift(g: Group, g': Group, k: nat, i: nat, now: int, w: World)
    requires Passed(g, g', k, now, w) && i < |g.metrics|
    ensures |g'.metrics| == |g.metrics|
    ensures var m, m' := g.metrics[i], g'.metrics[i];
      m' == m.(now := m'.now, last := m'.last, metadataLastSent := m'.metadataLastSent) &&
      (m'.now, m'.last) == if DueCollect(g, now) then (w.reading(k, i), m.now) else (m.now, m.last)
  {
    var c :| Collected(g, c, k, now, w) && Sent(c, g', k, now, w);
    assert g'.metrics[i] == c.metrics[i] || g'.metrics[i] == Noted(c.metrics[i], now, w, k, i);
  }

  /** After a sending no metadata that could be sent is older than the interval, or unsent; and none that was not
      older has been sent again unless it was asked for. */
  lemma MetadataIsFresh(g: Group, g': Group, k: nat, i: nat, now: int, w: World)
    requires Passed(g, g', k, now, w) && WasSent(g, k, now, w) && now > 0 && i < |g.metrics| && g.metrics[i].sendable
    ensures |g'.metrics| == |g.metrics|
    ensures var before, after := g.metrics[i].metadataLastSent, g'.metrics[i].metadataLastSent;
      (w.metadataOk(k, i) ==>
        after != 0 && (w.metadataInterval > 0 ==> now - after <= w.metadataInterval * 1_000_000)) &&
      (!w.metadataOk(k, i) ==> after == before) &&
      (before != 0 && (w.metadataInterval == 0 || now - before <= w.metadataInterval * 1_000_000) ==>
        after == before) &&
      (after == before || after == now)
  {
    var c :| Collected(g, c, k, now, w) && Sent(c, g', k, now, w);
    var d: Group :| Collected(g, d, k, now, w) && d.nextSend <= now;
    CollectedUnique(g, c, d, k, now, w);
    assert c.metrics[i].metadataLastSent == g.metrics[i].metadataLastSent && c.metrics[i].sendable;
    assert g'.metrics[i] == Noted(c.metrics[i], now, w, k, i);
  }

  lemma {:induction false} MinLoopIsMin(gs: seq<Group>, now: int)
    requires now >= 0 && forall g <- gs :: Earliest(g) > now
    ensures gs == [] ==> MinLoop(gs) == 0
    ensures gs != [] ==> MinLoop(gs) > now && (forall g <- gs :: MinLoop(gs) <= Earliest(g)) &&
                         exists g <- gs :: MinLoop(gs) == Earliest(g)
  {
    if gs != [] {
      var front, last := gs[..|gs| - 1], gs[|gs| - 1];
      MinLoopIsMin(front, now);
      assert gs == front + [last] && last in gs;
      assert forall g <- gs :: g in front || g == last;
    }
  }

  /** In the good case a pass leaves every collection and every sending behind now, and returns
      exactly the earliest of them. */
  lemma PassReturnsMinimum(before: seq<Group>, after: seq<Group>, now: int, w: World)
    requires |before| == |after| > 0 && now >= 0
    requires forall k | 0 <= k < |before| :: Passed(before[k], after[k], k, now, w) && Healthy(before[k], k, w)
    ensures forall k | 0 <= k < |after| :: after[k].nextCollect > now && after[k].nextSend > now
    ensures forall g <- after :: NextTime(after, now) <= g.nextCollect && NextTime(after, now) <= g.nextSend
    ensures exists g <- after :: NextTime(after, now) == g.nextCollect || NextTime(after, now) == g.nextSend
    ensures NextTime(after, now) > now
  {
    forall k | 0 <= k < |after|
      ensures after[k].nextCollect > now && after[k].nextSend > now
    {
      PassedHealthy(before[k], after[k], k, now, w);
    }
    MinLoopIsMin(after, now);
    var g :| g in after && MinLoop(after) == Earliest(g);
  }

  // ---- What the returned time is otherwise ----

  ghost predicate IsMinimum(m: int, gs: seq<Group>) {
    (exists g <- gs :: Earliest(g) == m) && forall g <- gs :: m <= Earliest(g)
  }

  /** No group behind the first k wants to be served at 0. */
  predicate NoZeroBehind(gs: seq<Group>, k: nat) {
    forall j | k < j < |gs| :: Earliest(gs[j]) != 0
  }

  lemma MinimumGrows(front: seq<Group>, last: Group, m: int)
    requires IsMinimum(m, front)
    ensures IsMinimum(if Earliest(last) < m then Earliest(last) else m, front + [last])
  {
    var gs := front + [last];
    assert last in gs && forall g <- front :: g in gs;
    assert forall g <- gs :: g in front || g == last;
  }

  lemma MinimumOfOne(g: Group)
    ensures IsMinimum(Earliest(g), [g])
  {
    assert g in [g];
  }

  /** A 0 restarts the loop: what it computes is the minimum of the groups behind the last one that is to
      be served at 0. */
  lemma {:induction false} ZeroRestartsTheLoop(gs: seq<Group>, k: nat)
    requires k < |gs| - 1 && Earliest(gs[k]) == 0 && NoZeroBehind(gs, k)
    requires forall g <- gs :: Earliest(g) >= 0
    ensures IsMinimum(MinLoop(gs), gs[k + 1..]) && MinLoop(gs) > 0
    decreases |gs|
  {
    var front, last := gs[..|gs| - 1], gs[|gs| - 1];
    assert last in gs && Earliest(last) != 0;
    if k == |gs| - 2 {
      ZeroIsKept(front);
      assert gs[k + 1..] == [last];
      MinimumOfOne(last);
    } else {
      forall j | k < j < |front|
        ensures Earliest(front[j]) != 0
      {
        assert gs[j] == front[j];
      }
      forall g | g in front
        ensures Earliest(g) >= 0
      {
        assert g in gs;
      }
      ZeroRestartsTheLoop(front, k);
      MinimumGrows(front[k + 1..], last, MinLoop(front));
      assert gs[k + 1..] == front[k + 1..] + [last];
    }
  }

  /** A 0 in the last place is what the loop returns. */
  lemma ZeroIsKept(gs: seq<Group>)
    requires gs != [] && Earliest(gs[|gs| - 1]) == 0 && forall g <- gs :: Earliest(g) >= 0
    ensures MinLoop(gs) == 0
  {
    MinLoopNonnegative(gs[..|gs| - 1]);
  }

  lemma {:induction false} MinLoopNonnegative(gs: seq<Group>)
    requires forall g <- gs :: Earliest(g) >= 0
    ensures MinLoop(gs) >= 0
  {
    if gs != [] {
      assert gs[|gs| - 1] in gs;
      MinLoopNonnegative(gs[..|gs| - 1]);
    }
  }

  lemma {:induction false} WithoutZeroTheMinimum(gs: seq<Group>)
    requires gs != [] && forall g <- gs :: Earliest(g) > 0
    ensures IsMinimum(MinLoop(gs), gs) && MinLoop(gs) > 0
  {
    var front, last := gs[..|gs| - 1], gs[|gs| - 1];
    assert gs == front + [last] && last in gs;
    if front == [] {
      assert MinLoop(front) == 0 && gs == [last];
      MinimumOfOne(last);
    } else {
      forall g | g in front
        ensures Earliest(g) > 0
      {
        assert g in gs;
      }
      WithoutZeroTheMinimum(front);
      MinimumGrows(front, last, MinLoop(front));
    }
  }

  /** The loop finds the minimum exactly when no group is to be served at 0, or the last one is. */
  lemma MinLoopExact(gs: seq<Group>)
    requires gs != [] && forall g <- gs :: Earliest(g) >= 0
    ensures IsMinimum(MinLoop(gs), gs) <==> (forall g <- gs :: Earliest(g) != 0) || Earliest(gs[|gs| - 1]) == 0
  {
    var last := gs[|gs| - 1];
    assert last in gs;
    if forall g <- gs :: Earliest(g) != 0 {
      WithoutZeroTheMinimum(gs);
    } else if Earliest(last) == 0 {
      ZeroIsKept(gs);
    } else {
      var g :| g in gs && Earliest(g) == 0;
      var j :| 0 <= j < |gs| && gs[j] == g;
      var k := LastZero(gs, j);
      ZeroRestartsTheLoop(gs, k);
    }
  }

  /** The last group to be served at 0 is number k, with others behind it, of which n is the minimum. */
  ghost predicate RestartsAt(gs: seq<Group>, k: nat, n: int) {
    k < |gs| - 1 && Earliest(gs[k]) == 0 && NoZeroBehind(gs, k) && IsMinimum(n, gs[k + 1..])
  }

  lemma RestartIsUnique(gs: seq<Group>, k: nat, n: int)
    requires RestartsAt(gs, k, n) && forall g <- gs :: Earliest(g) >= 0
    ensures MinLoop(gs) == n && Earliest(gs[|gs| - 1]) != 0
  {
    ZeroRestartsTheLoop(gs, k);
    var g :| g in gs[k + 1..] && Earliest(g) == n;
    var h :| h in gs[k + 1..] && Earliest(h) == MinLoop(gs);
  }

  /** Hence the returned time is the right one, the minimum or a second from now if that has passed, exactly
      if no group is to be served at 0, the last one is, or the minimum behind the last 0 has passed as well or
      is itself a second from now. */
  lemma ReturnedTimeExact(gs: seq<Group>, m: int, now: int)
    requires gs != [] && (forall g <- gs :: Earliest(g) >= 0) && IsMinimum(m, gs) && now > 0
    ensures NextTime(gs, now) == (if m < now then now + USEC else m) <==>
              (forall g <- gs :: Earliest(g) != 0) || Earliest(gs[|gs| - 1]) == 0 ||
              exists k, n :: RestartsAt(gs, k, n) && (n < now || n == now + USEC)
  {
    MinLoopExact(gs);
    var g :| g in gs && Earliest(g) == m;
    if IsMinimum(MinLoop(gs), gs) {
      var h :| h in gs && Earliest(h) == MinLoop(gs);
      assert m == MinLoop(gs);
    } else {
      var z :| z in gs && Earliest(z) == 0;
      var j :| 0 <= j < |gs| && gs[j] == z;
      var k := LastZero(gs, j);
      ZeroRestartsTheLoop(gs, k);
      assert m == 0 && RestartsAt(gs, k, MinLoop(gs));
      forall k, n | RestartsAt(gs, k, n)
        ensures n == MinLoop(gs)
      {
        RestartIsUnique(gs, k, n);
      }
    }
  }

  lemma {:induction false} LastZero(gs: seq<Group>, j: nat) returns (k: nat)
    requires j < |gs| && Earliest(gs[j]) == 0
    ensures j <= k < |gs| && Earliest(gs[k]) == 0 && NoZeroBehind(gs, k)
    decreases |gs| - j
  {
    if NoZeroBehind(gs, j) {
      k := j;
    } else {
      var i :| j < i < |gs| && Earliest(gs[i]) == 0;
      k := LastZero(gs, i);
    }
  }

  /** The group is to be sent at once: still, or because this pass collects it and a metric is urgent. */
  predicate WantsNow(g: Group, k: nat, now: int, w: World) {
    g.nextSend == 0 ||
    (DueCollect(g, now) && exists i :: 0 <= i < |g.metrics| && Urgent(Read(g.metrics[i], w.reading(k, i))))
  }

  /** A pass leaves a group at 0 exactly when it was to be sent at once and none of its values gets out. */
  lemma FailedSendLeavesZero(g: Group, g': Group, k: nat, now: int, w: World)
    requires Passed(g, g', k, now, w) && now > 0
    ensures g'.nextSend == 0 <==> WantsNow(g, k, now, w) && !Delivered(g, k, w)
    ensures g'.nextCollect == if DueCollect(g, now) then now + g.collectEvery * USEC else g.nextCollect
  {
  }

  /** After such a failure the pass forgets the group: neither its sending nor its next collection is in
      the time it returns, which is the minimum of the groups behind it. */
  lemma FailedSendIsOverlooked(before: seq<Group>, after: seq<Group>, k: nat, now: int, w: World)
    requires |before| == |after| && k < |after| - 1 && now > 0
    requires forall j | 0 <= j < |after| :: Passed(before[j], after[j], j, now, w)
    requires WantsNow(before[k], k, now, w) && !Delivered(before[k], k, w)
    requires NoZeroBehind(after, k) && forall g <- after :: Earliest(g) >= 0
    ensures after[k].nextSend == 0 && IsMinimum(MinLoop(after), after[k + 1..])
    ensures !IsMinimum(MinLoop(after), after)
  {
    FailedSendLeavesZero(before[k], after[k], k, now, w);
    assert after[k] in after && Earliest(after[k]) == 0;
    ZeroRestartsTheLoop(after, k);
  }

  /** For instance: collected at second 100, urgent, not sent. It is due again at second 110, but with one
      quiet group behind it the pass returns second 200. */
  lemma OverlookedWitness()
    ensures var w := World((k, i) => 0.0, (k, i) => true, (k, i) => false, 0);
      var a := Group(100 * USEC, 160 * USEC, 10, 60, [Metric(true, Number, 1.0, 0.0, 5.0, 1)]);
      var a' := Group(110 * USEC, 0, 10, 60, [Metric(true, Number, 1.0, 5.0, 0.0, 1)]);
      var b := Group(200 * USEC, 300 * USEC, 100, 200, [Metric(true, Number, 1.0, 0.0, 0.0, 1)]);
      Passed(a, a', 0, 100 * USEC, w) && Passed(b, b, 1, 100 * USEC, w) && NextTime([a', b], 100 * USEC) == 200 * USEC
  {
    var w := World((k, i) => 0.0, (k, i) => true, (k, i) => false, 0);
    var a := Group(100 * USEC, 160 * USEC, 10, 60, [Metric(true, Number, 1.0, 0.0, 5.0, 1)]);
    var a' := Group(110 * USEC, 0, 10, 60, [Metric(true, Number, 1.0, 5.0, 0.0, 1)]);
    var b := Group(200 * USEC, 300 * USEC, 100, 200, [Metric(true, Number, 1.0, 0.0, 0.0, 1)]);
    assert Urgent(a'.metrics[0]);
    assert Collected(a, a', 0, 100 * USEC, w) && Sent(a', a', 0, 100 * USEC, w);
    assert Collected(b, b, 1, 100 * USEC, w) && Sent(b, b, 1, 100 * USEC, w);
    assert [a', b][..1] == [a'] && [a'][..0] == [];
    assert MinLoop([a']) == 0;
  }

  // ---- Whole runs of the main loop ----

  /** Pass i finds the array before[i] at times[i] and leaves after[i]; between two passes the main loop
      takes in messages. It wakes at most d behind the time the last pass returned. */
  datatype Run = Run(before: seq<seq<Group>>, after: seq<seq<Group>>, times: seq<int>, worlds: seq<World>)

  ghost predicate IsRun(run: Run, d: nat) {
    |run.before| == |run.after| == |run.worlds| == |run.times| > 0 && run.times[0] > 0 &&
    (forall i | 0 <= i < |run.times| :: |run.before[i]| == |run.before[0]| > 0 && PassAt(run, i)) &&
    (forall i | 0 < i < |run.times| :: BetweenAt(run, i) && WakesAt(run, i, d))
  }

  predicate InRun(run: Run, i: nat) {
    |run.before| == |run.after| == |run.worlds| == |run.times| && i < |run.times|
  }

  ghost predicate PassAt(run: Run, i: nat)
    requires InRun(run, i)
  {
    |run.before[i]| == |run.after[i]| &&
    forall k | 0 <= k < |run.before[i]| ::
      Passed(run.before[i][k], run.after[i][k], k, run.times[i], run.worlds[i]) &&
      Healthy(run.before[i][k], k, run.worlds[i])
  }

  /** A request for metadata, of any metrics, has them sent anew. */
  predicate Requested(m: Metric, m': Metric) {
    m' == m || m' == m.(metadataLastSent := 0)
  }

  predicate BetweenAt(run: Run, i: nat)
    requires InRun(run, i) && i > 0
  {
    |run.before[i]| == |run.after[i - 1]| &&
    forall k | 0 <= k < |run.before[i]| ::
      var g, g' := run.after[i - 1][k], run.before[i][k];
      g' == g.(metrics := g'.metrics) && |g'.metrics| == |g.metrics| &&
      forall n | 0 <= n < |g.metrics| :: Requested(g.metrics[n], g'.metrics[n])
  }

  predicate WakesAt(run: Run, i: nat, d: nat)
    requires InRun(run, i) && i > 0
  {
    var next := NextTime(run.after[i - 1], run.times[i - 1]);
    next <= run.times[i] <= next + d
  }

  lemma {:induction false} TimesGrow(run: Run, d: nat, i: nat)
    requires IsRun(run, d) && i < |run.times|
    ensures run.times[i] > 0 && (i > 0 ==> run.times[i - 1] < run.times[i])
  {
    if i > 0 {
      TimesGrow(run, d, i - 1);
      assert PassAt(run, i - 1) && WakesAt(run, i, d);
      PassReturnsMinimum(run.before[i - 1], run.after[i - 1], run.times[i - 1], run.worlds[i - 1]);
    }
  }

  /** From the second pass on, no group is ever found more than d overdue. */
  lemma NeverLate(run: Run, d: nat, i: nat, k: nat)
    requires IsRun(run, d) && 0 < i < |run.times| && k < |run.before[i]|
    ensures run.times[i] <= run.before[i][k].nextCollect + d && run.times[i] <= run.before[i][k].nextSend + d
  {
    TimesGrow(run, d, i - 1);
    assert PassAt(run, i - 1) && BetweenAt(run, i) && WakesAt(run, i, d);
    PassReturnsMinimum(run.before[i - 1], run.after[i - 1], run.times[i - 1], run.worlds[i - 1]);
    assert run.after[i - 1][k] in run.after[i - 1];
  }

  /** What pass i and the messages behind it do to the schedule of group k. */
  lemma OnePass(run: Run, d: nat, i: nat, k: nat)
    requires IsRun(run, d) && i + 1 < |run.times| && k < |run.before[0]|
    ensures |run.before[i]| == |run.before[i + 1]| == |run.before[0]|
    ensures var g, g' := run.before[i][k], run.before[i + 1][k];
      g'.collectEvery == g.collectEvery && g'.timeThreshold == g.timeThreshold &&
      g'.nextCollect == (if CollectedAt(run, i, k) then run.times[i] + g.collectEvery * USEC else g.nextCollect) &&
      g'.nextSend == (if SentAt(run, i, k) then run.times[i] + g.timeThreshold * USEC else g.nextSend)
  {
    TimesGrow(run, d, i);
    assert PassAt(run, i) && BetweenAt(run, i + 1);
    PassedHealthy(run.before[i][k], run.after[i][k], k, run.times[i], run.worlds[i]);
  }

  predicate CollectedAt(run: Run, i: nat, k: nat) {
    InRun(run, i) && k < |run.before[i]| && DueCollect(run.before[i][k], run.times[i])
  }

  ghost predicate SentAt(run: Run, i: nat, k: nat) {
    InRun(run, i) && k < |run.before[i]| && WasSent(run.before[i][k], k, run.times[i], run.worlds[i])
  }

  /** Between the collection at pass i and pass j, with none in between, the schedule stands. */
  lemma {:induction false} CollectStands(run: Run, d: nat, i: nat, j: nat, k: nat)
    requires IsRun(run, d) && i < j < |run.times| && k < |run.before[0]|
    requires CollectedAt(run, i, k) && forall m | i < m < j :: !CollectedAt(run, m, k)
    ensures k < |run.before[j]| && run.before[j][k].collectEvery == run.before[i][k].collectEvery
    ensures run.before[j][k].nextCollect == run.times[i] + run.before[i][k].collectEvery * USEC
    decreases j
  {
    OnePass(run, d, j - 1, k);
    if j > i + 1 {
      CollectStands(run, d, i, j - 1, k);
    }
  }

  /** Consecutive collections of a group are at least collect_every and at most collect_every + d apart,
      whatever metadata is asked for in between. */
  lemma CollectGaps(run: Run, d: nat, i: nat, j: nat, k: nat)
    requires IsRun(run, d) && i < j < |run.times| && k < |run.before[0]|
    requires CollectedAt(run, i, k) && CollectedAt(run, j, k) && forall m | i < m < j :: !CollectedAt(run, m, k)
    ensures run.before[i][k].collectEvery * USEC <= run.times[j] - run.times[i]
            <= run.before[i][k].collectEvery * USEC + d
  {
    CollectStands(run, d, i, j, k);
    NeverLate(run, d, j, k);
  }

  lemma {:induction false} SendStands(run: Run, d: nat, i: nat, j: nat, k: nat)
    requires IsRun(run, d) && i < j < |run.times| && k < |run.before[0]|
    requires SentAt(run, i, k) && forall m | i < m < j :: !SentAt(run, m, k)
    ensures k < |run.before[j]| && run.before[j][k].timeThreshold == run.before[i][k].timeThreshold
    ensures run.before[j][k].nextSend == run.times[i] + run.before[i][k].timeThreshold * USEC
    decreases j
  {
    OnePass(run, d, j - 1, k);
    if j > i + 1 {
      SendStands(run, d, i, j - 1, k);
    }
  }

  /** A group is never silent for longer than time_threshold + d: up to and including the pass of its
      next sending, every pass comes at most that long after the last one. */
  lemma SendGaps(run: Run, d: nat, i: nat, j: nat, k: nat)
    requires IsRun(run, d) && i < j < |run.times| && k < |run.before[0]|
    requires SentAt(run, i, k) && forall m | i < m < j :: !SentAt(run, m, k)
    ensures run.times[j] - run.times[i] <= run.before[i][k].timeThreshold * USEC + d
  {
    SendStands(run, d, i, j, k);
    NeverLate(run, d, j, k);
  }

  /** A request for metadata that arrives between two passes is met by the next collection of its group:
      the group is sent in that pass. */
  lemma RequestIsMet(run: Run, d: nat, i: nat, k: nat, n: nat)
    requires IsRun(run, d) && i < |run.times| && k < |run.before[i]| && n < |run.before[i][k].metrics|
    requires run.before[i][k].metrics[n].metadataLastSent == 0 && CollectedAt(run, i, k)
    ensures SentAt(run, i, k) && run.after[i][k].nextSend == run.times[i] + run.before[i][k].timeThreshold * USEC
  {
    TimesGrow(run, d, i);
    assert PassAt(run, i);
    var g, w := run.before[i][k], run.worlds[i];
    assert Urgent(Read(g.metrics[n], w.reading(k, n)));
    UrgentIsSentAtOnce(g, run.after[i][k], k, n, run.times[i], w);
    PassedHealthy(g, run.after[i][k], k, run.times[i], w);
  }
}
