/** The reader/writer lock of lib/rdwr.c: two counters, one mutex and one condition variable.

    Every section of the C code that runs with the mutex held is one atomic event. Waiting on the
    condition variable ends such a section, so the test of a lock loop is an event of its own:
    a thread is Entering until its first test, Sleeping while it waits, and Woken once it has been
    woken but has not tested again. Any set of threads may take part, in any interleaving, and a
    sleeper may wake without a signal. */
module ReaderWriterLock {
  import opened Words

  type Thread = nat

  datatype Kind = Reader | Writer

  datatype Phase =
    | Idle
    | Entering(kind: Kind)
    | Sleeping(kind: Kind)
    | Woken(kind: Kind)
    | Holding(kind: Kind)

  datatype State = State(readersReading: nat, writerWriting: nat, phase: map<Thread, Phase>)

  datatype Event =
    | Call(t: Thread, kind: Kind)              // calls rlock or wlock
    | Test(t: Thread)                          // one evaluation of the loop guard
    | Spurious(t: Thread)                      // a wakeup nobody asked for
    | ReadUnlock(t: Thread, woken: set<Thread>) // woken: whom a signal, if sent, wakes
    | WriteUnlock(t: Thread)

  /** Whether the guard of the lock loop of this kind lets the thread through. */
  predicate Admits(s: State, kind: Kind) {
    if kind.Reader? then s.writerWriting == 0 else s.writerWriting == 0 && s.readersReading == 0
  }

  predicate IsReady(p: Phase) {
    p.Entering? || p.Woken?
  }

  predicate IsWaiting(p: Phase) {
    p.Entering? || p.Woken? || p.Sleeping?
  }

  function Sleepers(phase: map<Thread, Phase>): set<Thread> {
    set t | t in phase && phase[t].Sleeping?
  }

  function Ready(phase: map<Thread, Phase>): set<Thread> {
    set t | t in phase && IsReady(phase[t])
  }

  function Waiting(phase: map<Thread, Phase>): set<Thread> {
    set t | t in phase && IsWaiting(phase[t])
  }

  function Holders(phase: map<Thread, Phase>, kind: Kind): set<Thread> {
    set t | t in phase && phase[t] == Holding(kind)
  }

  function Wake(phase: map<Thread, Phase>, woken: set<Thread>): map<Thread, Phase> {
    map t | t in phase :: if t in woken && phase[t].Sleeping? then Woken(phase[t].kind) else phase[t]
  }

  /** Whom pthread_cond_signal may wake: at least one sleeper if there is one, and only sleepers. */
  predicate SignalChoice(phase: map<Thread, Phase>, woken: set<Thread>) {
    woken <= Sleepers(phase) && (Sleepers(phase) != {} ==> woken != {})
  }

  /** A thread can only run when it is not asleep, and unlocks only what it holds. */
  predicate Enabled(s: State, e: Event) {
    e.t in s.phase &&
    match e
    case Call(t, _) => s.phase[t].Idle?
    case Test(t) => IsReady(s.phase[t])
    case Spurious(t) => s.phase[t].Sleeping?
    case ReadUnlock(t, woken) =>
      s.phase[t] == Holding(Reader) && SignalChoice(s.phase[t := Idle], woken)
    case WriteUnlock(t) => s.phase[t] == Holding(Writer)
  }

  function AfterTest(s: State, t: Thread): State
    requires t in s.phase && IsReady(s.phase[t])
  {
    var kind := s.phase[t].kind;
    if !Admits(s, kind) then s.(phase := s.phase[t := Sleeping(kind)])
    else if kind.Reader? then
      State(s.readersReading + 1, s.writerWriting, s.phase[t := Holding(kind)])
    else
      State(s.readersReading, s.writerWriting + 1, s.phase[t := Holding(kind)])
  }

  function AfterReadUnlock(s: State, t: Thread, woken: set<Thread>): State {
    if s.readersReading == 0 then s
    else
      var phase := s.phase[t := Idle];
      State(s.readersReading - 1, s.writerWriting,
            if s.readersReading == 1 then Wake(phase, woken) else phase)
  }

  function AfterWriteUnlock(s: State, t: Thread): State {
    if s.writerWriting == 0 then s
    else
      var phase := s.phase[t := Idle];
      State(s.readersReading, 0, Wake(phase, Sleepers(phase)))
  }

  function Apply(s: State, e: Event): State
    requires Enabled(s, e)
  {
    match e
    case Call(t, kind) => s.(phase := s.phase[t := Entering(kind)])
    case Test(t) => AfterTest(s, t)
    case Spurious(t) => s.(phase := Wake(s.phase, {t}))
    case ReadUnlock(t, woken) => AfterReadUnlock(s, t, woken)
    case WriteUnlock(t) => AfterWriteUnlock(s, t)
  }

  /** The lock as the C code keeps it. Each method is one section under the mutex; `phase` is what
      the scheduler and the condition variable know about the threads. */
  class Lock {
    var readersReading: nat
    var writerWriting: nat
    var phase: map<Thread, Phase>

    function Abs(): State
      reads this
    {
      State(readersReading, writerWriting, phase)
    }

    constructor (threads: set<Thread>)
      ensures Initial(Abs()) && phase.Keys == threads
    {
      readersReading := 0;
      writerWriting := 0;
      phase := map t | t in threads :: Idle;
    }

    /** One pass of the loop of pthread_rdwr_rlock_np. */
    method ReadLockPass(t: Thread) returns (acquired: bool)
      requires t in phase && IsReady(phase[t]) && phase[t].kind.Reader?
      modifies this
      ensures Abs() == Apply(old(Abs()), Test(t))
      ensures acquired <==> phase[t] == Holding(Reader)
    {
      if writerWriting != 0 {
        phase := phase[t := Sleeping(Reader)];
        return false;
      }
      readersReading := readersReading + 1;
      phase := phase[t := Holding(Reader)];
      return true;
    }

    /** One pass of the loop of pthread_rdwr_wlock_np. */
    method WriteLockPass(t: Thread) returns (acquired: bool)
      requires t in phase && IsReady(phase[t]) && phase[t].kind.Writer?
      modifies this
      ensures Abs() == Apply(old(Abs()), Test(t))
      ensures acquired <==> phase[t] == Holding(Writer)
    {
      if writerWriting != 0 || readersReading != 0 {
        phase := phase[t := Sleeping(Writer)];
        return false;
      }
      writerWriting := writerWriting + 1;
      phase := phase[t := Holding(Writer)];
      return true;
    }

    method ReadUnlock(t: Thread, woken: set<Thread>) returns (rc: int)
      modifies this
      ensures Abs() == AfterReadUnlock(old(Abs()), t, woken)
      ensures rc == if old(readersReading) == 0 then -1 else 0
    {
      if readersReading == 0 {
        return -1;
      }
      readersReading := readersReading - 1;
      phase := phase[t := Idle];
      if readersReading == 0 {
        phase := Wake(phase, woken);
      }
      return 0;
    }

    method WriteUnlock(t: Thread) returns (rc: int)
      modifies this
      ensures Abs() == AfterWriteUnlock(old(Abs()), t)
      ensures rc == if old(writerWriting) == 0 then -1 else 0
    {
      if writerWriting == 0 {
        return -1;
      }
      writerWriting := 0;
      phase := phase[t := Idle];
      phase := Wake(phase, Sleepers(phase));
      return 0;
    }
  }

  // ---- What every reachable state satisfies ----

  predicate Initial(s: State) {
    s.readersReading == 0 && s.writerWriting == 0 && forall t <- s.phase :: s.phase[t].Idle?
  }

  /** The counters count holders, and writers exclude everybody else. */
  predicate Exclusive(s: State) {
    s.readersReading == |Holders(s.phase, Reader)| &&
    s.writerWriting == |Holders(s.phase, Writer)| &&
    s.writerWriting <= 1 &&
    (s.writerWriting == 1 ==> s.readersReading == 0)
  }

  /** Whoever sleeps although the lock would let it in has a woken thread that will test again. */
  ghost predicate NoneStranded(s: State) {
    forall t <- s.phase ::
      s.phase[t].Sleeping? && Admits(s, s.phase[t].kind) ==>
        exists u <- s.phase :: s.phase[u].Woken?
  }

  /** While no writer holds the lock, only writers sleep: one signal wakes a thread that matters. */
  predicate OnlyWritersSleep(s: State) {
    s.writerWriting == 0 ==> forall t <- s.phase :: s.phase[t].Sleeping? ==> s.phase[t].kind.Writer?
  }

  ghost predicate Inv(s: State) {
    Exclusive(s) && OnlyWritersSleep(s) && NoneStranded(s)
  }

  /** Moving one thread to phase p changes each count of holders by at most that thread. */
  lemma HoldersUpdate(phase: map<Thread, Phase>, t: Thread, p: Phase, kind: Kind)
    requires t in phase
    ensures |Holders(phase[t := p], kind)|
            == |Holders(phase, kind)| - One(phase[t] == Holding(kind)) + One(p == Holding(kind))
  {
    var before, after := Holders(phase, kind), Holders(phase[t := p], kind);
    if p == Holding(kind) {
      assert after == before + {t};
    } else {
      assert after == before - {t};
    }
    assert t in before <==> phase[t] == Holding(kind);
  }

  lemma HoldersWake(phase: map<Thread, Phase>, woken: set<Thread>, kind: Kind)
    ensures Holders(Wake(phase, woken), kind) == Holders(phase, kind)
  {
  }

  lemma ExclusiveStep(s: State, e: Event)
    requires Exclusive(s) && Enabled(s, e)
    ensures Exclusive(Apply(s, e))
  {
    var t, p, s' := e.t, s.phase[e.t], Apply(s, e);
    HolderCount(s.phase, t);
    var q := if e.Call? then Entering(e.kind)
             else if e.Spurious? then p
             else if !e.Test? then Idle
             else if Admits(s, p.kind) then Holding(p.kind) else Sleeping(p.kind);
    HoldersUpdate(s.phase, t, q, Reader);
    HoldersUpdate(s.phase, t, q, Writer);
    assert s.phase[t := p] == s.phase;
    var woken := if e.Spurious? then {t} else if e.ReadUnlock? then e.woken else Sleepers(s.phase[t := q]);
    HoldersWake(s.phase[t := q], woken, Reader);
    HoldersWake(s.phase[t := q], woken, Writer);
    assert s'.phase == s.phase[t := q] || s'.phase == Wake(s.phase[t := q], woken);
  }

  lemma HolderCount(phase: map<Thread, Phase>, t: Thread)
    ensures t in phase && phase[t].Holding? ==> |Holders(phase, phase[t].kind)| > 0
  {
    if t in phase && phase[t].Holding? {
      assert t in Holders(phase, phase[t].kind);
    }
  }

  lemma InvStep(s: State, e: Event)
    requires Inv(s) && Enabled(s, e)
    ensures Inv(Apply(s, e))
  {
    ExclusiveStep(s, e);
    var t, s' := e.t, Apply(s, e);
    if e.ReadUnlock? && s.readersReading == 1 {
      // The last reader signals: if anyone sleeps, someone is woken.
      if v :| v in s'.phase && s'.phase[v].Sleeping? {
        var sleepers := Sleepers(s.phase[t := Idle]);
        assert v in sleepers;
        var u :| u in e.woken;
        assert u in sleepers && s'.phase[u].Woken?;
      }
    } else if e.Test? && Admits(s, s.phase[t].kind) {
      assert s'.phase[t].Holding?;
    } else if u :| u in s.phase && s.phase[u].Woken? && u != t {
      assert s'.phase[u].Woken? || e.WriteUnlock?;
    }
  }

  ghost predicate IsRun(states: seq<State>, events: seq<Event>) {
    |states| == |events| + 1 &&
    forall i | 0 <= i < |events| :: Enabled(states[i], events[i]) && states[i + 1] == Apply(states[i], events[i])
  }

  lemma {:induction false} RunKeepsInv(states: seq<State>, events: seq<Event>, i: nat)
    requires IsRun(states, events) && Inv(states[0]) && i < |states|
    ensures Inv(states[i])
  {
    if i > 0 {
      RunKeepsInv(states, events, i - 1);
      InvStep(states[i - 1], events[i - 1]);
    }
  }

  lemma InitialInv(s: State)
    requires Initial(s)
    ensures Inv(s)
  {
    assert Holders(s.phase, Reader) == {} && Holders(s.phase, Writer) == {};
  }

  /** Lock safety in every interleaving: no two writers, no writer beside a reader, and the reader
      count is the number of threads that hold a read lock. */
  lemma LockSafety(states: seq<State>, events: seq<Event>, i: nat)
    requires IsRun(states, events) && Initial(states[0]) && i < |states|
    ensures states[i].readersReading == |Holders(states[i].phase, Reader)|
    ensures forall t, u | t in Holders(states[i].phase, Writer) && u in Holders(states[i].phase, Writer) :: t == u
    ensures Holders(states[i].phase, Writer) != {} ==> Holders(states[i].phase, Reader) == {}
  {
    InitialInv(states[0]);
    RunKeepsInv(states, events, i);
    var writers := Holders(states[i].phase, Writer);
    forall t, u | t in writers && u in writers
      ensures t == u
    {
      if t != u {
        SubsetSize({t, u}, writers);
        assert false;
      }
    }
  }

  /** No lost wakeup: a thread that sleeps although it could have the lock is never alone; someone
      has been woken and has still to test. In particular while the lock is free. */
  lemma NoLostWakeup(states: seq<State>, events: seq<Event>, i: nat, t: Thread)
    requires IsRun(states, events) && Initial(states[0]) && i < |states|
    requires t in states[i].phase && states[i].phase[t].Sleeping?
    ensures Admits(states[i], states[i].phase[t].kind) ==>
              exists u <- states[i].phase :: states[i].phase[u].Woken?
    ensures states[i].writerWriting == 0 ==> states[i].phase[t].kind.Writer?
  {
    InitialInv(states[0]);
    RunKeepsInv(states, events, i);
  }

  /** The discipline is needed: in a state that satisfies the invariant, a thread outside the lock
      functions breaks the invariant by read-unlocking exactly when the call does not fail and the
      thread holds no read lock. */
  lemma ReadUnlockDiscipline(s: State, t: Thread, woken: set<Thread>)
    requires Inv(s) && t in s.phase && (s.phase[t].Idle? || s.phase[t].Holding?)
    requires SignalChoice(s.phase[t := Idle], woken)
    ensures Inv(AfterReadUnlock(s, t, woken)) <==> s.readersReading == 0 || s.phase[t] == Holding(Reader)
  {
    if s.phase[t] == Holding(Reader) {
      InvStep(s, ReadUnlock(t, woken));
    } else if s.readersReading != 0 {
      HoldersUpdate(s.phase, t, Idle, Reader);
      HoldersWake(s.phase[t := Idle], woken, Reader);
    }
  }

  /** For instance: thread 0 reads, thread 1 read-unlocks without holding anything and is not refused; then
      thread 1 gets the write lock while thread 0 reads. */
  lemma ReadUnlockWitness()
    ensures
      var s := State(1, 0, map[0 := Holding(Reader), 1 := Idle]);
      var s1 := AfterReadUnlock(s, 1, {});
      var s2 := Apply(s1, Call(1, Writer));
      Inv(s) && AfterTest(s2, 1) == State(0, 1, map[0 := Holding(Reader), 1 := Holding(Writer)])
  {
    var s := State(1, 0, map[0 := Holding(Reader), 1 := Idle]);
    assert Holders(s.phase, Reader) == {0} && Holders(s.phase, Writer) == {};
    assert AfterReadUnlock(s, 1, {}) == State(0, 0, map[0 := Holding(Reader), 1 := Idle]);
  }

  /** A write unlock breaks it exactly when a writer holds the lock and another thread unlocks. */
  lemma WriteUnlockDiscipline(s: State, t: Thread)
    requires Inv(s) && t in s.phase && (s.phase[t].Idle? || s.phase[t].Holding?)
    ensures Inv(AfterWriteUnlock(s, t)) <==> s.writerWriting == 0 || s.phase[t] == Holding(Writer)
  {
    if s.phase[t] == Holding(Writer) {
      InvStep(s, WriteUnlock(t));
    } else if s.writerWriting != 0 {
      var phase := s.phase[t := Idle];
      HoldersUpdate(s.phase, t, Idle, Writer);
      HoldersWake(phase, Sleepers(phase), Writer);
    }
  }

  /** For instance: thread 0 writes and thread 1 write-unlocks; then both can hold the write lock. */
  lemma WriteUnlockWitness()
    ensures
      var s := State(0, 1, map[0 := Holding(Writer), 1 := Idle]);
      var s1 := AfterWriteUnlock(s, 1);
      var s2 := Apply(s1, Call(1, Writer));
      Inv(s) && AfterTest(s2, 1) == State(0, 1, map[0 := Holding(Writer), 1 := Holding(Writer)])
  {
    var s := State(0, 1, map[0 := Holding(Writer), 1 := Idle]);
    assert Holders(s.phase, Writer) == {0} && Holders(s.phase, Reader) == {};
    assert AfterWriteUnlock(s, 1) == State(0, 0, map[0 := Holding(Writer), 1 := Idle]);
  }

  // ---- Everybody who asks is served ----

  /** With nobody new asking and no spurious wakeup, every event brings the lock closer to rest. */
  predicate Drains(e: Event) {
    e.Test? || e.ReadUnlock? || e.WriteUnlock?
  }

  function AllHolders(phase: map<Thread, Phase>): set<Thread> {
    set t | t in phase && phase[t].Holding?
  }

  function Measure(s: State): nat {
    (2 * |Waiting(s.phase)| + |AllHolders(s.phase)|) * (|s.phase| + 1) + |Ready(s.phase)|
  }

  lemma ReadyBound(phase: map<Thread, Phase>)
    ensures |Ready(phase)| <= |phase|
  {
    SubsetSize(Ready(phase), phase.Keys);
    assert |phase.Keys| == |phase|;
  }

  lemma {:induction false} SubsetSize<T>(a: set<T>, b: set<T>)
    requires a <= b
    ensures |a| <= |b|
    decreases b
  {
    if x :| x in a {
      SubsetSize(a - {x}, b - {x});
    }
  }

  lemma TestProgress(s: State, t: Thread)
    requires t in s.phase && IsReady(s.phase[t])
    ensures var s' := AfterTest(s, t);
      if Admits(s, s.phase[t].kind) then
        |Waiting(s'.phase)| == |Waiting(s.phase)| - 1 && |AllHolders(s'.phase)| == |AllHolders(s.phase)| + 1
      else
        Waiting(s'.phase) == Waiting(s.phase) && AllHolders(s'.phase) == AllHolders(s.phase) &&
        |Ready(s'.phase)| == |Ready(s.phase)| - 1
  {
    var s' := AfterTest(s, t);
    assert t in Waiting(s.phase) && t in Ready(s.phase) && t !in AllHolders(s.phase);
    if Admits(s, s.phase[t].kind) {
      assert Waiting(s'.phase) == Waiting(s.phase) - {t};
      assert AllHolders(s'.phase) == AllHolders(s.phase) + {t};
    } else {
      assert Ready(s'.phase) == Ready(s.phase) - {t};
    }
  }

  lemma UnlockProgress(phase: map<Thread, Phase>, t: Thread, woken: set<Thread>)
    requires t in phase && phase[t].Holding?
    ensures var p := phase[t := Idle];
      forall q | q == p || q == Wake(p, woken) ::
        Waiting(q) == Waiting(phase) && |AllHolders(q)| == |AllHolders(phase)| - 1
  {
    var p := phase[t := Idle];
    assert t in AllHolders(phase);
    forall q | q == p || q == Wake(p, woken)
      ensures Waiting(q) == Waiting(phase) && |AllHolders(q)| == |AllHolders(phase)| - 1
    {
      assert AllHolders(q) == AllHolders(phase) - {t};
    }
  }

  lemma MeasureDecreases(s: State, e: Event)
    requires Inv(s) && Enabled(s, e) && Drains(e)
    ensures Measure(Apply(s, e)) < Measure(s)
  {
    var t, s' := e.t, Apply(s, e);
    assert s'.phase.Keys == s.phase.Keys;
    assert |s'.phase| == |s'.phase.Keys| == |s.phase.Keys| == |s.phase|;
    ReadyBound(s'.phase);
    HolderCount(s.phase, t);
    if e.Test? {
      TestProgress(s, t);
    } else {
      UnlockProgress(s.phase, t, if e.ReadUnlock? then e.woken else Sleepers(s.phase[t := Idle]));
    }
    var work, work' := 2 * |Waiting(s.phase)| + |AllHolders(s.phase)|, 2 * |Waiting(s'.phase)| + |AllHolders(s'.phase)|;
    if work' < work {
      LessWork(work', work, |s.phase| + 1, |Ready(s'.phase)|, |Ready(s.phase)|);
    }
  }

  lemma LessWork(w': nat, w: nat, n: nat, r': nat, r: nat)
    requires w' < w && r' < n
    ensures w' * n + r' < w * n + r
  {
    assert (w' + 1) * n <= w * n;
  }

  /** No deadlock: while some thread is not at rest, some thread can test or unlock. */
  lemma NoDeadlock(s: State)
    requires Inv(s) && exists t <- s.phase :: !s.phase[t].Idle?
    ensures exists e :: Enabled(s, e) && Drains(e)
  {
    var t :| t in s.phase && !s.phase[t].Idle?;
    if s.phase[t].Sleeping? {
      if u :| u in s.phase && (s.phase[u].Woken? || s.phase[u].Holding?) {
        DrainOf(s, u);
      } else {
        NobodyHolds(s.phase);
        assert false;
      }
    } else {
      DrainOf(s, t);
    }
  }

  lemma NobodyHolds(phase: map<Thread, Phase>)
    requires forall t <- phase :: !phase[t].Holding?
    ensures |Holders(phase, Reader)| == 0 && |Holders(phase, Writer)| == 0
  {
    assert Holders(phase, Reader) == {} && Holders(phase, Writer) == {};
  }

  lemma DrainOf(s: State, t: Thread)
    requires t in s.phase && (IsReady(s.phase[t]) || s.phase[t].Holding?)
    ensures exists e :: Enabled(s, e) && Drains(e)
  {
    if IsReady(s.phase[t]) {
      assert Enabled(s, Test(t));
    } else if s.phase[t].kind.Writer? {
      assert Enabled(s, WriteUnlock(t));
    } else {
      assert Enabled(s, ReadUnlock(t, Sleepers(s.phase[t := Idle])));
    }
  }

  /** From any reachable state, if no new request and no spurious wakeup comes, every schedule of
      the remaining threads stops within Measure steps, and where it stops every thread that waited
      has had the lock and given it back: no thread is left asleep. */
  lemma {:induction false} EveryoneIsServed(states: seq<State>, events: seq<Event>)
    requires IsRun(states, events) && Inv(states[0])
    requires forall e <- events :: Drains(e)
    ensures |events| <= Measure(states[0]) - Measure(states[|events|])
    ensures (!exists e :: Enabled(states[|events|], e) && Drains(e)) ==>
              forall t <- states[|events|].phase :: states[|events|].phase[t].Idle?
    decreases |events|
  {
    var n := |events|;
    RunKeepsInv(states, events, n);
    if n > 0 {
      EveryoneIsServed(states[..n], events[..n - 1]);
      RunKeepsInv(states, events, n - 1);
      MeasureDecreases(states[n - 1], events[n - 1]);
      assert states[n] == Apply(states[n - 1], events[n - 1]);
    }
    if exists t <- states[n].phase :: !states[n].phase[t].Idle? {
      NoDeadlock(states[n]);
    }
  }
}
