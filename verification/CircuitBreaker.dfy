/** The Riemann circuit breaker of gmetad/circuit_breaker.c and its senders in gmetad/export_helpers.c.

    The breaker thread and any number of sending threads share three globals. They write them with the
    mutex held but test them without it, so each test, each locking, each write and each unlocking is an
    event of its own, in any interleaving. What has happened is kept in a history, on which the
    properties are stated. */
module CircuitBreaker {
  import opened Base

  const MAX_FAILURES: nat := 5
  const RETRY_TIMEOUT: nat := 15_000_000  // 15 s in the microseconds of apr_time_now

  type Thread = nat

  datatype Mode = Closed | Open | HalfOpen

  /** What the breaker thread needs the mutex for. */
  datatype Job = Retry | Count | Drop | Trip

  /** Where the breaker thread is in its loop. */
  datatype Place =
    | RetryTest
    | Receiving
    | TripTest
    | Wants(job: Job)
    | Holds(job: Job)
    | Connecting
    | Done(job: Job)

  datatype Sending = Resting | Passed | WantsCount | HoldsCount | CountDone

  datatype Owner = Nobody | Breaker | Sender(t: Thread)

  /** What recv and the unpacking of the answer come to. */
  datatype Reply = Nothing | Fine | Bad | Gone

  /** The past events that concern the breaker, with their times. */
  datatype Past =
    | Attempted(at: nat)
    | Connected(at: nat)
    | ConnectFailed(at: nat)
    | Tripped(at: nat)
    | Dropped(at: nat)
    | Failed(at: nat)

  datatype State = State(mode: Mode, resetTimeout: nat, failures: nat, now: nat, mutex: Owner,
                         breaker: Place, senders: map<Thread, Sending>, history: seq<Past>)

  datatype Event =
    | Tick(elapsed: nat)
    | Test                      // of the breaker thread, at RetryTest or TripTest
    | Receive(reply: Reply)
    | Lock
    | Act
    | Connect(ok: bool)
    | Unlock
    | SenderTest(t: Thread)
    | SenderSent(t: Thread, ok: bool)
    | SenderLock(t: Thread)
    | SenderCount(t: Thread)
    | SenderUnlock(t: Thread)

  predicate Enabled(s: State, e: Event) {
    match e
    case Tick(_) => true
    case Test => s.breaker.RetryTest? || s.breaker.TripTest?
    case Receive(_) => s.breaker.Receiving?
    case Lock => s.breaker.Wants? && s.mutex.Nobody?
    case Act => s.breaker.Holds?
    case Connect(_) => s.breaker.Connecting?
    case Unlock => s.breaker.Done?
    case SenderTest(t) => t in s.senders && s.senders[t].Resting?
    case SenderSent(t, _) => t in s.senders && s.senders[t].Passed?
    case SenderLock(t) => t in s.senders && s.senders[t].WantsCount? && s.mutex.Nobody?
    case SenderCount(t) => t in s.senders && s.senders[t].HoldsCount?
    case SenderUnlock(t) => t in s.senders && s.senders[t].CountDone?
  }

  function AfterTest(s: State): State {
    if s.breaker.RetryTest? then
      s.(breaker := if s.mode.Open? && s.resetTimeout < s.now then Wants(Retry) else Receiving)
    else
      s.(breaker := if s.mode.Closed? && s.failures > MAX_FAILURES then Wants(Trip) else RetryTest)
  }

  /** A thread in recv, or passing it by when the breaker is not closed. */
  function AfterReceive(s: State, reply: Reply): State {
    s.(breaker :=
         if !s.mode.Closed? then TripTest
         else match reply
           case Nothing => TripTest
           case Fine => TripTest
           case Bad => Wants(Count)
           case Gone => Wants(Drop))
  }

  function AfterAct(s: State): State
    requires s.breaker.Holds?
  {
    match s.breaker.job
    case Retry => s.(mode := HalfOpen, breaker := Connecting, history := s.history + [Attempted(s.now)])
    case Count => s.(failures := s.failures + 1, breaker := Done(Count), history := s.history + [Failed(s.now)])
    case Drop => s.(mode := Open, breaker := Done(Drop), history := s.history + [Dropped(s.now)])
    case Trip => s.(mode := Open, resetTimeout := s.now + RETRY_TIMEOUT, breaker := Done(Trip),
                    history := s.history + [Tripped(s.now)])
  }

  function AfterConnect(s: State, ok: bool): State {
    if ok then
      s.(mode := Closed, failures := 0, breaker := Done(Retry), history := s.history + [Connected(s.now)])
    else
      s.(mode := Open, resetTimeout := s.now + RETRY_TIMEOUT, breaker := Done(Retry),
         history := s.history + [ConnectFailed(s.now)])
  }

  function AfterUnlock(s: State): State
    requires s.breaker.Done?
  {
    s.(mutex := Nobody,
       breaker := match s.breaker.job
         case Retry => Receiving
         case Count => TripTest
         case Drop => TripTest
         case Trip => RetryTest)
  }

  function Apply(s: State, e: Event): State
    requires Enabled(s, e)
  {
    match e
    case Tick(elapsed) => s.(now := s.now + elapsed)
    case Test => AfterTest(s)
    case Receive(reply) => AfterReceive(s, reply)
    case Lock => s.(mutex := Breaker, breaker := Holds(s.breaker.job))
    case Act => AfterAct(s)
    case Connect(ok) => AfterConnect(s, ok)
    case Unlock => AfterUnlock(s)
    case SenderTest(t) => if s.mode.Closed? then s.(senders := s.senders[t := Passed]) else s
    case SenderSent(t, ok) => s.(senders := s.senders[t := if ok then Resting else WantsCount])
    case SenderLock(t) => s.(mutex := Sender(t), senders := s.senders[t := HoldsCount])
    case SenderCount(t) =>
      s.(failures := s.failures + 1, senders := s.senders[t := CountDone], history := s.history + [Failed(s.now)])
    case SenderUnlock(t) => s.(mutex := Nobody, senders := s.senders[t := Resting])
  }

  /** The globals of the breaker, with what the scheduler knows about the threads. Each method is one
      event of the breaker thread or of a sender. */
  class Globals {
    var mode: Mode
    var resetTimeout: nat
    var failures: nat
    var now: nat
    var mutex: Owner
    var breaker: Place
    var senders: map<Thread, Sending>
    ghost var history: seq<Past>

    ghost function Abs(): State
      reads this
    {
      State(mode, resetTimeout, failures, now, mutex, breaker, senders, history)
    }

    /** The part of gmetad.c that connects for the first time. */
    constructor (threads: set<Thread>, now: nat, connected: bool)
      ensures Initial(Abs()) && (mode.Closed? <==> connected) && senders.Keys == threads && this.now == now
    {
      failures, this.now, mutex, breaker := 0, now, Nobody, RetryTest;
      senders := map t | t in threads :: Resting;
      if connected {
        mode, resetTimeout := Closed, 0;
      } else {
        mode, resetTimeout := Open, now + RETRY_TIMEOUT;
      }
      history := [if connected then Connected(now) else ConnectFailed(now)];
    }

    method TestRetry()
      requires Enabled(Abs(), Test) && breaker.RetryTest?
      modifies this
      ensures Abs() == Apply(old(Abs()), Test)
    {
      if mode == Open && resetTimeout < now {
        breaker := Wants(Retry);
      } else {
        breaker := Receiving;
      }
    }

    method TestFailures()
      requires Enabled(Abs(), Test) && breaker.TripTest?
      modifies this
      ensures Abs() == Apply(old(Abs()), Test)
    {
      if mode == Closed && failures > MAX_FAILURES {
        breaker := Wants(Trip);
      } else {
        breaker := RetryTest;
      }
    }

    method TakeReply(reply: Reply)
      requires Enabled(Abs(), Receive(reply))
      modifies this
      ensures Abs() == Apply(old(Abs()), Receive(reply))
    {
      if mode == Closed && reply == Bad {
        breaker := Wants(Count);
      } else if mode == Closed && reply == Gone {
        breaker := Wants(Drop);
      } else {
        breaker := TripTest;
      }
    }

    /** The write of the breaker thread under the mutex. */
    method Write()
      requires Enabled(Abs(), Act)
      modifies this
      ensures Abs() == Apply(old(Abs()), Act)
    {
      var job := breaker.job;
      match job {
        case Retry =>
          mode, breaker := HalfOpen, Connecting;
          history := history + [Attempted(now)];
        case Count =>
          failures, breaker := failures + 1, Done(Count);
          history := history + [Failed(now)];
        case Drop =>
          mode, breaker := Open, Done(Drop);
          history := history + [Dropped(now)];
        case Trip =>
          mode, breaker := Open, Done(Trip);
          resetTimeout := now + RETRY_TIMEOUT;
          history := history + [Tripped(now)];
      }
    }

    method FinishConnecting(ok: bool)
      requires Enabled(Abs(), Connect(ok))
      modifies this
      ensures Abs() == Apply(old(Abs()), Connect(ok))
    {
      if !ok {
        mode := Open;
        resetTimeout := now + RETRY_TIMEOUT;
        history := history + [ConnectFailed(now)];
      } else {
        mode := Closed;
        failures := 0;
        history := history + [Connected(now)];
      }
      breaker := Done(Retry);
    }

    /** The test of send_message_to_riemann. */
    method BeginSending(t: Thread) returns (sends: bool)
      requires Enabled(Abs(), SenderTest(t))
      modifies this
      ensures Abs() == Apply(old(Abs()), SenderTest(t))
      ensures sends <==> senders[t] == Passed
    {
      sends := mode == Closed;
      if sends {
        senders := senders[t := Passed];
      }
    }

    /** What a sender does under the mutex after a failed send. */
    method CountFailure(t: Thread)
      requires Enabled(Abs(), SenderCount(t))
      modifies this
      ensures Abs() == Apply(old(Abs()), SenderCount(t))
    {
      failures := failures + 1;
      senders := senders[t := CountDone];
      history := history + [Failed(now)];
    }
  }

  /** What gmetad.c leaves behind after its first attempt to connect. */
  predicate Initial(s: State) {
    s.failures == 0 && s.mutex.Nobody? && s.breaker.RetryTest? && (forall t <- s.senders :: s.senders[t].Resting?) &&
    if s.mode.Closed? then s.resetTimeout == 0 && s.history == [Connected(s.now)]
    else s.mode.Open? && s.resetTimeout == s.now + RETRY_TIMEOUT && s.history == [ConnectFailed(s.now)]
  }

  // ---- Reading the history ----

  /** The failures counted since the breaker last closed. */
  function FailuresSince(h: seq<Past>): nat {
    if h == [] || h[|h| - 1].Connected? then 0
    else FailuresSince(h[..|h| - 1]) + (if h[|h| - 1].Failed? then 1 else 0)
  }

  /** The mode that the past leaves the breaker in. */
  function ModeAfter(h: seq<Past>): Option<Mode> {
    if h == [] then None
    else match h[|h| - 1]
      case Attempted(_) => Some(HalfOpen)
      case Connected(_) => Some(Closed)
      case ConnectFailed(_) => Some(Open)
      case Tripped(_) => Some(Open)
      case Dropped(_) => Some(Open)
      case Failed(_) => ModeAfter(h[..|h| - 1])
  }

  /** Those after which the breaker promises to leave the server alone for a while. */
  predicate SetsTimer(p: Past) {
    p.ConnectFailed? || p.Tripped?
  }

  /** CLOSED is only left for OPEN, OPEN only for HALF_OPEN, and HALF_OPEN for either. */
  predicate MovesLegally(h: seq<Past>, k: nat)
    requires k < |h|
  {
    var before := ModeAfter(h[..k]);
    match h[k]
    case Attempted(_) => before == Some(Open)
    case Connected(_) => before == Some(HalfOpen) || before == None
    case ConnectFailed(_) => before == Some(HalfOpen) || before == None
    case Tripped(_) => before == Some(Closed)
    case Dropped(_) => before == Some(Closed)
    case Failed(_) => before.Some?
  }

  predicate TripsForCause(h: seq<Past>, k: nat)
    requires k < |h|
  {
    h[k].Tripped? ==> FailuresSince(h[..k]) > MAX_FAILURES
  }

  predicate Spaced(h: seq<Past>, j: nat, k: nat)
    requires j < k < |h|
  {
    SetsTimer(h[j]) && h[k].Attempted? ==> h[j].at + RETRY_TIMEOUT < h[k].at
  }

  predicate Lawful(h: seq<Past>) {
    (forall k | 0 <= k < |h| :: MovesLegally(h, k) && TripsForCause(h, k)) &&
    (forall j, k | 0 <= j < k < |h| :: Spaced(h, j, k))
  }

  // ---- What every reachable state satisfies ----

  predicate BreakerOwns(p: Place) {
    p.Holds? || p.Connecting? || p.Done?
  }

  predicate SenderOwns(p: Sending) {
    p.HoldsCount? || p.CountDone?
  }

  ghost predicate MutexInv(s: State) {
    (s.mutex.Breaker? <==> BreakerOwns(s.breaker)) &&
    (forall t :: s.mutex == Sender(t) <==> t in s.senders && SenderOwns(s.senders[t]))
  }

  predicate ModeInv(s: State) {
    (s.mode.HalfOpen? <==> s.breaker.Connecting?) &&
    (s.breaker.Wants? || s.breaker.Holds? ==>
      match s.breaker.job
      case Retry => s.mode.Open? && s.resetTimeout < s.now
      case Count => s.mode.Closed?
      case Drop => s.mode.Closed?
      case Trip => s.mode.Closed? && s.failures > MAX_FAILURES)
  }

  predicate TimerInv(s: State) {
    s.resetTimeout <= s.now + RETRY_TIMEOUT &&
    forall p <- s.history :: p.at <= s.now && (SetsTimer(p) ==> p.at + RETRY_TIMEOUT <= s.resetTimeout)
  }

  predicate HistoryInv(s: State) {
    ModeAfter(s.history) == Some(s.mode) && FailuresSince(s.history) == s.failures && Lawful(s.history)
  }

  ghost predicate Inv(s: State) {
    MutexInv(s) && ModeInv(s) && TimerInv(s) && HistoryInv(s)
  }

  lemma InitialInv(s: State)
    requires Initial(s)
    ensures Inv(s)
  {
    assert s.history[..0] == [];
  }

  lemma LawfulAppend(h: seq<Past>, p: Past)
    requires Lawful(h) && MovesLegally(h + [p], |h|) && TripsForCause(h + [p], |h|)
    requires p.Attempted? ==> forall q <- h :: SetsTimer(q) ==> q.at + RETRY_TIMEOUT < p.at
    ensures Lawful(h + [p])
  {
    var h' := h + [p];
    forall k | 0 <= k < |h'|
      ensures MovesLegally(h', k) && TripsForCause(h', k)
    {
      if k < |h| {
        assert h'[..k] == h[..k] && MovesLegally(h, k) && TripsForCause(h, k);
      }
    }
    forall j, k | 0 <= j < k < |h'|
      ensures Spaced(h', j, k)
    {
      assert h'[j] == h[j] && h[j] in h;
      assert k < |h| ==> Spaced(h, j, k);
    }
  }

  lemma HistoryStep(s: State, e: Event)
    requires Inv(s) && Enabled(s, e)
    ensures HistoryInv(Apply(s, e))
  {
    var s' := Apply(s, e);
    if |s'.history| > |s.history| {
      var p := s'.history[|s.history|];
      assert s'.history[..|s.history|] == s.history && s'.history == s.history + [p];
      LawfulAppend(s.history, p);
    }
  }

  lemma MutexStep(s: State, e: Event)
    requires MutexInv(s) && Enabled(s, e)
    ensures MutexInv(Apply(s, e))
  {
  }

  lemma ModeStep(s: State, e: Event)
    requires MutexInv(s) && ModeInv(s) && Enabled(s, e)
    ensures ModeInv(Apply(s, e))
  {
  }

  lemma TimerStep(s: State, e: Event)
    requires ModeInv(s) && TimerInv(s) && Enabled(s, e)
    ensures TimerInv(Apply(s, e))
  {
    var s' := Apply(s, e);
    assert s'.now >= s.now && s'.resetTimeout >= s.resetTimeout;
    forall p <- s'.history
      ensures p.at <= s'.now && (SetsTimer(p) ==> p.at + RETRY_TIMEOUT <= s'.resetTimeout)
    {
      assert p in s.history || p == s'.history[|s.history|];
    }
  }

  lemma InvStep(s: State, e: Event)
    requires Inv(s) && Enabled(s, e)
    ensures Inv(Apply(s, e))
  {
    MutexStep(s, e);
    ModeStep(s, e);
    TimerStep(s, e);
    HistoryStep(s, e);
  }

  ghost predicate IsRun(states: seq<State>, events: seq<Event>) {
    |states| == |events| + 1 &&
    forall i | 0 <= i < |events| :: Enabled(states[i], events[i]) && states[i + 1] == Apply(states[i], events[i])
  }

  lemma {:induction false} RunKeepsInv(states: seq<State>, events: seq<Event>, i: nat)
    requires IsRun(states, events) && Initial(states[0]) && i < |states|
    ensures Inv(states[i])
  {
    if i == 0 {
      InitialInv(states[0]);
    } else {
      RunKeepsInv(states, events, i - 1);
      InvStep(states[i - 1], events[i - 1]);
    }
  }

  // ---- When the breaker tries again ----

  /** What opened the breaker last. */
  function LastOpening(h: seq<Past>): Option<Past> {
    if h == [] then None
    else
      var p := h[|h| - 1];
      if p.ConnectFailed? || p.Tripped? || p.Dropped? then Some(p) else LastOpening(h[..|h| - 1])
  }

  /** The retry timer has run out, or has never been set. */
  predicate TimerOver(s: State) {
    s.resetTimeout == 0 || s.resetTimeout < s.now
  }

  /** While the breaker is closed or connecting its timer is over; when it is open the timer runs from
      the last opening, unless that was a drop, which leaves it as it was. */
  predicate RetryInv(s: State) {
    match s.mode
    case Closed => TimerOver(s)
    case HalfOpen => s.resetTimeout < s.now
    case Open =>
      LastOpening(s.history).Some? &&
      var p := LastOpening(s.history).value;
      if p.Dropped? then TimerOver(s) else s.resetTimeout == p.at + RETRY_TIMEOUT
  }

  lemma RetryStep(s: State, e: Event)
    requires ModeInv(s) && RetryInv(s) && Enabled(s, e)
    ensures RetryInv(Apply(s, e))
  {
    var s' := Apply(s, e);
    if |s'.history| > |s.history| {
      LastOpeningAppend(s.history, s'.history[|s.history|]);
    } else {
      assert s'.history == s.history;
    }
  }

  lemma LastOpeningAppend(h: seq<Past>, p: Past)
    ensures LastOpening(h + [p]) == if p.ConnectFailed? || p.Tripped? || p.Dropped? then Some(p) else LastOpening(h)
  {
    assert (h + [p])[..|h|] == h;
  }

  lemma {:induction false} RunKeepsRetry(states: seq<State>, events: seq<Event>, i: nat)
    requires IsRun(states, events) && Initial(states[0]) && i < |states|
    ensures RetryInv(states[i])
  {
    if i > 0 {
      RunKeepsRetry(states, events, i - 1);
      RunKeepsInv(states, events, i - 1);
      RetryStep(states[i - 1], events[i - 1]);
    }
  }

  /** In every reachable state in which the breaker is open, its next test starts an attempt exactly when
      15 seconds have passed since the trip or the failed attempt that opened it; if the server closed
      the connection, at any time. (The clock reads 0 only at the epoch.) */
  lemma RetryExact(states: seq<State>, events: seq<Event>, i: nat)
    requires IsRun(states, events) && Initial(states[0]) && i < |states|
    requires states[i].mode.Open?
    ensures LastOpening(states[i].history).Some?
    ensures var s := states[i]; var p := LastOpening(s.history).value;
      s.resetTimeout < s.now <==> (if p.Dropped? then s.now > 0 else s.now > p.at + 15_000_000)
    ensures var s := states[i]; var p := LastOpening(s.history).value;
      s.breaker.RetryTest? ==>
        (Apply(s, Test).breaker == Wants(Retry) <==> (if p.Dropped? then s.now > 0 else s.now > p.at + 15_000_000))
  {
    RunKeepsRetry(states, events, i);
  }

  // ---- The promises ----

  /** Between any two states of a run that follow each other the mode stays or makes a legal move. */
  lemma ModeMoves(states: seq<State>, events: seq<Event>, i: nat)
    requires IsRun(states, events) && Initial(states[0]) && i < |events|
    ensures var before, after := states[i].mode, states[i + 1].mode;
      before == after || (before, after) in {(Closed, Open), (Open, HalfOpen), (HalfOpen, Closed), (HalfOpen, Open)}
  {
    RunKeepsInv(states, events, i);
  }

  /** While a sender holds the mutex the breaker is not half open, and nobody else holds it. */
  lemma SendersNeverSeeHalfOpen(states: seq<State>, events: seq<Event>, i: nat, t: Thread)
    requires IsRun(states, events) && Initial(states[0]) && i < |states|
    requires t in states[i].senders && SenderOwns(states[i].senders[t])
    ensures !states[i].mode.HalfOpen? && !BreakerOwns(states[i].breaker)
    ensures forall u | u in states[i].senders && SenderOwns(states[i].senders[u]) :: u == t
  {
    RunKeepsInv(states, events, i);
    assert states[i].mutex == Sender(t);
  }

  /** The breaker trips on its failure count only after at least six failures since it last closed. */
  lemma TripNeedsSixFailures(states: seq<State>, events: seq<Event>, i: nat, k: nat)
    requires IsRun(states, events) && Initial(states[0]) && i < |states|
    requires k < |states[i].history| && states[i].history[k].Tripped?
    ensures FailuresSince(states[i].history[..k]) >= 6
    ensures states[i].failures == FailuresSince(states[i].history)
  {
    RunKeepsInv(states, events, i);
    assert TripsForCause(states[i].history, k);
  }

  /** After a failed attempt or a trip, no attempt begins for 15 seconds. */
  lemma QuietAfterFailure(states: seq<State>, events: seq<Event>, i: nat, j: nat, k: nat)
    requires IsRun(states, events) && Initial(states[0]) && i < |states|
    requires j < k < |states[i].history| && states[i].history[k].Attempted?
    requires states[i].history[j].ConnectFailed? || states[i].history[j].Tripped?
    ensures states[i].history[k].at > states[i].history[j].at + 15_000_000
  {
    RunKeepsInv(states, events, i);
    assert Spaced(states[i].history, j, k);
  }

  // ---- What has to come ----

  /** What a job of the breaker thread leaves in the history. */
  predicate Records(p: Past, job: Job) {
    match job
    case Retry => p.Attempted?
    case Count => p.Failed?
    case Drop => p.Dropped?
    case Trip => p.Tripped?
  }

  /** The breaker thread is about to find that it has to do the job. */
  predicate Ripe(s: State, job: Job) {
    match job
    case Retry => s.breaker.RetryTest? && s.mode.Open? && s.resetTimeout < s.now
    case Trip => s.breaker.TripTest? && s.mode.Closed? && s.failures >= 6
    case _ => false
  }

  /** It is about to do the job, at it, or has done it since the history had n entries. */
  ghost predicate Bound(s: State, n: nat, job: Job) {
    Ripe(s, job) || s.breaker == Wants(job) || s.breaker == Holds(job) ||
    exists k | n <= k < |s.history| :: Records(s.history[k], job)
  }

  lemma BoundStep(s: State, e: Event, s': State, n: nat, job: Job)
    requires Inv(s) && Enabled(s, e) && s' == Apply(s, e) && n <= |s.history| && Bound(s, n, job)
    ensures |s.history| <= |s'.history| && Bound(s', n, job)
  {
    assert forall k | 0 <= k < |s.history| :: s'.history[k] == s.history[k];
    if s.breaker == Holds(job) && e.Act? {
      assert Records(s'.history[|s.history|], job);
    }
  }

  lemma BoundInRun(states: seq<State>, events: seq<Event>, j: nat, n: nat, job: Job)
    requires IsRun(states, events) && Initial(states[0]) && 0 < j < |states|
    requires n <= |states[j - 1].history| && Bound(states[j - 1], n, job)
    ensures n <= |states[j].history| && Bound(states[j], n, job)
  {
    RunKeepsInv(states, events, j - 1);
    BoundStep(states[j - 1], events[j - 1], states[j], n, job);
  }

  lemma {:induction false} BoundStays(states: seq<State>, events: seq<Event>, i: nat, j: nat, n: nat, job: Job)
    requires IsRun(states, events) && Initial(states[0]) && i <= j < |states|
    requires n <= |states[i].history| && Bound(states[i], n, job)
    ensures n <= |states[j].history| && Bound(states[j], n, job)
    decreases j
  {
    if i < j {
      BoundStays(states, events, i, j - 1, n, job);
      BoundInRun(states, events, j, n, job);
    }
  }

  /** The job has been done between states i and j. */
  ghost predicate DoneBetween(states: seq<State>, i: nat, j: nat, job: Job)
    requires i <= j < |states|
  {
    exists k | |states[i].history| <= k < |states[j].history| :: Records(states[j].history[k], job)
  }

  /** Whatever the senders do meanwhile, the breaker thread does what it has to do before it reads again. */
  lemma JobIsDone(states: seq<State>, events: seq<Event>, i: nat, j: nat, job: Job)
    requires IsRun(states, events) && Initial(states[0]) && i <= j < |events| && events[j].Receive?
    requires Bound(states[i], |states[i].history|, job)
    ensures DoneBetween(states, i, j, job)
  {
    BoundStays(states, events, i, j, |states[i].history|, job);
  }

  /** In every reachable state in which the closed breaker tests its failures, it decides to trip exactly
      after six of them. */
  lemma TripExact(states: seq<State>, events: seq<Event>, i: nat)
    requires IsRun(states, events) && Initial(states[0]) && i < |states|
    requires states[i].breaker.TripTest? && states[i].mode.Closed?
    ensures Apply(states[i], Test).breaker ==
            if FailuresSince(states[i].history) >= 6 then Wants(Trip) else RetryTest
  {
    RunKeepsInv(states, events, i);
  }

  /** And then it trips before it reads again. */
  lemma TripComes(states: seq<State>, events: seq<Event>, i: nat, j: nat)
    requires IsRun(states, events) && Initial(states[0]) && i <= j < |events| && events[j].Receive?
    requires states[i].breaker.TripTest? && states[i].mode.Closed? && FailuresSince(states[i].history) >= 6
    ensures DoneBetween(states, i, j, Trip)
  {
    RunKeepsInv(states, events, i);
    JobIsDone(states, events, i, j, Trip);
  }

  /** An open breaker whose time has come makes an attempt before it reads again. */
  lemma RetryComes(states: seq<State>, events: seq<Event>, i: nat, j: nat)
    requires IsRun(states, events) && Initial(states[0]) && i <= j < |events| && events[j].Receive?
    requires states[i].breaker.RetryTest? && states[i].mode.Open? && LastOpening(states[i].history).Some?
    requires var p := LastOpening(states[i].history).value;
      if p.Dropped? then states[i].now > 0 else states[i].now > p.at + 15_000_000
    ensures DoneBetween(states, i, j, Retry)
  {
    RetryExact(states, events, i);
    JobIsDone(states, events, i, j, Retry);
  }

  /** A bad answer is counted and a closed connection noticed before the next answer is read. */
  lemma ReplyIsTaken(states: seq<State>, events: seq<Event>, i: nat, j: nat)
    requires IsRun(states, events) && Initial(states[0]) && i < j < |events| && events[j].Receive?
    requires states[i].mode.Closed?
    ensures events[i] == Receive(Bad) ==> DoneBetween(states, i + 1, j, Count)
    ensures events[i] == Receive(Gone) ==> DoneBetween(states, i + 1, j, Drop)
  {
    if events[i] == Receive(Bad) {
      JobIsDone(states, events, i + 1, j, Count);
    } else if events[i] == Receive(Gone) {
      JobIsDone(states, events, i + 1, j, Drop);
    }
  }

  /** The breaker thread is dealing with an answer. */
  predicate AtReply(p: Place) {
    p.TripTest? || ((p.Wants? || p.Holds? || p.Done?) && (p.job.Count? || p.job.Drop?))
  }

  /** It is past the answer and has not tested for a retry since. */
  predicate BeforeRetryTest(p: Place) {
    AtReply(p) || p.RetryTest? || ((p.Wants? || p.Holds? || p.Done?) && p.job.Trip?)
  }

  ghost predicate TestedBetween(states: seq<State>, events: seq<Event>, i: nat, j: nat, retry: bool)
    requires j <= |events| < |states|
  {
    exists m | i < m < j ::
      events[m].Test? && if retry then states[m].breaker.RetryTest? else states[m].breaker.TripTest?
  }

  lemma {:induction false} TestsToCome(states: seq<State>, events: seq<Event>, i: nat, j: nat)
    requires IsRun(states, events) && i < j <= |events| && events[i].Receive?
    ensures AtReply(states[j].breaker) || TestedBetween(states, events, i, j, false)
    ensures BeforeRetryTest(states[j].breaker) || TestedBetween(states, events, i, j, true)
    decreases j
  {
    if j > i + 1 {
      TestsToCome(states, events, i, j - 1);
      assert states[j] == Apply(states[j - 1], events[j - 1]);
    }
  }

  /** Between two readings the breaker thread tests whether to trip, and whether to retry. */
  lemma EveryRoundTests(states: seq<State>, events: seq<Event>, i: nat, j: nat)
    requires IsRun(states, events) && i < j < |events| && events[i].Receive? && events[j].Receive?
    ensures TestedBetween(states, events, i, j, false) && TestedBetween(states, events, i, j, true)
  {
    TestsToCome(states, events, i, j);
  }

  /** In every run the mode changes in these steps, and in no others. */
  lemma ModeChangesExactly(states: seq<State>, events: seq<Event>, i: nat)
    requires IsRun(states, events) && Initial(states[0]) && i < |events|
    ensures var s, e, mode := states[i], events[i], states[i + 1].mode;
      mode == if e == Connect(true) then Closed
              else if e == Connect(false) || (e == Act && s.breaker in {Holds(Trip), Holds(Drop)}) then Open
              else if e == Act && s.breaker == Holds(Retry) then HalfOpen
              else s.mode
    ensures events[i] == Connect(true) ==> states[i + 1].failures == 0
    ensures events[i].SenderTest? ==>
              (states[i + 1].senders[events[i].t] == Passed <==> ModeAfter(states[i].history) == Some(Closed))
  {
    RunKeepsInv(states, events, i);
  }

  // ---- Every failure is counted once ----

  function Failures(h: seq<Past>): nat {
    if h == [] then 0 else Failures(h[..|h| - 1]) + (if h[|h| - 1].Failed? then 1 else 0)
  }

  /** The bad answers that the closed breaker has read and the sends that have failed. */
  function Troubles(states: seq<State>, events: seq<Event>, i: nat): nat
    requires i <= |events| < |states|
  {
    if i == 0 then 0
    else
      var s, e := states[i - 1], events[i - 1];
      Troubles(states, events, i - 1) + if IsTrouble(s, e) then 1 else 0
  }

  predicate IsCounting(p: Sending) {
    p.WantsCount? || p.HoldsCount?
  }

  function Counting(senders: map<Thread, Sending>): set<Thread> {
    set t | t in senders && IsCounting(senders[t])
  }

  /** Failures that a thread is on its way to count. */
  function Uncounted(s: State): nat {
    (if s.breaker == Wants(Count) || s.breaker == Holds(Count) then 1 else 0) + |Counting(s.senders)|
  }

  lemma CountingUpdate(senders: map<Thread, Sending>, t: Thread, p: Sending)
    requires t in senders
    ensures |Counting(senders[t := p])| ==
            |Counting(senders)| - (if IsCounting(senders[t]) then 1 else 0) + (if IsCounting(p) then 1 else 0)
  {
    var before, after := Counting(senders), Counting(senders[t := p]);
    if IsCounting(p) {
      assert after == before + {t};
    } else {
      assert after == before - {t};
    }
    assert t in before <==> IsCounting(senders[t]);
  }

  predicate IsTrouble(s: State, e: Event) {
    (e == Receive(Bad) && s.mode.Closed?) || (e.SenderSent? && !e.ok)
  }

  predicate IsCount(s: State, e: Event) {
    (e == Act && s.breaker == Holds(Count)) || e.SenderCount?
  }

  /** What an event adds to the history, if anything. */
  function Adds(s: State, e: Event): Option<Past>
    requires Enabled(s, e)
  {
    match e
    case Act =>
      Some(match s.breaker.job
           case Retry => Attempted(s.now)
           case Count => Failed(s.now)
           case Drop => Dropped(s.now)
           case Trip => Tripped(s.now))
    case Connect(ok) => Some(if ok then Connected(s.now) else ConnectFailed(s.now))
    case SenderCount(_) => Some(Failed(s.now))
    case _ => None
  }

  lemma AddsExactly(s: State, e: Event)
    requires Enabled(s, e)
    ensures Apply(s, e).history == match Adds(s, e) case None => s.history case Some(p) => s.history + [p]
  {
  }

  lemma CountIsRecorded(s: State, e: Event)
    requires Enabled(s, e)
    ensures Failures(Apply(s, e).history) == Failures(s.history) + if IsCount(s, e) then 1 else 0
  {
    var h := Apply(s, e).history;
    AddsExactly(s, e);
    match Adds(s, e) {
      case None =>
      case Some(p) => FailuresAppend(s.history, p);
    }
  }

  lemma FailuresAppend(h: seq<Past>, p: Past)
    ensures Failures(h + [p]) == Failures(h) + if p.Failed? then 1 else 0
  {
    assert (h + [p])[..|h|] == h;
  }

  predicate IsSenders(e: Event) {
    e.SenderTest? || e.SenderSent? || e.SenderLock? || e.SenderCount? || e.SenderUnlock?
  }

  lemma SenderTroubles(s: State, e: Event)
    requires Enabled(s, e) && IsSenders(e)
    ensures Uncounted(Apply(s, e)) + (if IsCount(s, e) then 1 else 0) ==
            Uncounted(s) + if IsTrouble(s, e) then 1 else 0
  {
    var s' := Apply(s, e);
    CountingUpdate(s.senders, e.t, s'.senders[e.t]);
    assert s.senders[e.t := s'.senders[e.t]] == s'.senders;
  }

  lemma BreakerTroubles(s: State, e: Event)
    requires Enabled(s, e) && !IsSenders(e)
    ensures Uncounted(Apply(s, e)) + (if IsCount(s, e) then 1 else 0) ==
            Uncounted(s) + if IsTrouble(s, e) then 1 else 0
  {
    assert Apply(s, e).senders == s.senders;
  }

  /** In every run each bad answer and each failed send is counted exactly once, or is about to be. */
  lemma {:induction false} FailuresAreCounted(states: seq<State>, events: seq<Event>, i: nat)
    requires IsRun(states, events) && Initial(states[0]) && i < |states|
    ensures Failures(states[i].history) + Uncounted(states[i]) == Troubles(states, events, i)
  {
    if i == 0 {
      assert states[0].history[..0] == [] && Counting(states[0].senders) == {};
    } else {
      FailuresAreCounted(states, events, i - 1);
      CountIsRecorded(states[i - 1], events[i - 1]);
      if IsSenders(events[i - 1]) {
        SenderTroubles(states[i - 1], events[i - 1]);
      } else {
        BreakerTroubles(states[i - 1], events[i - 1]);
      }
    }
  }

  /** For instance, there is a run in which the attempt after a drop begins in the same microsecond. */
  lemma DropSetsNoTimer() returns (states: seq<State>, events: seq<Event>)
    ensures IsRun(states, events) && Initial(states[0])
    ensures var h := states[|events|].history;
      |h| == 3 && h[1].Dropped? && h[2].Attempted? && h[1].at == h[2].at
  {
    events := [Test, Receive(Gone), Lock, Act, Unlock, Test, Test, Lock, Act];
    var s0 := State(Closed, 0, 0, 1, Nobody, RetryTest, map[], [Connected(1)]);
    var s1 := Apply(s0, Test);
    var s2 := Apply(s1, Receive(Gone));
    var s3 := Apply(s2, Lock);
    var s4 := Apply(s3, Act);
    var s5 := Apply(s4, Unlock);
    var s6 := Apply(s5, Test);
    var s7 := Apply(s6, Test);
    var s8 := Apply(s7, Lock);
    states := [s0, s1, s2, s3, s4, s5, s6, s7, s8, Apply(s8, Act)];
  }

  /** The events that the owner of the mutex still has in front of it before it lets go. */
  function StepsToRelease(s: State): nat {
    match s.mutex
    case Nobody => 0
    case Breaker => if s.breaker == Holds(Retry) then 3 else if s.breaker.Done? then 1 else 2
    case Sender(t) => if t in s.senders && s.senders[t].CountDone? then 1 else 2
  }

  predicate IsOwners(s: State, e: Event) {
    match s.mutex
    case Nobody => false
    case Breaker => e.Act? || e.Connect? || e.Unlock?
    case Sender(t) => e == SenderCount(t) || e == SenderUnlock(t)
  }

  /** Whoever holds the mutex can go on, comes nearer to releasing it with each of its own events, and is
      not held up by anybody else's. */
  lemma MutexIsReleased(s: State)
    requires Inv(s) && !s.mutex.Nobody?
    ensures exists e :: Enabled(s, e) && IsOwners(s, e)
    ensures forall e | Enabled(s, e) && IsOwners(s, e) :: StepsToRelease(Apply(s, e)) == StepsToRelease(s) - 1
    ensures forall e | Enabled(s, e) && !IsOwners(s, e) ::
              Apply(s, e).mutex == s.mutex && StepsToRelease(Apply(s, e)) == StepsToRelease(s)
  {
    OwnerCanGoOn(s);
    forall e | Enabled(s, e)
      ensures if IsOwners(s, e) then StepsToRelease(Apply(s, e)) == StepsToRelease(s) - 1
              else Apply(s, e).mutex == s.mutex && StepsToRelease(Apply(s, e)) == StepsToRelease(s)
    {
      if s.mutex.Breaker? {
        BreakerComesNearer(s, e);
      } else {
        SenderComesNearer(s, s.mutex.t, e);
      }
    }
  }

  lemma OwnerCanGoOn(s: State)
    requires MutexInv(s) && !s.mutex.Nobody?
    ensures exists e :: Enabled(s, e) && IsOwners(s, e)
  {
    match s.mutex {
      case Breaker =>
        var e := if s.breaker.Holds? then Act else if s.breaker.Connecting? then Connect(true) else Unlock;
        assert Enabled(s, e) && IsOwners(s, e);
      case Sender(t) =>
        assert s.mutex == Sender(t);
        var e := if s.senders[t].HoldsCount? then SenderCount(t) else SenderUnlock(t);
        assert Enabled(s, e) && IsOwners(s, e);
    }
  }

  lemma BreakerComesNearer(s: State, e: Event)
    requires MutexInv(s) && s.mutex.Breaker? && Enabled(s, e)
    ensures if IsOwners(s, e) then StepsToRelease(Apply(s, e)) == StepsToRelease(s) - 1
            else Apply(s, e).mutex == s.mutex && StepsToRelease(Apply(s, e)) == StepsToRelease(s)
  {
    assert forall t | t in s.senders :: !SenderOwns(s.senders[t]);
  }

  lemma SenderComesNearer(s: State, t: Thread, e: Event)
    requires MutexInv(s) && s.mutex == Sender(t) && Enabled(s, e)
    ensures if IsOwners(s, e) then StepsToRelease(Apply(s, e)) == StepsToRelease(s) - 1
            else Apply(s, e).mutex == s.mutex && StepsToRelease(Apply(s, e)) == StepsToRelease(s)
  {
    assert forall u | u in s.senders && SenderOwns(s.senders[u]) :: s.mutex == Sender(u);
  }
}
