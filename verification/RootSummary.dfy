/** The second level of summarising, gmetad/gmetad.c: one pass folds the published summaries of all
    live sources into the summary of the root. */
module RootSummary {
  import opened SummaryPoll

  /** A source as the root pass sees it: its published table, its host counts, and whether its data
      source is dead. */
  datatype Child = Child(table: Table, hostsUp: nat, hostsDown: nat, dead: bool)

  /** What sum_metrics makes of an entry of the root and an entry of a source with the same name. */
  function Folded(rootmetric: Metric, metric: Metric): Metric {
    if TypeOf(metric.typeName).None? then rootmetric
    else if IsNumeric(metric.typeName) then
      rootmetric.(val := rootmetric.val + metric.val, num := rootmetric.num + metric.num)
    else rootmetric.(num := rootmetric.num + metric.num)
  }

  function FoldedIn(t: Table, c: Table): Table {
    map n | n in t.Keys + c.Keys :: if n !in c then t[n] else if n !in t then c[n] else Folded(t[n], c[n])
  }

  /** All live sources folded into a table, one after the other. */
  function Fold(t: Table, children: seq<Child>): Table {
    if children == [] then t
    else
      var c, before := children[|children| - 1], Fold(t, children[..|children| - 1]);
      if c.dead then before else FoldedIn(before, c.table)
  }

  function TotalVal(children: seq<Child>, n: string): real {
    if children == [] then 0.0
    else
      var c := children[|children| - 1];
      TotalVal(children[..|children| - 1], n) + if c.dead then 0.0 else ValIn(c.table, n)
  }

  function TotalNum(children: seq<Child>, n: string): nat {
    if children == [] then 0
    else
      var c := children[|children| - 1];
      TotalNum(children[..|children| - 1], n) + if c.dead then 0 else NumIn(c.table, n)
  }

  function TotalUp(children: seq<Child>): nat {
    if children == [] then 0
    else
      var c := children[|children| - 1];
      TotalUp(children[..|children| - 1]) + if c.dead then 0 else c.hostsUp
  }

  function TotalDown(children: seq<Child>): nat {
    if children == [] then 0
    else
      var c := children[|children| - 1];
      TotalDown(children[..|children| - 1]) + if c.dead then 0 else c.hostsDown
  }

  /** Every live source that has the metric has it with a numeric type. */
  predicate NumericIn(children: seq<Child>, n: string) {
    forall c <- children :: !c.dead && n in c.table ==> IsNumeric(c.table[n].typeName)
  }

  /** Folded into a table of zeros, a numeric metric ends with the totals over the live sources. */
  lemma {:induction false} FoldIsTotal(t: Table, children: seq<Child>, n: string)
    requires AllZero(t) && NumericIn(children, n)
    ensures ValIn(Fold(t, children), n) == TotalVal(children, n)
    ensures NumIn(Fold(t, children), n) == TotalNum(children, n)
  {
    if children != [] {
      assert children[|children| - 1] in children;
      FoldIsTotal(t, children[..|children| - 1], n);
    }
  }

  /** Every live source that has the metric has it as a string or a timestamp. */
  predicate WordsIn(children: seq<Child>, n: string) {
    forall c <- children :: !c.dead && n in c.table ==> c.table[n].typeName in {"string", "timestamp"}
  }

  /** A metric that is not a number is counted, and what the root has of it keeps its 0. */
  lemma {:induction false} FoldOfWords(t: Table, children: seq<Child>, n: string)
    requires AllZero(t) && WordsIn(children, n)
    ensures NumIn(Fold(t, children), n) == TotalNum(children, n)
    ensures n in t ==> n in Fold(t, children) && ValIn(Fold(t, children), n) == 0.0
  {
    if children != [] {
      var front, c := children[..|children| - 1], children[|children| - 1];
      assert c in children && forall x <- front :: x in children;
      FoldOfWords(t, front, n);
      if !c.dead && n in c.table {
        TypeNames(c.table[n].typeName);
      }
    }
  }

  class Root {
    var metricSummary: Table
    var hostsUp: nat
    var hostsDown: nat

    /** zero_out_summary on every entry, in whatever order the table is walked. */
    method ZeroOutAll()
      modifies this`metricSummary
      ensures metricSummary == ZeroOut(old(metricSummary))
    {
      var rest := metricSummary.Keys;
      while rest != {}
        invariant rest <= metricSummary.Keys == old(metricSummary).Keys
        invariant forall n <- metricSummary ::
          metricSummary[n] == if n in rest then old(metricSummary)[n] else old(metricSummary)[n].(val := 0.0, num := 0)
        decreases |rest|
      {
        var n :| n in rest;
        metricSummary := metricSummary[n := metricSummary[n].(val := 0.0, num := 0)];
        rest := rest - {n};
      }
    }

    /** sum_metrics: a name the root does not have yet is copied, value and count included; one it has is
        folded. */
    method SumMetrics(n: string, metric: Metric)
      modifies this`metricSummary
      ensures var was := old(metricSummary);
        metricSummary == was[n := if n in was then Folded(was[n], metric) else metric]
    {
      var rootmetric := metric;
      if n in metricSummary {
        rootmetric := metricSummary[n];
        var tt := TypeOf(metric.typeName);
        if tt.None? {
          assert metricSummary == metricSummary[n := rootmetric];
          return;
        }
        if tt.value == INT || tt.value == UINT || tt.value == FLOAT {
          rootmetric := rootmetric.(val := rootmetric.val + metric.val);
        }
        rootmetric := rootmetric.(num := rootmetric.num + metric.num);
      }
      metricSummary := metricSummary[n := rootmetric];
    }

    /** do_root_summary, with no lists of summarized or unsummarized metrics configured. */
    method AddChild(c: Child)
      modifies this
      ensures hostsUp == old(hostsUp) + if c.dead then 0 else c.hostsUp
      ensures hostsDown == old(hostsDown) + if c.dead then 0 else c.hostsDown
      ensures metricSummary == if c.dead then old(metricSummary) else FoldedIn(old(metricSummary), c.table)
    {
      if c.dead {
        return;
      }
      var rest := c.table.Keys;
      ghost var was := metricSummary;
      while rest != {}
        invariant rest <= c.table.Keys
        invariant hostsUp == old(hostsUp) && hostsDown == old(hostsDown)
        invariant PartlyFolded(was, c.table, rest, metricSummary)
        decreases |rest|
      {
        var n :| n in rest;
        FoldOne(was, c.table, rest, metricSummary, n);
        SumMetrics(n, c.table[n]);
        rest := rest - {n};
      }
      AllFolded(was, c.table, metricSummary);
      hostsUp := hostsUp + c.hostsUp;
      hostsDown := hostsDown + c.hostsDown;
    }

    /** One root pass: whatever the root held before, every numeric metric ends with the totals over the
        live children; metrics of other types end as folded in the order of the walk. */
    method Pass(children: seq<Child>)
      modifies this
      ensures metricSummary == Fold(ZeroOut(old(metricSummary)), children)
      ensures forall n | NumericIn(children, n) ::
        ValIn(metricSummary, n) == TotalVal(children, n) && NumIn(metricSummary, n) == TotalNum(children, n)
      ensures hostsUp == TotalUp(children) && hostsDown == TotalDown(children)
    {
      ZeroOutAll();
      hostsUp := 0;
      hostsDown := 0;
      ghost var zero := metricSummary;
      for i := 0 to |children|
        invariant metricSummary == Fold(zero, children[..i])
        invariant hostsUp == TotalUp(children[..i]) && hostsDown == TotalDown(children[..i])
      {
        assert children[..i + 1][..i] == children[..i];
        AddChild(children[i]);
      }
      assert children[..|children|] == children;
      forall n | NumericIn(children, n)
        ensures ValIn(metricSummary, n) == TotalVal(children, n) && NumIn(metricSummary, n) == TotalNum(children, n)
      {
        FoldIsTotal(zero, children, n);
      }
    }
  }

  /** t' is t with c folded in, but for the names in rest. */
  predicate PartlyFolded(t: Table, c: Table, rest: set<string>, t': Table) {
    t'.Keys == t.Keys + (c.Keys - rest) && forall n <- t' :: t'[n] == if n in rest then t[n] else FoldedIn(t, c)[n]
  }

  lemma FoldOne(t: Table, c: Table, rest: set<string>, t': Table, n: string)
    requires rest <= c.Keys && n in rest && PartlyFolded(t, c, rest, t')
    ensures PartlyFolded(t, c, rest - {n}, t'[n := if n in t' then Folded(t'[n], c[n]) else c[n]])
  {
  }

  lemma AllFolded(t: Table, c: Table, t': Table)
    requires PartlyFolded(t, c, {}, t')
    ensures t' == FoldedIn(t, c)
  {
    assert t'.Keys == FoldedIn(t, c).Keys;
  }

  // ---- The two levels together ----

  /** The tags of one poll and the state they were read in. */
  datatype Poll = Poll(body: seq<Event>, alive: bool, context: Context, scalable: bool, dead: bool)

  /** The values of the METRIC tags that count, in order. */
  function Counted(events: seq<Event>, n: string, alive: bool, c: Context): seq<real> {
    if events == [] then []
    else
      var front, e := events[..|events| - 1], events[|events| - 1];
      Counted(front, n, alive, c) + if Counts(e, n, AliveAfter(front, alive, c), c) then [e.val] else []
  }

  function CountedIn(p: Poll, n: string): seq<real> {
    if p.dead then [] else Counted(p.body, n, p.alive, p.context)
  }

  /** All of them, over the polls of all live sources. */
  function CountedInAll(polls: seq<Poll>, n: string): seq<real> {
    if polls == [] then []
    else CountedInAll(polls[..|polls| - 1], n) + CountedIn(polls[|polls| - 1], n)
  }

  /** The living and the dead hosts in the polls of all live sources. */
  function HostsInAll(polls: seq<Poll>): (nat, nat) {
    if polls == [] then (0, 0)
    else
      var (up, down) := HostsInAll(polls[..|polls| - 1]);
      var p := polls[|polls| - 1];
      if p.dead then (up, down)
      else (up + UpTotal(p.body, p.scalable, p.context), down + DownTotal(p.body, p.scalable, p.context))
  }

  function Add(vals: seq<real>): real {
    if vals == [] then 0.0 else Add(vals[..|vals| - 1]) + vals[|vals| - 1]
  }

  lemma {:induction false} AddAppend(a: seq<real>, b: seq<real>)
    ensures Add(a + b) == Add(a) + Add(b)
  {
    if b == [] {
      assert a + b == a;
    } else {
      AddAppend(a, b[..|b| - 1]);
      assert (a + b)[..|a + b| - 1] == a + b[..|b| - 1];
    }
  }

  lemma {:induction false} CountedIsSum(events: seq<Event>, n: string, alive: bool, c: Context)
    ensures Add(Counted(events, n, alive, c)) == Sum(events, n, alive, c)
    ensures |Counted(events, n, alive, c)| == Count(events, n, alive, c)
  {
    if events != [] {
      var front, e := events[..|events| - 1], events[|events| - 1];
      CountedIsSum(front, n, alive, c);
      if Counts(e, n, AliveAfter(front, alive, c), c) {
        AddAppend(Counted(front, n, alive, c), [e.val]);
        assert Add([e.val]) == e.val by { assert [e.val][..0] == []; }
      } else {
        assert Counted(events, n, alive, c) == Counted(front, n, alive, c);
      }
    }
  }

  /** The child shows what the poll counted. */
  predicate Shows(c: Child, p: Poll, n: string) {
    c.dead == p.dead &&
    ValIn(c.table, n) == Sum(p.body, n, p.alive, p.context) &&
    NumIn(c.table, n) == Count(p.body, n, p.alive, p.context) &&
    c.hostsUp == UpTotal(p.body, p.scalable, p.context) &&
    c.hostsDown == DownTotal(p.body, p.scalable, p.context)
  }

  lemma OneChildIsFlat(c: Child, p: Poll, n: string)
    requires Shows(c, p, n)
    ensures (if c.dead then 0.0 else ValIn(c.table, n)) == Add(CountedIn(p, n))
    ensures (if c.dead then 0 else NumIn(c.table, n)) == |CountedIn(p, n)|
  {
    CountedIsSum(p.body, n, p.alive, p.context);
  }

  /** Every child shows its poll. */
  predicate AllShow(children: seq<Child>, polls: seq<Poll>, n: string)
    decreases |children|
  {
    |children| == |polls| &&
    (children == [] ||
     (Shows(children[|children| - 1], polls[|polls| - 1], n) &&
      AllShow(children[..|children| - 1], polls[..|polls| - 1], n)))
  }

  lemma {:induction false} EachShows(children: seq<Child>, polls: seq<Poll>, n: string)
    requires |children| == |polls| && forall i | 0 <= i < |polls| :: Shows(children[i], polls[i], n)
    ensures AllShow(children, polls, n)
  {
    if polls != [] {
      EachShows(children[..|children| - 1], polls[..|polls| - 1], n);
    }
  }

  /** Folding per source and then over the sources is one flat fold over every counted METRIC tag of
      every live source: the total value is their sum and the total count is their number. */
  lemma {:induction false} TwoLevelsAreFlat(children: seq<Child>, polls: seq<Poll>, n: string)
    requires AllShow(children, polls, n)
    ensures TotalVal(children, n) == Add(CountedInAll(polls, n))
    ensures TotalNum(children, n) == |CountedInAll(polls, n)|
    decreases |polls|
  {
    if polls != [] {
      var i := |polls| - 1;
      TwoLevelsAreFlat(children[..i], polls[..i], n);
      OneChildIsFlat(children[i], polls[i], n);
      AddAppend(CountedInAll(polls[..i], n), CountedIn(polls[i], n));
    }
  }

  /** The same for the hosts. */
  lemma {:induction false} HostsAreFlat(children: seq<Child>, polls: seq<Poll>, n: string)
    requires AllShow(children, polls, n)
    ensures (TotalUp(children), TotalDown(children)) == HostsInAll(polls)
    decreases |polls|
  {
    if polls != [] {
      HostsAreFlat(children[..|polls| - 1], polls[..|polls| - 1], n);
    }
  }

  // ---- From the tags of all polls to the root ----

  datatype OnePoll = OnePoll(start: Event, body: seq<Event>, end: Event)

  /** Poll i finds the state before[i] and leaves after[i]. Polls share the root and the tables; everything
      else belongs to the poll. */
  datatype PollRun = PollRun(before: seq<State>, after: seq<State>, polls: seq<OnePoll>)

  /** The first k polls, from a state in which no two sources share a table. */
  ghost predicate IsPollRun(run: PollRun, k: nat)
    decreases k
  {
    k <= |run.polls| == |run.before| == |run.after| &&
    (k > 0 ==>
      IsPollRun(run, k - 1) && PollAt(run.before[k - 1], run.polls[k - 1], run.after[k - 1]) &&
      (if k == 1 then TablesApart(run.before[0]) else Shared(run.after[k - 2], run.before[k - 1])))
  }

  predicate Shared(s: State, s': State) {
    s'.root == s.root && s'.tables == s.tables
  }

  predicate PollAt(s: State, p: OnePoll, s': State) {
    Opens(s, p.start) && IsBody(Step(s, p.start), p.body) && Publishes(Run(Step(s, p.start), p.body), p.end) &&
    s' == Step(Run(Step(s, p.start), p.body), p.end)
  }

  lemma {:induction false} RunStaysApart(run: PollRun, k: nat)
    requires k > 0 && IsPollRun(run, k)
    ensures TablesApart(run.before[k - 1]) && TablesApart(run.after[k - 1])
    decreases k
  {
    if k > 1 {
      RunStaysApart(run, k - 1);
    }
    PollStaysApart(run.before[k - 1], run.polls[k - 1], run.after[k - 1]);
  }

  lemma PollStaysApart(s: State, p: OnePoll, s': State)
    requires TablesApart(s) && PollAt(s, p, s')
    ensures TablesApart(s')
  {
    PollKeepsOthers(s, p.start, p.body, p.end);
  }

  lemma PollStaysNumeric(s: State, p: OnePoll, s': State, n: string)
    requires NumericAt(s, n) && PollAt(s, p, s') && BringsNumeric(p.body, n)
    ensures NumericAt(s', n)
  {
    var s1 := Step(s, p.start);
    StepKeepsNumeric(s, p.start, n);
    RunKeepsNumeric(s1, p.body, n);
    StepKeepsNumeric(Run(s1, p.body), p.end, n);
  }

  /** All polls bring numeric METRICS tags of this name only, and the run begins with numeric entries. */
  predicate NumericRun(run: PollRun, n: string) {
    |run.before| > 0 && NumericAt(run.before[0], n) && forall p <- run.polls :: BringsNumeric(p.body, n)
  }

  lemma {:induction false} RunStaysNumeric(run: PollRun, k: nat, n: string)
    requires k > 0 && IsPollRun(run, k) && NumericRun(run, n)
    ensures NumericAt(run.before[k - 1], n) && NumericAt(run.after[k - 1], n)
    decreases k
  {
    if k > 1 {
      RunStaysNumeric(run, k - 1, n);
    }
    PollStaysNumeric(run.before[k - 1], run.polls[k - 1], run.after[k - 1], n);
  }

  /** A stored source as the root pass sees it. */
  function ChildIn(s: State, name: string, dead: bool): Child
    requires name in s.root && s.root[name].summary < |s.tables|
  {
    var src := s.root[name];
    Child(s.tables[src.summary], src.hostsUp, src.hostsDown, dead)
  }

  function PollOf(s: State, p: OnePoll, dead: bool): Poll {
    var s1 := Step(s, p.start);
    Poll(p.body, s1.hostAlive, ContextOf(s1), s.scalable, dead)
  }

  function NameOf(p: OnePoll): string {
    if p.start.GridStart? || p.start.ClusterStart? then p.start.name else ""
  }

  /** Poll number i is the latest of its source among the first k. */
  predicate IsLatest(run: PollRun, i: nat, k: nat) {
    i < k <= |run.polls| && forall j | i < j < k :: NameOf(run.polls[j]) != NameOf(run.polls[i])
  }

  /** The source stored under the name shows what the poll counted. */
  predicate ShowsPoll(s: State, name: string, p: Poll, n: string) {
    name in s.root && s.root[name].summary < |s.tables| && Shows(ChildIn(s, name, p.dead), p, n)
  }

  lemma PollShows(s: State, p: OnePoll, s': State, dead: bool, n: string)
    requires TablesApart(s) && PollAt(s, p, s')
    ensures ShowsPoll(s', NameOf(p), PollOf(s, p, dead), n)
  {
    PollConservation(s, p.start, p.body, p.end, n);
  }

  lemma OtherPollKeeps(s: State, p: OnePoll, s': State, name: string, q: Poll, n: string)
    requires TablesApart(s) && PollAt(s, p, s') && NameOf(p) != name && ShowsPoll(s, name, q, n)
    ensures ShowsPoll(s', name, q, n)
  {
    PollKeepsOthers(s, p.start, p.body, p.end);
    assert name in s.root && s'.root[name] == s.root[name];
  }

  /** What a source shows is its latest poll, however many polls of other sources came since. */
  lemma {:induction false} LatestPollShows(run: PollRun, i: nat, k: nat, dead: bool, n: string)
    requires IsPollRun(run, k) && IsLatest(run, i, k)
    ensures ShowsPoll(run.after[k - 1], NameOf(run.polls[i]), PollOf(run.before[i], run.polls[i], dead), n)
    decreases k
  {
    var q, name := PollOf(run.before[i], run.polls[i], dead), NameOf(run.polls[i]);
    RunStaysApart(run, k);
    if i == k - 1 {
      PollShows(run.before[i], run.polls[i], run.after[i], dead, n);
    } else {
      LatestPollShows(run, i, k - 1, dead, n);
      assert ShowsPoll(run.before[k - 1], name, q, n) by {
        assert Shared(run.after[k - 2], run.before[k - 1]) && ShowsPoll(run.after[k - 2], name, q, n);
      }
      OtherPollKeeps(run.before[k - 1], run.polls[k - 1], run.after[k - 1], name, q, n);
    }
  }

  /** The walk over the root meets the sources of these polls, in this order, and no others. */
  ghost predicate IsWalk(run: PollRun, walk: seq<nat>) {
    |run.polls| > 0 && IsPollRun(run, |run.polls|) &&
    (forall i <- walk :: IsLatest(run, i, |run.polls|)) &&
    (forall i, j | 0 <= i < j < |walk| :: walk[i] != walk[j]) &&
    run.after[|run.polls| - 1].root.Keys == set i <- walk | i < |run.polls| :: NameOf(run.polls[i])
  }

  /** p is the poll that poll number k of the run is, with dead telling whose data source is dead. */
  predicate IsPoll(run: PollRun, k: nat, dead: string -> bool, p: Poll) {
    k < |run.polls| == |run.before| && p == PollOf(run.before[k], run.polls[k], dead(NameOf(run.polls[k])))
  }

  /** c is what the root holds in the end under the name of poll number k. */
  predicate IsChild(run: PollRun, k: nat, dead: string -> bool, c: Child) {
    k < |run.polls| == |run.after| &&
    var s, name := run.after[|run.polls| - 1], NameOf(run.polls[k]);
    name in s.root && s.root[name].summary < |s.tables| && c == ChildIn(s, name, dead(name))
  }

  lemma WalkedShows(run: PollRun, walk: seq<nat>, k: nat, dead: string -> bool, c: Child, p: Poll, n: string)
    requires IsWalk(run, walk) && k in walk && IsChild(run, k, dead, c) && IsPoll(run, k, dead, p)
    ensures Shows(c, p, n)
  {
    LatestPollShows(run, k, |run.polls|, dead(NameOf(run.polls[k])), n);
  }

  lemma ChildNumeric(s: State, name: string, dead: bool, n: string)
    requires NumericAt(s, n) && name in s.root && s.root[name].summary < |s.tables|
    ensures var t := ChildIn(s, name, dead).table; n in t ==> IsNumeric(t[n].typeName)
  {
  }

  lemma WalkedNumeric(run: PollRun, k: nat, dead: string -> bool, c: Child, n: string)
    requires |run.polls| > 0 && IsPollRun(run, |run.polls|) && IsChild(run, k, dead, c) && NumericRun(run, n)
    ensures n in c.table ==> IsNumeric(c.table[n].typeName)
  {
    RunStaysNumeric(run, |run.polls|, n);
    var name := NameOf(run.polls[k]);
    ChildNumeric(run.after[|run.polls| - 1], name, dead(name), n);
  }

  /** End to end: after any run of polls, a root pass over the sources it has left in the root gives every
      metric, unless a METRICS tag gave it a type that is not numeric, the sum and the number of the METRIC
      tags that count in the latest poll of every live source, and the root the living and the dead hosts of
      those polls. */
  lemma RootShowsLatestPolls(run: PollRun, walk: seq<nat>, dead: string -> bool,
      children: seq<Child>, polls: seq<Poll>, t: Table, n: string)
    requires IsWalk(run, walk) && |children| == |polls| == |walk| && AllZero(t) && NumericRun(run, n)
    requires forall i | 0 <= i < |walk| ::
               IsChild(run, walk[i], dead, children[i]) && IsPoll(run, walk[i], dead, polls[i])
    ensures ValIn(Fold(t, children), n) == Add(CountedInAll(polls, n))
    ensures NumIn(Fold(t, children), n) == |CountedInAll(polls, n)|
    ensures (TotalUp(children), TotalDown(children)) == HostsInAll(polls)
  {
    forall i | 0 <= i < |walk|
      ensures Shows(children[i], polls[i], n)
    {
      WalkedShows(run, walk, walk[i], dead, children[i], polls[i], n);
    }
    forall c <- children
      ensures n in c.table ==> IsNumeric(c.table[n].typeName)
    {
      var i :| 0 <= i < |children| && children[i] == c;
      WalkedNumeric(run, walk[i], dead, c, n);
    }
    EachShows(children, polls, n);
    TwoLevelsAreFlat(children, polls, n);
    HostsAreFlat(children, polls, n);
    FoldIsTotal(t, children, n);
  }
}
