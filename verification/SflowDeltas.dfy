/** The sequence numbers and counter differences of gmond/sflow.c: which counter samples have their
    differences submitted, and what those differences are.

    The history of a collector is a log with one entry for each counter sample it has processed.
    What is submitted is specified on that log alone; the collector itself keeps only the last
    sequence number and the latched counters of each source. */
module SflowDeltas {
  import opened Base
  import opened Words

  const MAX_LOST_SAMPLES: nat := 7

  /** The agent's host, its sub-agent and the data source. */
  datatype Key = Key(agent: string, subAgent: nat, dsClass: nat, dsIndex: nat)

  datatype Field = Field(name: string, wide: bool) {
    function Modulus(): (m: nat)
      ensures m > 0
    {
      if wide then U64 else U32
    }
  }

  type Readings = map<Field, nat>

  /** A counter sample. named: it carries a host name and a physical-host structure; creatable: the
      host can be entered in the host table. fields: the counters of the blocks that are processed. */
  datatype Sample = Sample(dsClass: nat, dsIndex: nat, csSeqNo: nat, fields: Readings, named: bool, creatable: bool)

  datatype Datagram = Datagram(agent: string, subAgent: nat, seqNo: nat, samples: seq<Sample>)

  datatype Entry = Entry(datagram: nat, seqNo: nat, key: Key, csSeqNo: nat, fields: Readings, sent: Readings)

  type Log = seq<Entry>

  // ---- What the log says ----

  function Last(log: Log): Entry
    requires log != []
  {
    log[|log| - 1]
  }

  function Init(log: Log): Log
    requires log != []
  {
    log[..|log| - 1]
  }

  /** The sequence number of the latest sample from a source. */
  function LastSeq(log: Log, key: Key): Option<nat> {
    if log == [] then None
    else if Last(log).key == key then Some(Last(log).csSeqNo)
    else LastSeq(Init(log), key)
  }

  /** The latest reading of a counter of a source. */
  function LastReading(log: Log, key: Key, f: Field): Option<nat> {
    if log == [] then None
    else if Last(log).key == key && f in Last(log).fields then Some(Last(log).fields[f])
    else LastReading(Init(log), key, f)
  }

  function OrZero(o: Option<nat>): nat {
    match o
    case None => 0
    case Some(n) => n
  }

  function Difference(now: nat, before: nat, f: Field): nat {
    (now - before) % f.Modulus()
  }

  /** How far the sequence number moves, modulo 2^32. */
  function Advance(now: nat, before: nat): nat {
    (now - before) % U32
  }

  /** The last sample continues its source: no first sample, no restart, a step of 1 to 8. */
  predicate InOrder(log: Log)
    requires log != []
  {
    var e, before := Last(log), LastSeq(Init(log), Last(log).key);
    before.Some? && e.seqNo != 1 && e.csSeqNo != 1 && 1 <= Advance(e.csSeqNo, before.value) <= MAX_LOST_SAMPLES + 1
  }

  /** The last sample and all samples in front of it in its datagram are in order. */
  predicate Clean(log: Log)
    requires log != []
  {
    InOrder(log) && (|log| > 1 && Last(Init(log)).datagram == Last(log).datagram ==> Clean(Init(log)))
  }

  /** What the differences of the last sample are. */
  function Differences(log: Log): Readings
    requires log != []
  {
    var e := Last(log);
    map f | f in e.fields :: Difference(e.fields[f], OrZero(LastReading(Init(log), e.key, f)), f)
  }

  /** Every entry has exactly the differences submitted that it should have. */
  predicate Right(log: Log) {
    log != [] ==> Last(log).sent == (if Clean(log) then Differences(log) else map[]) && Right(Init(log))
  }

  // ---- The collector ----

  datatype DataSource = DataSource(csSeqNo: nat, counters: Readings)

  /** The latch of a counter; a new source has all of them at 0. */
  function Latch(ds: DataSource, f: Field): nat {
    if f in ds.counters then ds.counters[f] else 0
  }

  /** SFLOW_CTR_DELTA for every counter of the sample. */
  function Deltas(fields: Readings, ds: DataSource): Readings {
    map f | f in fields :: Difference(fields[f], Latch(ds, f), f)
  }

  function Lost(csSeqNo: nat, last: nat): nat {
    (csSeqNo - last - 1) % U32
  }

  function EntryOf(datagram: nat, d: Datagram, s: Sample, sent: Readings): Entry {
    Entry(datagram, d.seqNo, Key(d.agent, d.subAgent, s.dsClass, s.dsIndex), s.csSeqNo, s.fields, sent)
  }

  /** An entry names the agent and its sub-agent, the source in it, both sequence numbers and the readings. */
  lemma EntryExact(datagram: nat, d: Datagram, s: Sample, sent: Readings)
    ensures var e := EntryOf(datagram, d, s, sent);
      e.key.agent == d.agent && e.key.subAgent == d.subAgent && e.key.dsClass == s.dsClass &&
      e.key.dsIndex == s.dsIndex && e.seqNo == d.seqNo && e.csSeqNo == s.csSeqNo && e.fields == s.fields &&
      e.sent == sent && e.datagram == datagram
  {
  }

  /** Whether differences may still be submitted in this datagram. */
  predicate Due(log: Log, datagram: nat) {
    log != [] && Last(log).datagram == datagram ==> Clean(log)
  }

  /** Samples of an unknown host are skipped up to the first one that names it. */
  function FirstNamed(ss: seq<Sample>): (n: nat)
    ensures n <= |ss|
    ensures n < |ss| ==> ss[n].named
    ensures forall k | 0 <= k < n :: !ss[k].named
  {
    if ss == [] || ss[0].named then 0 else 1 + FirstNamed(ss[1..])
  }

  class Collector {
    var hosts: set<string>
    var sources: map<Key, DataSource>
    ghost var log: Log
    ghost var datagrams: nat  // received so far

    /** The kept state is what the log says, and everything submitted so far was right. */
    ghost predicate Valid()
      reads this
    {
      Right(log) && Faithful(sources, log) && (forall e <- log :: e.datagram <= datagrams)
    }

    constructor ()
      ensures Valid() && hosts == {} && log == []
    {
      hosts, sources := {}, map[];
      log, datagrams := [], 0;
    }

    /** processCounterSample. deltas is the flag counterDeltas of the datagram. */
    method ProcessSample(d: Datagram, s: Sample, deltas: bool) returns (ok: bool, deltas': bool, sent: Readings)
      requires Valid()
      requires deltas <==> Due(log, datagrams)
      modifies this
      ensures Valid() && datagrams == old(datagrams)
      ensures d.agent !in old(hosts) && !(s.named && s.creatable) ==>
        ok == !s.named && hosts == old(hosts) && log == old(log)
      ensures d.agent in old(hosts) || (s.named && s.creatable) ==>
        ok && hosts == old(hosts) + {d.agent} && log == old(log) + [EntryOf(datagrams, d, s, sent)]
      ensures deltas' <==> Due(log, datagrams)
    {
      sent := map[];
      deltas' := deltas;
      if d.agent !in hosts {
        if !s.named {
          return true, deltas', sent;
        }
        if !s.creatable {
          return false, deltas', sent;
        }
      }
      hosts := hosts + {d.agent};
      deltas', sent := CheckAndLatch(d, s, deltas);
      ok := true;
    }

    /** The part of processCounterSample behind the look-up of the host. */
    method CheckAndLatch(d: Datagram, s: Sample, deltas: bool) returns (deltas': bool, sent: Readings)
      requires Valid()
      requires deltas <==> Due(log, datagrams)
      modifies `sources, `log
      ensures Valid() && log == old(log) + [EntryOf(datagrams, d, s, sent)]
      ensures deltas' <==> Due(log, datagrams)
    {
      sent := map[];
      deltas' := deltas;
      var key := Key(d.agent, d.subAgent, s.dsClass, s.dsIndex);
      var ds: DataSource;
      if key in sources {
        ds := sources[key];
      } else {
        ds := DataSource(0, map[]);
        deltas' := false;
      }
      var lostSamples := Lost(s.csSeqNo, ds.csSeqNo);
      if d.seqNo == 1 || s.csSeqNo == 1 || lostSamples > MAX_LOST_SAMPLES {
        deltas' := false;
      }
      if deltas' {
        sent := Deltas(s.fields, ds);
      }
      ghost var e := EntryOf(datagrams, d, s, sent);
      EntryIsRight(sources, log, e, ds, deltas, deltas');
      sources := sources[key := DataSource(s.csSeqNo, ds.counters + s.fields)];
      log := log + [e];
    }

    /** process_sflow_datagram, for the counter samples that survived its framing. */
    method Receive(d: Datagram) returns (ok: bool, reports: seq<Readings>)
      requires Valid()
      modifies this
      ensures Valid()
      ensures var skipped := Skipped(d, old(hosts));
        var refused := d.agent !in old(hosts) && skipped < |d.samples| && !d.samples[skipped].creatable;
        ok == !refused &&
        |reports| == (if refused then 0 else |d.samples| - skipped) &&
        hosts == (if reports == [] then old(hosts) else old(hosts) + {d.agent}) &&
        Extends(old(log), log, d, skipped, datagrams, reports)
      ensures forall e <- old(log) :: e.datagram < datagrams
    {
      datagrams := datagrams + 1;
      reports := [];
      var deltas := true;
      ghost var hosts0, log0 := hosts, log;
      for k := 0 to |d.samples|
        invariant Valid() && datagrams == old(datagrams) + 1
        invariant deltas <==> Due(log, datagrams)
        invariant Received(d, hosts0, log0, datagrams, k, hosts, log, reports)
      {
        ok, deltas, reports := Take(d, k, deltas, reports, hosts0, log0);
        if !ok {
          return;
        }
      }
      ok := true;
    }

    /** One round of the loop over the samples. */
    method Take(d: Datagram, k: nat, deltas: bool, before: seq<Readings>, ghost hosts0: set<string>, ghost log0: Log)
      returns (ok: bool, deltas': bool, reports: seq<Readings>)
      requires Valid() && k < |d.samples| && (deltas <==> Due(log, datagrams))
      requires Received(d, hosts0, log0, datagrams, k, hosts, log, before)
      modifies this
      ensures Valid() && datagrams == old(datagrams) && (deltas' <==> Due(log, datagrams))
      ensures ok ==> Received(d, hosts0, log0, datagrams, k + 1, hosts, log, reports)
      ensures !ok ==> k == Skipped(d, hosts0) && d.agent !in hosts0 && !d.samples[k].creatable &&
                      reports == [] && hosts == hosts0 && Extends(log0, log, d, k, datagrams, [])
    {
      NamedStep(d, hosts0, k, hosts, |before|);
      ghost var was := log;
      reports := before;
      var sent;
      ok, deltas', sent := ProcessSample(d, d.samples[k], deltas);
      if ok && d.agent in hosts {
        ExtendsStep(log0, was, d, Skipped(d, hosts0), datagrams, before, sent);
        reports := before + [sent];
      }
    }
  }

  function Skipped(d: Datagram, hosts: set<string>): (n: nat)
    ensures n <= |d.samples|
  {
    if d.agent in hosts then 0 else FirstNamed(d.samples)
  }

  /** The log has gained an entry for every report. */
  predicate Extends(log0: Log, log: Log, d: Datagram, skipped: nat, datagram: nat, reports: seq<Readings>) {
    skipped + |reports| <= |d.samples| && |log| == |log0| + |reports| && log[..|log0|] == log0 &&
    forall k | 0 <= k < |reports| :: log[|log0| + k] == EntryOf(datagram, d, d.samples[skipped + k], reports[k])
  }

  lemma ExtendsStep(log0: Log, log: Log, d: Datagram, skipped: nat, datagram: nat,
      reports: seq<Readings>, sent: Readings)
    requires Extends(log0, log, d, skipped, datagram, reports) && skipped + |reports| < |d.samples|
    ensures var e := EntryOf(datagram, d, d.samples[skipped + |reports|], sent);
      Extends(log0, log + [e], d, skipped, datagram, reports + [sent])
  {
    var log' := log + [EntryOf(datagram, d, d.samples[skipped + |reports|], sent)];
    assert log'[..|log0|] == log[..|log0|];
    forall k | 0 <= k < |reports + [sent]|
      ensures log'[|log0| + k] == EntryOf(datagram, d, d.samples[skipped + k], (reports + [sent])[k])
    {
      assert k < |reports| ==> log'[|log0| + k] == log[|log0| + k];
    }
  }

  /** Which hosts are known and how many reports there are after the first k samples of a datagram. */
  predicate Named(d: Datagram, hosts0: set<string>, k: nat, hosts: set<string>, reports: nat) {
    var skipped := Skipped(d, hosts0);
    k <= |d.samples| && reports == (if k > skipped then k - skipped else 0) &&
    hosts == (if reports == 0 then hosts0 else hosts0 + {d.agent}) &&
    (d.agent !in hosts0 && k > skipped ==> d.samples[skipped].creatable)
  }

  lemma NamedStep(d: Datagram, hosts0: set<string>, k: nat, hosts: set<string>, reports: nat)
    requires k < |d.samples| && Named(d, hosts0, k, hosts, reports)
    ensures var s, skipped := d.samples[k], Skipped(d, hosts0);
      if d.agent in hosts || (s.named && s.creatable) then
        k == skipped + reports && Named(d, hosts0, k + 1, hosts + {d.agent}, reports + 1)
      else if s.named then k == skipped && reports == 0 && d.agent !in hosts0 && hosts == hosts0
      else Named(d, hosts0, k + 1, hosts, reports)
  {
    assert d.agent in hosts <==> d.agent in hosts0 || k > Skipped(d, hosts0);
  }

  /** The first k samples of a datagram have been processed. */
  predicate Received(d: Datagram, hosts0: set<string>, log0: Log, datagram: nat, k: nat,
      hosts: set<string>, log: Log, reports: seq<Readings>)
  {
    Named(d, hosts0, k, hosts, |reports|) && Extends(log0, log, d, Skipped(d, hosts0), datagram, reports)
  }

  /** What is kept of a source is its latest sequence number and its latest readings. */
  ghost predicate Tracks(sources: map<Key, DataSource>, log: Log, key: Key) {
    (key in sources <==> LastSeq(log, key).Some?) &&
    (key in sources ==>
      sources[key].csSeqNo == LastSeq(log, key).value &&
      forall f :: Latch(sources[key], f) == OrZero(LastReading(log, key, f))) &&
    (key !in sources ==> forall f :: LastReading(log, key, f) == None)
  }

  ghost predicate Faithful(sources: map<Key, DataSource>, log: Log) {
    forall key :: Tracks(sources, log, key)
  }

  function Kept(sources: map<Key, DataSource>, key: Key): DataSource {
    if key in sources then sources[key] else DataSource(0, map[])
  }

  lemma TracksEntry(sources: map<Key, DataSource>, log: Log, e: Entry, ds: DataSource)
    requires Faithful(sources, log)
    requires ds == Kept(sources, e.key)
    ensures Faithful(sources[e.key := DataSource(e.csSeqNo, ds.counters + e.fields)], log + [e])
  {
    var sources' := sources[e.key := DataSource(e.csSeqNo, ds.counters + e.fields)];
    assert Init(log + [e]) == log;
    forall key
      ensures Tracks(sources', log + [e], key)
    {
      assert Tracks(sources, log, key);
    }
  }

  /** What the code tests is the order of the log, and what it subtracts is the last reading. */
  lemma RightEntry(sources: map<Key, DataSource>, log: Log, e: Entry, ds: DataSource)
    requires Tracks(sources, log, e.key)
    requires ds == Kept(sources, e.key)
    ensures InOrder(log + [e]) <==>
              e.key in sources && !(e.seqNo == 1 || e.csSeqNo == 1 || Lost(e.csSeqNo, ds.csSeqNo) > MAX_LOST_SAMPLES)
    ensures Differences(log + [e]) == Deltas(e.fields, ds)
  {
    assert Init(log + [e]) == log;
    assert forall f | f in e.fields :: Latch(ds, f) == OrZero(LastReading(log, e.key, f));
  }

  /** The step of processCounterSample from the kept state to the log. */
  lemma EntryIsRight(sources: map<Key, DataSource>, log: Log, e: Entry, ds: DataSource, deltas: bool, deltas': bool)
    requires Right(log) && Faithful(sources, log) && ds == Kept(sources, e.key)
    requires deltas <==> Due(log, e.datagram)
    requires deltas' <==>
      deltas && e.key in sources && !(e.seqNo == 1 || e.csSeqNo == 1 || Lost(e.csSeqNo, ds.csSeqNo) > MAX_LOST_SAMPLES)
    requires e.sent == if deltas' then Deltas(e.fields, ds) else map[]
    ensures Right(log + [e])
    ensures Faithful(sources[e.key := DataSource(e.csSeqNo, ds.counters + e.fields)], log + [e])
    ensures deltas' <==> Due(log + [e], e.datagram)
  {
    TracksEntry(sources, log, e, ds);
    assert Tracks(sources, log, e.key);
    RightEntry(sources, log, e, ds);
    assert Init(log + [e]) == log;
  }

  // ---- What a right log means ----

  lemma {:induction false} RightPrefix(log: Log, k: nat)
    requires Right(log) && k <= |log|
    ensures Right(log[..k])
  {
    if k < |log| {
      RightPrefix(Init(log), k);
      assert Init(log)[..k] == log[..k];
    } else {
      assert log[..k] == log;
    }
  }

  lemma {:induction false} LastSeqIsLatest(log: Log, key: Key)
    ensures LastSeq(log, key) == None ==> forall e <- log :: e.key != key
    ensures LastSeq(log, key).Some? ==>
      exists p | 0 <= p < |log| :: IsLatest(log, key, p) && log[p].csSeqNo == LastSeq(log, key).value
  {
    if log != [] {
      if Last(log).key == key {
        assert IsLatest(log, key, |log| - 1);
      } else {
        LastSeqIsLatest(Init(log), key);
        if LastSeq(log, key).Some? {
          var p :| 0 <= p < |Init(log)| && IsLatest(Init(log), key, p) &&
                   Init(log)[p].csSeqNo == LastSeq(log, key).value;
          assert IsLatest(log, key, p);
        }
      }
    }
  }

  predicate IsLatest(log: Log, key: Key, p: nat)
    requires p < |log|
  {
    log[p].key == key && forall j | p < j < |log| :: log[j].key != key
  }

  /** The sample numbered j is neither the first of a restarted agent or sampler nor out of step with the
      sample before it from the same source, which is there. */
  ghost predicate Continues(log: Log, j: nat)
    requires j < |log|
  {
    log[j].seqNo != 1 && log[j].csSeqNo != 1 &&
    exists p | 0 <= p < j :: IsLatest(log[..j], log[j].key, p) && 1 <= Advance(log[j].csSeqNo, log[p].csSeqNo) <= 8
  }

  lemma InOrderContinues(log: Log, j: nat)
    requires j < |log|
    ensures InOrder(log[..j + 1]) <==> Continues(log, j)
  {
    assert Init(log[..j + 1]) == log[..j];
    LastSeqIsLatest(log[..j], log[j].key);
    if Continues(log, j) {
      var p :| 0 <= p < j && IsLatest(log[..j], log[j].key, p) && 1 <= Advance(log[j].csSeqNo, log[p].csSeqNo) <= 8;
      LatestIsUnique(log[..j], log[j].key, p);
    }
  }

  lemma LatestIsUnique(log: Log, key: Key, p: nat)
    requires p < |log| && IsLatest(log, key, p)
    ensures LastSeq(log, key) == Some(log[p].csSeqNo)
  {
    LastSeqIsLatest(log, key);
    if LastSeq(log, key).Some? {
      var q :| 0 <= q < |log| && IsLatest(log, key, q) && log[q].csSeqNo == LastSeq(log, key).value;
      assert !(p < q) && !(q < p);
    }
  }

  /** Where the datagram of entry number k begins in the log. */
  function Start(log: Log, k: nat): (i: nat)
    requires k < |log|
    ensures i <= k
  {
    if k > 0 && log[k - 1].datagram == log[k].datagram then Start(log, k - 1) else k
  }

  lemma {:induction false} CleanIsAllContinue(log: Log, k: nat)
    requires k < |log|
    ensures Clean(log[..k + 1]) <==> forall j | Start(log, k) <= j <= k :: Continues(log, j)
    decreases k
  {
    InOrderContinues(log, k);
    assert Init(log[..k + 1]) == log[..k];
    if k > 0 {
      CleanIsAllContinue(log, k - 1);
    }
  }

  /** The differences of a sample are submitted exactly when it and all samples before it in its datagram
      continue their sources; a sample without counters has none. */
  lemma SentExactlyForContinuations(log: Log, k: nat)
    requires Right(log) && k < |log|
    ensures log[k].sent != map[] <==>
              log[k].fields != map[] && forall j | Start(log, k) <= j <= k :: Continues(log, j)
    ensures log[k].sent != map[] ==> log[k].sent.Keys == log[k].fields.Keys
  {
    var upTo := log[..k + 1];
    RightPrefix(log, k + 1);
    CleanIsAllContinue(log, k);
    assert Last(upTo) == log[k] && log[k].sent == if Clean(upTo) then Differences(upTo) else map[];
    assert Differences(upTo).Keys == log[k].fields.Keys;
    SameEmptiness(Differences(upTo), log[k].fields);
  }

  lemma SameEmptiness(a: Readings, b: Readings)
    requires a.Keys == b.Keys
    ensures a == map[] <==> b == map[]
  {
    assert a == map[] <==> a.Keys == {};
    assert b == map[] <==> b.Keys == {};
  }

  /** One sample out of step silences itself and all that follow in its datagram, whatever their sources. */
  lemma OneBreakSilencesTheRest(log: Log, j: nat, k: nat)
    requires Right(log) && j <= k < |log| && Start(log, k) <= j && !Continues(log, j)
    ensures log[k].sent == map[]
  {
    SentExactlyForContinuations(log, k);
  }

  /** For instance: source 1 repeats a number, and source 2 behind it, which is in order, submits nothing. */
  lemma SilencedWitness()
    ensures
      var f := Field("octets", false);
      var a, b := Key("agent", 0, 0, 1), Key("agent", 0, 0, 2);
      var log := [Entry(1, 5, a, 10, map[f := 100], map[]), Entry(1, 5, b, 20, map[f := 100], map[]),
                  Entry(2, 6, a, 10, map[f := 150], map[]), Entry(2, 6, b, 21, map[f := 150], map[])];
      Right(log) && !Continues(log, 2) && Continues(log, 3) && log[3].sent == map[] &&
      Differences(log) == map[f := 50]
  {
    var f := Field("octets", false);
    var a, b := Key("agent", 0, 0, 1), Key("agent", 0, 0, 2);
    var e0, e1 := Entry(1, 5, a, 10, map[f := 100], map[]), Entry(1, 5, b, 20, map[f := 100], map[]);
    var e2, e3 := Entry(2, 6, a, 10, map[f := 150], map[]), Entry(2, 6, b, 21, map[f := 150], map[]);
    var log1, log2, log3 := [e0], [e0, e1], [e0, e1, e2];
    var log := [e0, e1, e2, e3];
    assert log[..3] == log3 && log3[..2] == log2 && log2[..1] == log1 && log1[..0] == [] && log[..4] == log;
    assert Init(log) == log3 && Init(log3) == log2 && Init(log2) == log1 && Init(log1) == [];
    assert Right(log1) && Right(log2);
    assert LastSeq(log1, a) == Some(10) && LastSeq(log2, a) == Some(10) && LastSeq(log1, b) == None;
    assert LastSeq(log3, b) == Some(20) && LastReading(log3, b, f) == Some(100);
    InOrderContinues(log, 2);
    InOrderContinues(log, 3);
  }

  // ---- Sums over a run ----

  /** The submitted differences of one counter from entry number from on. */
  function SumSent(log: Log, from: nat, key: Key, f: Field): nat {
    if |log| <= from then 0
    else SumSent(Init(log), from, key, f) +
         (if Last(log).key == key && f in Last(log).sent then Last(log).sent[f] else 0)
  }

  predicate AllSent(log: Log, from: nat, key: Key, f: Field) {
    forall k | from <= k < |log| && log[k].key == key && f in log[k].fields :: f in log[k].sent
  }

  /** Submitted differences add up to last minus first, modulo the width of the counter. */
  lemma {:induction false} DifferencesTelescope(log: Log, from: nat, key: Key, f: Field)
    requires Right(log) && from <= |log| && AllSent(log, from, key, f)
    ensures SumSent(log, from, key, f) % f.Modulus() ==
            Difference(OrZero(LastReading(log, key, f)), OrZero(LastReading(log[..from], key, f)), f)
  {
    var first: int, last: int := OrZero(LastReading(log[..from], key, f)), OrZero(LastReading(log, key, f));
    if from == |log| {
      assert log[..from] == log;
    } else {
      DifferencesTelescope(Init(log), from, key, f);
      assert Init(log)[..from] == log[..from];
      var e := Last(log);
      var before: int := OrZero(LastReading(Init(log), key, f));
      if e.key == key && f in e.fields {
        assert f in log[|log| - 1].sent;
        ModSum(SumSent(Init(log), from, key, f), before - first, last - before, f.Modulus());
      } else if e.key == key {
        assert f !in e.sent;
      }
    }
  }

  /** If a counter of 32 or 64 bits has moved by less than its range since it was read, the difference is how far
      it has moved, whether or not it has wrapped. */
  lemma DifferenceExact(before: nat, moved: nat, f: Field)
    requires if f.wide then moved < 18446744073709551616 else moved < 4294967296
    ensures Difference((before + moved) % (if f.wide then 18446744073709551616 else 4294967296), before, f) == moved
  {
    var m := f.Modulus();
    var r := (before + moved) % m;
    var q := (before + moved) / m;
    assert before + moved == m * q + r;
    assert r - before == m * (-q) + moved;
    ModUnique(r - before, m, -q, moved);
  }

  /** What is submitted of a counter in a sample that is in order is its whole reading exactly if nothing is
      latched of it but a multiple of its modulus: so whenever its block is seen for the first time. */
  lemma LateBlockSendsWholeReading(log: Log, f: Field)
    requires Right(log) && log != [] && Clean(log) && f in Last(log).fields
    ensures f in Last(log).sent
    ensures Last(log).sent[f] == Last(log).fields[f] % f.Modulus() <==>
              OrZero(LastReading(Init(log), Last(log).key, f)) % f.Modulus() == 0
    ensures LastReading(Init(log), Last(log).key, f) == None ==>
              Last(log).sent[f] == Last(log).fields[f] % f.Modulus()
  {
    SameRemainder(Last(log).fields[f], OrZero(LastReading(Init(log), Last(log).key, f)), f.Modulus());
  }

  /** The samples of a source, and how far its sequence numbers moved over them. */
  function Count(log: Log, from: nat, key: Key): nat {
    if |log| <= from then 0 else Count(Init(log), from, key) + (if Last(log).key == key then 1 else 0)
  }

  predicate AllClean(log: Log, from: nat, key: Key) {
    forall k | from <= k < |log| && log[k].key == key :: Clean(log[..k + 1])
  }

  lemma AllCleanInit(log: Log, from: nat, key: Key)
    requires AllClean(log, from, key) && from < |log|
    ensures AllClean(Init(log), from, key)
  {
    forall k | from <= k < |Init(log)| && Init(log)[k].key == key
      ensures Clean(Init(log)[..k + 1])
    {
      assert Init(log)[..k + 1] == log[..k + 1] && log[k].key == key;
    }
  }

  /** Over samples that were all accepted, each number moves the source on by 1 to 8. */
  lemma {:induction false} NumbersMove(log: Log, from: nat, key: Key) returns (moved: nat)
    requires from <= |log| && LastSeq(log[..from], key).Some? && AllClean(log, from, key)
    ensures LastSeq(log, key).Some? && Count(log, from, key) <= moved <= 8 * Count(log, from, key)
    ensures Advance(LastSeq(log, key).value, LastSeq(log[..from], key).value) == moved % U32
  {
    if from == |log| {
      assert log[..from] == log;
      moved := 0;
    } else {
      assert Init(log)[..from] == log[..from];
      AllCleanInit(log, from, key);
      var before := NumbersMove(Init(log), from, key);
      moved := before;
      if Last(log).key == key {
        assert log[|log| - 1].key == key && log[..|log| - 1 + 1] == log;
        var first: int, mid: int, last: int :=
          LastSeq(log[..from], key).value, LastSeq(Init(log), key).value, Last(log).csSeqNo;
        moved := before + Advance(last, mid);
        ModSum(before, mid - first, last - mid, U32);
      }
    }
  }

  /** So no number comes back before 2^32 has been passed, which takes more than 2^29 - 1 samples. */
  lemma NoNumberTwice(log: Log, from: nat, key: Key)
    requires from <= |log| && LastSeq(log[..from], key).Some? && AllClean(log, from, key)
    requires 0 < Count(log, from, key) < 0x2000_0000
    ensures LastSeq(log, key).Some? && LastSeq(log, key) != LastSeq(log[..from], key)
  {
    var moved := NumbersMove(log, from, key);
  }
}
