/** The event machine of gmetad/process_xml.c: how one poll of a data source, a stream of XML start
    and end tags, becomes the published summary of that source.

    A source has two summary tables. The tags of a poll fill the pending one; the closing tag swaps
    it with the current one and stores the source. Tables are shared by reference between the stored
    source and the copy the machine works on, so a source holds table numbers. */
module SummaryPoll {
  import opened Base
  import opened Words

  datatype MetricType = INT | UINT | FLOAT | TIMESTAMP | STRING

  /** The keyword map of in_type_list. */
  function TypeOf(name: string): Option<MetricType> {
    if name == "int8" || name == "int16" || name == "int32" then Some(INT)
    else if name == "uint8" || name == "uint16" || name == "uint32" then Some(UINT)
    else if name == "float" || name == "double" then Some(FLOAT)
    else if name == "timestamp" then Some(TIMESTAMP)
    else if name == "string" then Some(STRING)
    else None
  }

  /** The ten type names, and what is numeric. */
  lemma TypeNames(name: string)
    ensures TypeOf(name).Some? <==> IsNumeric(name) || name == "timestamp" || name == "string"
    ensures IsNumeric(name) <==>
              name in {"int8", "int16", "int32", "uint8", "uint16", "uint32", "float", "double"}
  {
  }

  predicate IsNumeric(name: string) {
    TypeOf(name) == Some(INT) || TypeOf(name) == Some(UINT) || TypeOf(name) == Some(FLOAT)
  }

  datatype Metric = Metric(val: real, num: nat, typeName: string)
  type Table = map<string, Metric>
  datatype Source = Source(summary: nat, pending: nat, hostsUp: nat, hostsDown: nat, localtime: nat)

  /** A tag with the attributes the machine reads; numbers are already converted. */
  datatype Event =
    | GangliaXml(old_: bool)
    | GridStart(name: string, localtime: nat)
    | GridEnd
    | ClusterStart(name: string, localtime: nat)
    | ClusterEnd
    | HostStart(reported: nat, tn: nat, tmax: nat)
    | Hosts(up: nat, down: nat)
    | MetricTag(name: string, val: real, typeName: string, tn: nat, dmax: nat)
    | MetricsTag(name: string, sum: real, num: nat, typeName: string)

  datatype State = State(
    scalable: bool,              // gmetad_config.scalable_mode
    tables: seq<Table>,
    root: map<string, Source>,
    sourcename: string,
    source: Source,
    gridDepth: int,
    hostAlive: bool,
    old_: bool)

  predicate IsAlive(reported: nat, tn: nat, tmax: nat, localtime: nat, old_: bool) {
    if old_ || tmax % U32 == 0 then AbsDifference(localtime, reported) < 60
    else tn % U32 < tmax * 4 % U32
  }

  /** The attributes of a HOST tag are such that nothing wraps in the test. */
  predicate HostInRange(reported: nat, tn: nat, tmax: nat, localtime: nat) {
    tn < U32 && 4 * tmax < U32 && -0x8000_0000 < localtime - reported < 0x8000_0000
  }

  /** On such attributes a host is alive if it was heard within four times its TMAX; in a stream from before
      2.5, or without a TMAX, if it reported within a minute of the source's clock. */
  lemma IsAliveExact(reported: nat, tn: nat, tmax: nat, localtime: nat, old_: bool)
    requires HostInRange(reported, tn, tmax, localtime)
    ensures IsAlive(reported, tn, tmax, localtime, old_) <==>
              if old_ || tmax == 0 then -60 < localtime - reported < 60 else tn < 4 * tmax
  {
  }

  function ZeroOut(t: Table): Table {
    map n | n in t :: t[n].(val := 0.0, num := 0)
  }

  // ---- What each tag does ----

  function Open(s: State, name: string, localtime: nat): State {
    if name in s.root && s.root[name].pending < |s.tables| then
      var src := s.root[name];
      s.(sourcename := name,
         source := src.(hostsUp := 0, hostsDown := 0, localtime := localtime),
         tables := s.tables[src.pending := ZeroOut(s.tables[src.pending])])
    else
      s.(sourcename := name,
         source := Source(|s.tables|, |s.tables| + 1, 0, 0, localtime),
         tables := s.tables + [map[], map[]])
  }

  function Publish(s: State): State {
    var src := s.source.(summary := s.source.pending, pending := s.source.summary);
    s.(source := src, root := s.root[s.sourcename := src])
  }

  predicate Dropped(tn: nat, dmax: nat) {
    dmax != 0 && tn > dmax
  }

  function AddMetric(t: Table, name: string, val: real, typeName: string): Table {
    if name in t then t[name := t[name].(val := t[name].val + val, num := t[name].num + 1)]
    else t[name := Metric(val, 1, typeName)]
  }

  /** What a METRICS tag writes, given what the pending table holds for its name. */
  function MetricsEntry(pending: Table, e: Event): Option<Metric>
    requires e.MetricsTag?
  {
    if e.name !in pending then
      Some(match TypeOf(e.typeName)
           case None => Metric(0.0, 0, "")
           case Some(STRING) => Metric(0.0, e.num, e.typeName)
           case Some(_) => Metric(e.sum, e.num, e.typeName))
    else
      var m := pending[e.name];
      if TypeOf(e.typeName).None? then None
      else if IsNumeric(e.typeName) then Some(m.(val := m.val + e.sum, num := m.num + e.num))
      else Some(m.(num := m.num + e.num))
  }

  predicate SourceOpen(s: State) {
    s.source.summary < |s.tables| && s.source.pending < |s.tables|
  }

  function Step(s: State, e: Event): State {
    match e
    case GangliaXml(old_) => s.(old_ := old_)
    case GridStart(name, localtime) =>
      if !s.scalable then s
      else
        var s' := if s.gridDepth == 0 then Open(s, name, localtime) else s;
        s'.(gridDepth := s.gridDepth + 1)
    case GridEnd =>
      if !s.scalable then s
      else
        var s' := s.(gridDepth := s.gridDepth - 1);
        if s'.gridDepth == 0 then Publish(s') else s'
    case ClusterStart(name, localtime) => if s.gridDepth == 0 then Open(s, name, localtime) else s
    case ClusterEnd => if s.gridDepth == 0 then Publish(s) else s
    case HostStart(reported, tn, tmax) =>
      var alive := IsAlive(reported, tn, tmax, s.source.localtime, s.old_);
      s.(hostAlive := alive,
         source := if alive then s.source.(hostsUp := s.source.hostsUp + 1)
                   else s.source.(hostsDown := s.source.hostsDown + 1))
    case Hosts(up, down) =>
      if !s.scalable then s
      else s.(source := s.source.(hostsUp := s.source.hostsUp + up, hostsDown := s.source.hostsDown + down))
    case MetricTag(name, val, typeName, tn, dmax) =>
      if !s.hostAlive || !IsNumeric(typeName) || (s.gridDepth == 0 && Dropped(tn, dmax)) || !SourceOpen(s) then s
      else s.(tables := s.tables[s.source.pending := AddMetric(s.tables[s.source.pending], name, val, typeName)])
    case MetricsTag(name, _, _, _) =>
      if !s.scalable || !SourceOpen(s) then s
      else
        var m := MetricsEntry(s.tables[s.source.pending], e);
        if m.None? then s
        else s.(tables := s.tables[s.source.summary := s.tables[s.source.summary][name := m.value]])
  }

  function Run(s: State, events: seq<Event>): State {
    if events == [] then s else Step(Run(s, events[..|events| - 1]), events[|events| - 1])
  }

  /** The handlers of process_xml.c, updating the fields of xmldata_t and the tables. */
  class XmlData {
    const scalable: bool
    var tables: seq<Table>
    var root: map<string, Source>
    var sourcename: string
    var source: Source
    var gridDepth: int
    var hostAlive: bool
    var old_: bool

    ghost function Abs(): State
      reads this
    {
      State(scalable, tables, root, sourcename, source, gridDepth, hostAlive, old_)
    }

    constructor (scalable: bool, tables: seq<Table>, root: map<string, Source>)
      ensures Abs() == State(scalable, tables, root, "", Source(0, 0, 0, 0, 0), 0, false, false)
    {
      this.scalable, this.tables, this.root := scalable, tables, root;
      sourcename, source := "", Source(0, 0, 0, 0, 0);
      gridDepth, hostAlive, old_ := 0, false, false;
    }

    method OpenSource(name: string, localtime: nat)
      modifies this
      ensures Abs() == Open(old(Abs()), name, localtime)
    {
      sourcename := name;
      if name in root && root[name].pending < |tables| {
        source := root[name];
        source := source.(hostsUp := 0, hostsDown := 0);
        tables := tables[source.pending := ZeroOut(tables[source.pending])];
      } else {
        source := Source(|tables|, |tables| + 1, 0, 0, 0);
        tables := tables + [map[], map[]];
      }
      source := source.(localtime := localtime);
    }

    method PublishSource()
      modifies this
      ensures Abs() == Publish(old(Abs()))
    {
      var summary := source.pending;
      source := source.(pending := source.summary);
      source := source.(summary := summary);
      root := root[sourcename := source];
    }

    method StartGrid(name: string, localtime: nat)
      modifies this
      ensures Abs() == Step(old(Abs()), GridStart(name, localtime))
    {
      if !scalable {
        return;
      }
      if gridDepth == 0 {
        OpenSource(name, localtime);
      }
      gridDepth := gridDepth + 1;
    }

    method EndGrid()
      modifies this
      ensures Abs() == Step(old(Abs()), GridEnd)
    {
      if !scalable {
        return;
      }
      gridDepth := gridDepth - 1;
      if gridDepth == 0 {
        PublishSource();
      }
    }

    method StartCluster(name: string, localtime: nat)
      modifies this
      ensures Abs() == Step(old(Abs()), ClusterStart(name, localtime))
    {
      if gridDepth == 0 {
        OpenSource(name, localtime);
      }
    }

    method EndCluster()
      modifies this
      ensures Abs() == Step(old(Abs()), ClusterEnd)
    {
      if gridDepth == 0 {
        PublishSource();
      }
    }

    method StartHost(reported: nat, tn: nat, tmax: nat)
      modifies this
      ensures Abs() == Step(old(Abs()), HostStart(reported, tn, tmax))
      ensures HostInRange(reported, tn, tmax, old(source.localtime)) ==>
        var now := old(source.localtime);
        hostAlive == (if old(old_) || tmax == 0 then -60 < now - reported < 60 else tn < 4 * tmax) &&
        source.hostsUp == old(source.hostsUp) + (if hostAlive then 1 else 0) &&
        source.hostsDown == old(source.hostsDown) + (if hostAlive then 0 else 1)
    {
      if HostInRange(reported, tn, tmax, source.localtime) {
        IsAliveExact(reported, tn, tmax, source.localtime, old_);
      }
      hostAlive := IsAlive(reported, tn, tmax, source.localtime, old_);
      if hostAlive {
        source := source.(hostsUp := source.hostsUp + 1);
      } else {
        source := source.(hostsDown := source.hostsDown + 1);
      }
    }

    method StartHosts(up: nat, down: nat)
      modifies this
      ensures Abs() == Step(old(Abs()), Hosts(up, down))
    {
      if !scalable {
        return;
      }
      source := source.(hostsUp := source.hostsUp + up);
      source := source.(hostsDown := source.hostsDown + down);
    }

    method StartMetric(name: string, val: real, typeName: string, tn: nat, dmax: nat)
      modifies this
      ensures Abs() == Step(old(Abs()), MetricTag(name, val, typeName, tn, dmax))
    {
      if !hostAlive {
        return;
      }
      var tt := TypeOf(typeName);
      if tt.None? {
        return;
      }
      var doSummary := tt.value == INT || tt.value == UINT || tt.value == FLOAT;
      var metric := Metric(val, 0, typeName);
      if gridDepth == 0 {
        if dmax != 0 && tn > dmax {
          return;
        }
      }
      if doSummary && source.summary < |tables| && source.pending < |tables| {
        var summary := tables[source.pending];
        if name in summary {
          metric := summary[name];
          metric := metric.(val := metric.val + val);
        }
        metric := metric.(num := metric.num + 1);
        tables := tables[source.pending := summary[name := metric]];
      }
    }

    method StartMetrics(name: string, sum: real, num: nat, typeName: string)
      modifies this
      ensures Abs() == Step(old(Abs()), MetricsTag(name, sum, num, typeName))
    {
      if !scalable || !(source.summary < |tables| && source.pending < |tables|) {
        return;
      }
      var tt := TypeOf(typeName);
      var metric;
      if name !in tables[source.pending] {
        if tt.None? {
          metric := Metric(0.0, 0, "");
        } else {
          metric := Metric(if tt.value == STRING then 0.0 else sum, num, typeName);
        }
      } else {
        metric := tables[source.pending][name];
        if tt.None? {
          return;
        }
        if tt.value == INT || tt.value == UINT || tt.value == FLOAT {
          metric := metric.(val := metric.val + sum);
        }
        metric := metric.(num := metric.num + num);
      }
      tables := tables[source.summary := tables[source.summary][name := metric]];
    }

    /** The dispatch of start() and end() over the tags of a stream. */
    method Process(events: seq<Event>)
      modifies this
      ensures Abs() == Run(old(Abs()), events)
    {
      for i := 0 to |events|
        invariant Abs() == Run(old(Abs()), events[..i])
      {
        assert events[..i + 1][..i] == events[..i];
        match events[i] {
          case GangliaXml(isOld) => old_ := isOld;
          case GridStart(name, localtime) => StartGrid(name, localtime);
          case GridEnd => EndGrid();
          case ClusterStart(name, localtime) => StartCluster(name, localtime);
          case ClusterEnd => EndCluster();
          case HostStart(reported, tn, tmax) => StartHost(reported, tn, tmax);
          case Hosts(up, down) => StartHosts(up, down);
          case MetricTag(name, val, typeName, tn, dmax) => StartMetric(name, val, typeName, tn, dmax);
          case MetricsTag(name, sum, num, typeName) => StartMetrics(name, sum, num, typeName);
        }
      }
      assert events[..|events|] == events;
    }
  }

  // ---- A poll of one source: a tag that opens it, its body, a tag that publishes it ----

  predicate Opens(s: State, e: Event) {
    s.gridDepth == 0 && (e.ClusterStart? || (e.GridStart? && s.scalable))
  }

  predicate Publishes(s: State, e: Event) {
    (e.ClusterEnd? && s.gridDepth == 0) || (e.GridEnd? && s.scalable && s.gridDepth == 1)
  }

  /** Neither opens nor publishes a source, nor closes a grid that was not opened. */
  predicate IsInner(s: State, e: Event) {
    !Opens(s, e) && !Publishes(s, e) && !e.GangliaXml? && !(e.GridEnd? && s.scalable && s.gridDepth <= 0)
  }

  predicate IsBody(s: State, events: seq<Event>) {
    events == [] ||
    var front, e := events[..|events| - 1], events[|events| - 1];
    IsBody(s, front) && IsInner(Run(s, front), e)
  }

  /** Different sources share no table, and the open source is the one stored under its name. */
  predicate TablesApart(s: State) {
    (forall n <- s.root :: s.root[n].summary < |s.tables| && s.root[n].pending < |s.tables|
                           && s.root[n].summary != s.root[n].pending) &&
    (forall m, n | m in s.root && n in s.root && m != n ::
       s.root[m].summary != s.root[n].summary && s.root[m].summary != s.root[n].pending &&
       s.root[m].pending != s.root[n].pending)
  }

  predicate OpenApart(s: State) {
    SourceOpen(s) && s.source.summary != s.source.pending &&
    forall n <- s.root ::
      if n == s.sourcename then s.root[n].summary == s.source.summary && s.root[n].pending == s.source.pending
      else s.root[n].summary !in {s.source.summary, s.source.pending} &&
           s.root[n].pending !in {s.source.summary, s.source.pending}
  }

  function ValIn(t: Table, n: string): real {
    if n in t then t[n].val else 0.0
  }

  function NumIn(t: Table, n: string): nat {
    if n in t then t[n].num else 0
  }

  // ---- The reference: totals over the tags themselves ----

  datatype Context = Context(authority: bool, localtime: nat, old_: bool)

  /** Whether the host the tags behind `events` belong to is alive. */
  function AliveAfter(events: seq<Event>, alive: bool, c: Context): bool {
    if events == [] then alive
    else
      var e := events[|events| - 1];
      if e.HostStart? then IsAlive(e.reported, e.tn, e.tmax, c.localtime, c.old_)
      else AliveAfter(events[..|events| - 1], alive, c)
  }

  /** A METRIC tag that counts: numeric, of the wanted name, of an alive host and, where this gmetad
      is the authority, not older than its DMAX. */
  predicate Counts(e: Event, n: string, alive: bool, c: Context) {
    e.MetricTag? && e.name == n && alive && IsNumeric(e.typeName) && !(c.authority && Dropped(e.tn, e.dmax))
  }

  function Sum(events: seq<Event>, n: string, alive: bool, c: Context): real {
    if events == [] then 0.0
    else
      var front, e := events[..|events| - 1], events[|events| - 1];
      Sum(front, n, alive, c) + if Counts(e, n, AliveAfter(front, alive, c), c) then e.val else 0.0
  }

  function Count(events: seq<Event>, n: string, alive: bool, c: Context): nat {
    if events == [] then 0
    else
      var front, e := events[..|events| - 1], events[|events| - 1];
      Count(front, n, alive, c) + if Counts(e, n, AliveAfter(front, alive, c), c) then 1 else 0
  }

  /** The living hosts of a poll: HOST tags of living hosts plus what HOSTS tags announce as up. */
  function UpTotal(events: seq<Event>, scalable: bool, c: Context): nat {
    if events == [] then 0
    else UpTotal(events[..|events| - 1], scalable, c) + UpOf(events[|events| - 1], scalable, c)
  }

  function DownTotal(events: seq<Event>, scalable: bool, c: Context): nat {
    if events == [] then 0
    else DownTotal(events[..|events| - 1], scalable, c) + DownOf(events[|events| - 1], scalable, c)
  }

  function UpOf(e: Event, scalable: bool, c: Context): nat {
    if e.HostStart? && IsAlive(e.reported, e.tn, e.tmax, c.localtime, c.old_) then 1
    else if e.Hosts? && scalable then e.up else 0
  }

  function DownOf(e: Event, scalable: bool, c: Context): nat {
    if e.HostStart? && !IsAlive(e.reported, e.tn, e.tmax, c.localtime, c.old_) then 1
    else if e.Hosts? && scalable then e.down else 0
  }

  /** HOST tags plus what HOSTS tags announce. */
  function HostTotal(events: seq<Event>, scalable: bool): nat {
    if events == [] then 0
    else
      var e := events[|events| - 1];
      HostTotal(events[..|events| - 1], scalable)
        + if e.HostStart? then 1 else if e.Hosts? && scalable then e.up + e.down else 0
  }

  /** Every host is counted once, as up or as down. */
  lemma {:induction false} EveryHostCountsOnce(events: seq<Event>, scalable: bool, c: Context)
    ensures UpTotal(events, scalable, c) + DownTotal(events, scalable, c) == HostTotal(events, scalable)
  {
    if events != [] {
      EveryHostCountsOnce(events[..|events| - 1], scalable, c);
    }
  }

  function ContextOf(s: State): Context {
    Context(s.gridDepth == 0, s.source.localtime, s.old_)
  }

  predicate SamePublished(s: State, s': State) {
    s'.root == s.root && s'.scalable == s.scalable && |s'.tables| == |s.tables| &&
    s'.sourcename == s.sourcename && s'.old_ == s.old_ &&
    s'.source.(hostsUp := 0, hostsDown := 0) == s.source.(hostsUp := 0, hostsDown := 0) &&
    (forall i | 0 <= i < |s.tables| && i != s.source.pending && i != s.source.summary :: s'.tables[i] == s.tables[i])
  }

  ghost predicate BodyInv(s: State, s': State, events: seq<Event>)
    requires SourceOpen(s)
  {
    SamePublished(s, s') &&
    (if s.gridDepth == 0 then s'.gridDepth == 0 else s'.gridDepth > 0) &&
    s'.hostAlive == AliveAfter(events, s.hostAlive, ContextOf(s)) &&
    s'.source.hostsUp == s.source.hostsUp + UpTotal(events, s.scalable, ContextOf(s)) &&
    s'.source.hostsDown == s.source.hostsDown + DownTotal(events, s.scalable, ContextOf(s)) &&
    PendingHolds(s.tables[s.source.pending], s'.tables[s.source.pending], events, s.hostAlive, ContextOf(s)) &&
    (Spares(s.scalable, events) ==> s'.tables[s.source.summary] == s.tables[s.source.summary])
  }

  ghost predicate PendingHolds(t: Table, t': Table, events: seq<Event>, alive: bool, c: Context) {
    (forall n :: ValIn(t', n) == ValIn(t, n) + Sum(events, n, alive, c)) &&
    (forall n :: NumIn(t', n) == NumIn(t, n) + Count(events, n, alive, c))
  }

  /** No tag among these is one that writes a published table. */
  predicate Spares(scalable: bool, events: seq<Event>) {
    !scalable || forall e <- events :: !e.MetricsTag?
  }

  /** An inner tag changes at most one entry of the pending table and one of the current table. */
  lemma InnerTables(s: State, e: Event, n: string)
    requires SourceOpen(s) && s.source.summary != s.source.pending && IsInner(s, e)
    ensures var s' := Step(s, e); var c := ContextOf(s); var t, t' := s.tables[s.source.pending], s'.tables;
      |t'| == |s.tables| &&
      (forall i | 0 <= i < |t'| && i != s.source.pending && i != s.source.summary :: t'[i] == s.tables[i]) &&
      (!s.scalable || !e.MetricsTag? ==> t'[s.source.summary] == s.tables[s.source.summary]) &&
      ValIn(t'[s.source.pending], n) == ValIn(t, n) + (if Counts(e, n, s.hostAlive, c) then e.val else 0.0) &&
      NumIn(t'[s.source.pending], n) == NumIn(t, n) + (if Counts(e, n, s.hostAlive, c) then 1 else 0)
  {
    if e.MetricsTag? {
      assert Step(s, e).tables[s.source.pending] == s.tables[s.source.pending];
    }
  }

  /** What an inner tag does to everything but the tables. */
  lemma InnerFields(s: State, e: Event)
    requires SourceOpen(s) && IsInner(s, e)
    ensures var s' := Step(s, e);
      s'.root == s.root && s'.scalable == s.scalable && s'.sourcename == s.sourcename && s'.old_ == s.old_ &&
      s'.source.(hostsUp := 0, hostsDown := 0) == s.source.(hostsUp := 0, hostsDown := 0) &&
      (s.gridDepth == 0 ==> s'.gridDepth == 0) && (s.gridDepth > 0 ==> s'.gridDepth > 0) &&
      s'.hostAlive == (if e.HostStart? then IsAlive(e.reported, e.tn, e.tmax, s.source.localtime, s.old_)
                       else s.hostAlive) &&
      s'.source.hostsUp == s.source.hostsUp + UpOf(e, s.scalable, ContextOf(s)) &&
      s'.source.hostsDown == s.source.hostsDown + DownOf(e, s.scalable, ContextOf(s))
  {
  }

  lemma PublishedStep(s: State, s': State, e: Event)
    requires SourceOpen(s) && s.source.summary != s.source.pending && SamePublished(s, s') && IsInner(s', e)
    ensures SamePublished(s, Step(s', e))
  {
    assert s'.source == s.source.(hostsUp := s'.source.hostsUp, hostsDown := s'.source.hostsDown);
    InnerFields(s', e);
    InnerTables(s', e, "");
  }

  lemma BodyStep(s: State, s': State, events: seq<Event>, e: Event)
    requires SourceOpen(s) && s.source.summary != s.source.pending && s.gridDepth >= 0
    requires BodyInv(s, s', events) && IsInner(s', e)
    ensures BodyInv(s, Step(s', e), events + [e])
  {
    var all, c := events + [e], ContextOf(s);
    assert all[..|all| - 1] == events && all[|all| - 1] == e;
    assert Spares(s.scalable, all) ==> Spares(s.scalable, events) && (!s.scalable || !e.MetricsTag?) by {
      assert e in all && forall x <- events :: x in all;
    }
    assert s'.source == s.source.(hostsUp := s'.source.hostsUp, hostsDown := s'.source.hostsDown);
    assert ContextOf(s') == c;
    InnerFields(s', e);
    InnerTables(s', e, "");
    PublishedStep(s, s', e);
    var p := s.source.pending;
    var t := Step(s', e).tables[p];
    forall n
      ensures ValIn(t, n) == ValIn(s.tables[p], n) + Sum(all, n, s.hostAlive, c)
      ensures NumIn(t, n) == NumIn(s.tables[p], n) + Count(all, n, s.hostAlive, c)
    {
      InnerTables(s', e, n);
    }
  }

  lemma {:induction false} BodyKeeps(s: State, events: seq<Event>)
    requires OpenApart(s) && s.gridDepth >= 0 && IsBody(s, events)
    ensures BodyInv(s, Run(s, events), events)
  {
    if events == [] {
      BodyStart(s);
    } else {
      var front, e := events[..|events| - 1], events[|events| - 1];
      var s' := Run(s, front);
      BodyKeeps(s, front);
      BodyStep(s, s', front, e);
      assert front + [e] == events && Run(s, events) == Step(s', e);
    }
  }

  lemma BodyStart(s: State)
    requires OpenApart(s) && s.gridDepth >= 0
    ensures BodyInv(s, s, [])
  {
  }

  /** A source as it is when its opening tag has been read. */
  predicate FreshlyOpen(s: State, s': State) {
    OpenApart(s') && |s.tables| <= |s'.tables| && AllZero(s'.tables[s'.source.pending]) &&
    (forall i | 0 <= i < |s.tables| && i != s'.source.pending :: s'.tables[i] == s.tables[i])
  }

  lemma OpenKnown(s: State, name: string, localtime: nat)
    requires TablesApart(s) && name in s.root
    ensures FreshlyOpen(s, Open(s, name, localtime))
  {
  }

  lemma OpenNew(s: State, name: string, localtime: nat)
    requires TablesApart(s) && name !in s.root
    ensures FreshlyOpen(s, Open(s, name, localtime))
  {
  }

  lemma OpenStep(s: State, start: Event)
    requires TablesApart(s) && Opens(s, start)
    ensures var s' := Step(s, start);
      s' == Open(s, start.name, start.localtime).(gridDepth := s'.gridDepth) && s'.gridDepth >= 0 && FreshlyOpen(s, s')
  {
    if start.name in s.root {
      OpenKnown(s, start.name, start.localtime);
    } else {
      OpenNew(s, start.name, start.localtime);
    }
    var o, s' := Open(s, start.name, start.localtime), Step(s, start);
    assert s' == o.(gridDepth := s'.gridDepth);
    assert s'.root == o.root && s'.source == o.source && s'.tables == o.tables && s'.sourcename == o.sourcename;
  }

  predicate AllZero(t: Table) {
    forall n <- t :: t[n].val == 0.0 && t[n].num == 0
  }

  /** What a body leaves for one name, and for the hosts. */
  lemma BodyCounts(s: State, events: seq<Event>, n: string)
    requires OpenApart(s) && s.gridDepth >= 0 && IsBody(s, events) && AllZero(s.tables[s.source.pending])
    ensures var s', c := Run(s, events), ContextOf(s);
      |s'.tables| == |s.tables| &&
      ValIn(s'.tables[s.source.pending], n) == Sum(events, n, s.hostAlive, c) &&
      NumIn(s'.tables[s.source.pending], n) == Count(events, n, s.hostAlive, c) &&
      s'.source.hostsUp == s.source.hostsUp + UpTotal(events, s.scalable, c) &&
      s'.source.hostsDown == s.source.hostsDown + DownTotal(events, s.scalable, c)
  {
    BodyKeeps(s, events);
  }

  /** The closing tag publishes the table and the counts that the body has filled. */
  lemma PollPublishes(s: State, start: Event, body: seq<Event>, end: Event)
    requires TablesApart(s) && Opens(s, start)
    requires IsBody(Step(s, start), body) && Publishes(Run(Step(s, start), body), end)
    ensures var s1, s2 := Step(s, start), Run(Step(s, start), body); var s3 := Step(s2, end);
      OpenApart(s1) && s1.gridDepth >= 0 && s1.sourcename == start.name && s3.tables == s2.tables &&
      start.name in s3.root && s3.root[start.name].summary == s1.source.pending &&
      s3.root[start.name].hostsUp == s2.source.hostsUp && s3.root[start.name].hostsDown == s2.source.hostsDown
  {
    var s1 := Step(s, start);
    OpenStep(s, start);
    BodyKeeps(s1, body);
    OpenSourceStays(s1, Run(s1, body));
    PublishStep(Run(s1, body), end);
  }

  /** Conservation: after the closing tag of a poll, the published summary of every metric is the sum
      and the count of the METRIC tags of that poll that count, and the published host counts are the
      living and the dead hosts the poll reported. METRICS tags contribute nothing. */
  lemma PollConservation(s: State, start: Event, body: seq<Event>, end: Event, n: string)
    requires TablesApart(s) && Opens(s, start)
    requires IsBody(Step(s, start), body) && Publishes(Run(Step(s, start), body), end)
    ensures var s1 := Step(s, start); var s3 := Step(Run(s1, body), end);
      start.name in s3.root &&
      var src := s3.root[start.name];
      src.summary < |s3.tables| &&
      ValIn(s3.tables[src.summary], n) == Sum(body, n, s1.hostAlive, ContextOf(s1)) &&
      NumIn(s3.tables[src.summary], n) == Count(body, n, s1.hostAlive, ContextOf(s1)) &&
      src.hostsUp == UpTotal(body, s.scalable, ContextOf(s1)) &&
      src.hostsDown == DownTotal(body, s.scalable, ContextOf(s1)) &&
      src.hostsUp + src.hostsDown == HostTotal(body, s.scalable)
  {
    var s1 := Step(s, start);
    OpenStep(s, start);
    PollPublishes(s, start, body, end);
    BodyCounts(s1, body, n);
    EveryHostCountsOnce(body, s.scalable, ContextOf(s1));
  }

  lemma PublishApart(s: State)
    requires TablesApart(s) && OpenApart(s)
    ensures TablesApart(Publish(s))
  {
    var s' := Publish(s);
    forall m, n | m in s'.root && n in s'.root && m != n
      ensures s'.root[m].summary != s'.root[n].summary && s'.root[m].summary != s'.root[n].pending &&
              s'.root[m].pending != s'.root[n].pending
    {
      assert m != s.sourcename ==> m in s.root && s'.root[m] == s.root[m];
      assert n != s.sourcename ==> n in s.root && s'.root[n] == s.root[n];
    }
  }

  lemma BodyApart(s: State, start: Event, body: seq<Event>)
    requires TablesApart(s) && Opens(s, start) && IsBody(Step(s, start), body)
    ensures var s2 := Run(Step(s, start), body);
      TablesApart(s2) && OpenApart(s2) && s2.root == s.root && s2.sourcename == start.name &&
      forall m | m in s.root && (m != start.name || Spares(s.scalable, body)) ::
        s2.tables[s.root[m].summary] == s.tables[s.root[m].summary]
  {
    OpenStep(s, start);
    var s1 := Step(s, start);
    BodyKeeps(s1, body);
    var s2 := Run(s1, body);
    assert s2.root == s.root && |s2.tables| == |s1.tables|;
    OpenSourceStays(s1, s2);
    forall m | m in s.root && (m != start.name || Spares(s.scalable, body))
      ensures s2.tables[s.root[m].summary] == s.tables[s.root[m].summary]
    {
      assert s1.tables[s.root[m].summary] == s.tables[s.root[m].summary];
    }
  }

  /** What a poll leaves alone: every other source with its published table, and the invariant that
      makes the next poll correct. */
  lemma PollKeepsOthers(s: State, start: Event, body: seq<Event>, end: Event)
    requires TablesApart(s) && Opens(s, start)
    requires IsBody(Step(s, start), body) && Publishes(Run(Step(s, start), body), end)
    ensures var s3 := Step(Run(Step(s, start), body), end);
      TablesApart(s3) && s3.root.Keys == s.root.Keys + {start.name} &&
      forall m | m in s.root && m != start.name ::
        s3.root[m] == s.root[m] && s3.tables[s.root[m].summary] == s.tables[s.root[m].summary]
  {
    BodyApart(s, start, body);
    var s2 := Run(Step(s, start), body);
    PublishApart(s2);
    PublishStep(s2, end);
  }

  lemma PublishStep(s: State, end: Event)
    requires Publishes(s, end)
    ensures var s' := Step(s, end);
      s'.root == Publish(s).root && s'.tables == s.tables && (TablesApart(Publish(s)) ==> TablesApart(s'))
  {
    assert Step(s, end) == Publish(s).(gridDepth := Step(s, end).gridDepth);
  }

  // ---- What METRICS tags do to the published table ----

  /** Until the swap, readers of the root see what the last poll published: at every point of a poll all
      stored sources are the same as before it, and so are their published tables, unless this gmetad is
      scalable, the poll has METRICS tags, and the table is the polled source's own. */
  lemma PublishedUntouched(s: State, start: Event, body: seq<Event>, m: string)
    requires TablesApart(s) && Opens(s, start) && IsBody(Step(s, start), body) && m in s.root
    requires m != start.name || Spares(s.scalable, body)
    ensures var s2 := Run(Step(s, start), body);
      s2.root == s.root && s.root[m].summary < |s2.tables| &&
      s2.tables[s.root[m].summary] == s.tables[s.root[m].summary]
  {
    BodyApart(s, start, body);
  }

  /** What tag e, read in state s, writes under the name n into the published table of the open source. */
  function Write(s: State, e: Event, n: string): Option<Metric> {
    if s.scalable && e.MetricsTag? && e.name == n && SourceOpen(s) then MetricsEntry(s.tables[s.source.pending], e)
    else None
  }

  /** One inner tag changes the published table of the open source by its write and not otherwise. */
  lemma InnerPublished(s: State, e: Event, n: string)
    requires SourceOpen(s) && s.source.summary != s.source.pending && IsInner(s, e)
    ensures var t, t' := s.tables[s.source.summary], Step(s, e).tables[s.source.summary]; var w := Write(s, e, n);
      (n in t' <==> n in t || w.Some?) && (n in t' ==> t'[n] == if w.Some? then w.value else t[n])
  {
  }

  /** The last write under the name n among the tags of a body. */
  function LastWrite(s: State, events: seq<Event>, n: string): Option<Metric> {
    if events == [] then None
    else
      var front := events[..|events| - 1];
      var w := Write(Run(s, front), events[|events| - 1], n);
      if w.Some? then w else LastWrite(s, front, n)
  }

  lemma {:induction false} PublishedAfterBody(s: State, events: seq<Event>, n: string)
    requires OpenApart(s) && s.gridDepth >= 0 && IsBody(s, events)
    ensures |Run(s, events).tables| == |s.tables|
    ensures var t, t' := s.tables[s.source.summary], Run(s, events).tables[s.source.summary];
      var w := LastWrite(s, events, n);
      (n in t' <==> n in t || w.Some?) && (n in t' ==> t'[n] == if w.Some? then w.value else t[n])
  {
    BodyKeeps(s, events);
    if events != [] {
      var front, e := events[..|events| - 1], events[|events| - 1];
      PublishedAfterBody(s, front, n);
      BodyKeeps(s, front);
      OpenSourceStays(s, Run(s, front));
      InnerPublished(Run(s, front), e, n);
    }
  }

  lemma OpenSourceStays(s: State, s': State)
    requires SourceOpen(s) && s.source.summary != s.source.pending && SamePublished(s, s')
    ensures SourceOpen(s') && s'.source.summary == s.source.summary && s'.source.pending == s.source.pending
  {
    assert s'.source.summary == s'.source.(hostsUp := 0, hostsDown := 0).summary;
    assert s'.source.pending == s'.source.(hostsUp := 0, hostsDown := 0).pending;
  }

  /** The type a name has in the pending table: from before, or from the first METRIC tag that counts. */
  function TypeIn(t: Table, events: seq<Event>, n: string, alive: bool, c: Context): string {
    if n in t then t[n].typeName
    else if events == [] then ""
    else
      var front, e := events[..|events| - 1], events[|events| - 1];
      if Count(front, n, alive, c) == 0 && Counts(e, n, AliveAfter(front, alive, c), c) then e.typeName
      else TypeIn(t, front, n, alive, c)
  }

  /** The pending table knows a name from before, or from a METRIC tag that counts. */
  lemma {:induction false} PendingNames(s: State, events: seq<Event>, n: string)
    requires OpenApart(s) && s.gridDepth >= 0 && IsBody(s, events)
    ensures |Run(s, events).tables| == |s.tables|
    ensures var t, t', c := s.tables[s.source.pending], Run(s, events).tables[s.source.pending], ContextOf(s);
      (n in t' <==> n in t || Count(events, n, s.hostAlive, c) > 0) &&
      (n in t' ==> t'[n].typeName == TypeIn(t, events, n, s.hostAlive, c))
  {
    BodyKeeps(s, events);
    if events != [] {
      var front, e := events[..|events| - 1], events[|events| - 1];
      PendingNames(s, front, n);
      BodyKeeps(s, front);
      OpenSourceStays(s, Run(s, front));
      InnerPendingNames(Run(s, front), e, n);
      assert ContextOf(Run(s, front)) == ContextOf(s);
    }
  }

  lemma InnerPendingNames(s: State, e: Event, n: string)
    requires SourceOpen(s) && s.source.summary != s.source.pending && IsInner(s, e)
    ensures var t, t' := s.tables[s.source.pending], Step(s, e).tables[s.source.pending];
      (n in t' <==> n in t || Counts(e, n, s.hostAlive, ContextOf(s))) &&
      (n in t' ==> t'[n].typeName == if n in t then t[n].typeName else e.typeName)
  {
  }

  /** The poll knows the name before tag number i. */
  predicate KnownAt(s: State, events: seq<Event>, n: string, i: nat)
    requires i < |events| && SourceOpen(s)
  {
    n in s.tables[s.source.pending] || Count(events[..i], n, s.hostAlive, ContextOf(s)) > 0
  }

  /** Tag number i is a METRICS tag of that name whose type is known, or whose name is new to the poll. */
  predicate WritesAt(s: State, events: seq<Event>, n: string, i: nat)
    requires i < |events| && SourceOpen(s)
  {
    s.scalable && events[i].MetricsTag? && events[i].name == n &&
    (TypeOf(events[i].typeName).Some? || !KnownAt(s, events, n, i))
  }

  /** What tag number i writes. To a name that the poll knows it writes the METRIC tags so far and its own sum and
      count, for a timestamp or a string only its count; for a new name it writes its own sum, count and type, for
      a string no sum, and for an unknown type nothing but an empty entry. */
  function EntryAt(s: State, events: seq<Event>, n: string, i: nat): Metric
    requires i < |events| && SourceOpen(s) && events[i].MetricsTag?
  {
    var t, front, e, c := s.tables[s.source.pending], events[..i], events[i], ContextOf(s);
    if KnownAt(s, events, n, i) then
      Metric(ValIn(t, n) + Sum(front, n, s.hostAlive, c) + (if IsNumeric(e.typeName) then e.sum else 0.0),
             NumIn(t, n) + Count(front, n, s.hostAlive, c) + e.num,
             TypeIn(t, front, n, s.hostAlive, c))
    else if TypeOf(e.typeName).None? then Metric(0.0, 0, "")
    else Metric(if e.typeName == "string" then 0.0 else e.sum, e.num, e.typeName)
  }

  /** m is what tag number i, the last one to write n, writes: METRICS tags of one name do not add up. */
  predicate IsLastWrite(s: State, events: seq<Event>, n: string, i: nat, m: Metric)
    requires i < |events| && SourceOpen(s)
  {
    WritesAt(s, events, n, i) && (forall j | i < j < |events| :: !WritesAt(s, events, n, j)) &&
    m == EntryAt(s, events, n, i)
  }

  lemma WriteAtEnd(s: State, events: seq<Event>, n: string)
    requires OpenApart(s) && s.gridDepth >= 0 && IsBody(s, events) && events != []
    ensures var i: nat := |events| - 1; var w := Write(Run(s, events[..i]), events[i], n);
      (w.Some? <==> WritesAt(s, events, n, i)) && (w.Some? ==> IsLastWrite(s, events, n, i, w.value))
  {
    var front := events[..|events| - 1];
    BodyKeeps(s, front);
    OpenSourceStays(s, Run(s, front));
    PendingNames(s, front, n);
  }

  lemma WritesAtFront(s: State, events: seq<Event>, n: string, j: nat)
    requires SourceOpen(s) && j < |events| - 1
    ensures WritesAt(s, events[..|events| - 1], n, j) == WritesAt(s, events, n, j)
  {
    assert events[..|events| - 1][..j] == events[..j];
  }

  /** A name is written exactly if some tag of the body writes it, and then with what the last one writes. */
  lemma {:induction false} LastWriteExact(s: State, events: seq<Event>, n: string)
    requires OpenApart(s) && s.gridDepth >= 0 && IsBody(s, events)
    ensures LastWrite(s, events, n).Some? <==> exists i | 0 <= i < |events| :: WritesAt(s, events, n, i)
    ensures LastWrite(s, events, n).Some? ==>
              exists i | 0 <= i < |events| :: IsLastWrite(s, events, n, i, LastWrite(s, events, n).value)
  {
    if events != [] {
      var front, last: nat := events[..|events| - 1], |events| - 1;
      var w := LastWrite(s, events, n);
      WriteAtEnd(s, events, n);
      LastWriteExact(s, front, n);
      if WritesAt(s, events, n, last) {
        assert IsLastWrite(s, events, n, last, w.value);
      } else {
        NoWriteAtEnd(s, events, n);
        if w.Some? {
          var i :| 0 <= i < |front| && IsLastWrite(s, front, n, i, w.value);
          LastWriteStands(s, events, n, i, w.value);
        }
      }
    }
  }

  lemma NoWriteAtEnd(s: State, events: seq<Event>, n: string)
    requires SourceOpen(s) && events != [] && !WritesAt(s, events, n, |events| - 1)
    ensures var front := events[..|events| - 1];
      (exists i | 0 <= i < |front| :: WritesAt(s, front, n, i)) <==>
      (exists i | 0 <= i < |events| :: WritesAt(s, events, n, i))
  {
    var front := events[..|events| - 1];
    if i :| 0 <= i < |front| && WritesAt(s, front, n, i) {
      WritesAtFront(s, events, n, i);
    }
    if i :| 0 <= i < |events| && WritesAt(s, events, n, i) {
      WritesAtFront(s, events, n, i);
    }
  }

  lemma LastWriteStands(s: State, events: seq<Event>, n: string, i: nat, m: Metric)
    requires SourceOpen(s) && i < |events| - 1 && !WritesAt(s, events, n, |events| - 1)
    requires IsLastWrite(s, events[..|events| - 1], n, i, m)
    ensures IsLastWrite(s, events, n, i, m)
  {
    var front := events[..|events| - 1];
    assert front[..i] == events[..i];
    forall j | i < j < |events|
      ensures !WritesAt(s, events, n, j)
    {
      if j < |front| {
        WritesAtFront(s, events, n, j);
      }
    }
  }

  /** At every point of a poll, exactly how the published table of the polled source differs from what the
      last poll published: the names that METRICS tags have written, and nothing else. */
  lemma PublishedChangesExactly(s: State, start: Event, body: seq<Event>, n: string)
    requires TablesApart(s) && Opens(s, start) && IsBody(Step(s, start), body) && start.name in s.root
    ensures var s1, s2 := Step(s, start), Run(Step(s, start), body); var p := s.root[start.name].summary;
      SourceOpen(s1) && p < |s2.tables| &&
      var t, t' := s.tables[p], s2.tables[p];
      (n in t' <==> n in t || exists i | 0 <= i < |body| :: WritesAt(s1, body, n, i)) &&
      (n in t' ==>
        (exists i | 0 <= i < |body| :: IsLastWrite(s1, body, n, i, t'[n])) ||
        (n in t && t'[n] == t[n] && forall i | 0 <= i < |body| :: !WritesAt(s1, body, n, i)))
  {
    OpenStep(s, start);
    var s1 := Step(s, start);
    PublishedAfterBody(s1, body, n);
    LastWriteExact(s1, body, n);
  }

  /** t' is t with the writes w. */
  ghost predicate IsWritten(t: Table, t': Table, w: string -> Option<Metric>) {
    forall n :: (n in t' <==> n in t || w(n).Some?) && (n in t' ==> t'[n] == (if w(n).Some? then w(n).value else t[n]))
  }

  lemma WrittenStands(t: Table, t': Table, w: string -> Option<Metric>)
    requires IsWritten(t, t', w)
    ensures t' == t <==> forall n :: w(n).Some? ==> n in t && t[n] == w(n).value
  {
    if forall n :: w(n).Some? ==> n in t && t[n] == w(n).value {
      assert forall n :: n in t' <==> n in t;
      assert t'.Keys == t.Keys;
    }
  }

  lemma LastWriteIsUnique(s: State, events: seq<Event>, n: string, i: nat, m: Metric)
    requires OpenApart(s) && s.gridDepth >= 0 && IsBody(s, events)
    requires i < |events| && IsLastWrite(s, events, n, i, m)
    ensures LastWrite(s, events, n) == Some(m)
  {
    LastWriteExact(s, events, n);
    var j :| 0 <= j < |events| && IsLastWrite(s, events, n, j, LastWrite(s, events, n).value);
  }

  /** So the table as a whole stands exactly if the last tag to write a name always writes what it held. */
  lemma PublishedStandsExactly(s: State, start: Event, body: seq<Event>)
    requires TablesApart(s) && Opens(s, start) && IsBody(Step(s, start), body) && start.name in s.root
    ensures var s1, s2 := Step(s, start), Run(Step(s, start), body); var p := s.root[start.name].summary;
      SourceOpen(s1) && p < |s2.tables| &&
      (s2.tables[p] == s.tables[p] <==>
        forall n, i, m | 0 <= i < |body| && IsLastWrite(s1, body, n, i, m) :: n in s.tables[p] && s.tables[p][n] == m)
  {
    OpenStep(s, start);
    var s1 := Step(s, start);
    var p, t' := s.root[start.name].summary, Run(s1, body).tables;
    PublishedAfterBody(s1, body, "");
    var w := (n: string) => LastWrite(s1, body, n);
    forall n
      ensures (n in t'[p] <==> n in s.tables[p] || w(n).Some?) &&
              (n in t'[p] ==> t'[p][n] == (if w(n).Some? then w(n).value else s.tables[p][n]))
    {
      PublishedAfterBody(s1, body, n);
    }
    WrittenStands(s.tables[p], t'[p], w);
    forall n, i, m | 0 <= i < |body| && IsLastWrite(s1, body, n, i, m)
      ensures w(n) == Some(m)
    {
      LastWriteIsUnique(s1, body, n, i, m);
    }
    forall n | w(n).Some?
      ensures exists i | 0 <= i < |body| :: IsLastWrite(s1, body, n, i, w(n).value)
    {
      LastWriteExact(s1, body, n);
    }
  }

  /** The body without its METRICS tags. */
  function WithoutMetrics(events: seq<Event>): seq<Event> {
    if events == [] then []
    else
      var e := events[|events| - 1];
      WithoutMetrics(events[..|events| - 1]) + if e.MetricsTag? then [] else [e]
  }

  /** The states differ at most in the published table of the open source. */
  predicate SameButPublished(s: State, s': State) {
    SourceOpen(s) && s' == s.(tables := s'.tables) && |s'.tables| == |s.tables| &&
    forall i | 0 <= i < |s.tables| && i != s.source.summary :: s'.tables[i] == s.tables[i]
  }

  lemma StepKeepsSame(s: State, s': State, e: Event)
    requires SameButPublished(s, s') && s.source.summary != s.source.pending && IsInner(s, e)
    ensures IsInner(s', e) && SameButPublished(Step(s, e), if e.MetricsTag? then s' else Step(s', e))
  {
  }

  lemma {:induction false} BodyWithoutMetrics(s: State, events: seq<Event>)
    requires OpenApart(s) && s.gridDepth >= 0 && IsBody(s, events)
    ensures IsBody(s, WithoutMetrics(events)) && SameButPublished(Run(s, events), Run(s, WithoutMetrics(events)))
  {
    if events != [] {
      var front, e := events[..|events| - 1], events[|events| - 1];
      var kept := WithoutMetrics(front);
      BodyWithoutMetrics(s, front);
      BodyKeeps(s, front);
      OpenSourceStays(s, Run(s, front));
      StepKeepsSame(Run(s, front), Run(s, kept), e);
      if e.MetricsTag? {
        assert kept + [] == kept;
      } else {
        assert (kept + [e])[..|kept|] == kept;
      }
    }
  }

  /** Every METRICS tag is lost with the swap: what a poll publishes is what it would have published without
      them. */
  lemma MetricsTagsAreLost(s: State, start: Event, body: seq<Event>, end: Event)
    requires TablesApart(s) && Opens(s, start)
    requires IsBody(Step(s, start), body) && Publishes(Run(Step(s, start), body), end)
    ensures var s1, kept := Step(s, start), WithoutMetrics(body);
      IsBody(s1, kept) && Publishes(Run(s1, kept), end) &&
      var s3, s3' := Step(Run(s1, body), end), Step(Run(s1, kept), end);
      s3'.root == s3.root && start.name in s3.root &&
      var p := s3.root[start.name].summary;
      p < |s3.tables| == |s3'.tables| && s3'.tables[p] == s3.tables[p]
  {
    OpenStep(s, start);
    var s1 := Step(s, start);
    BodyWithoutMetrics(s1, body);
    BodyKeeps(s1, body);
    OpenSourceStays(s1, Run(s1, body));
    PublishStep(Run(s1, body), end);
    PublishStep(Run(s1, WithoutMetrics(body)), end);
  }

  /** For instance: after a poll with one METRICS tag the published table does not have its metric, which
      readers could see while the poll was running. */
  lemma MetricsTagIsLost()
    ensures
      var s := State(true, [map[], map[]], map["g" := Source(0, 1, 0, 0, 0)], "", Source(0, 0, 0, 0, 0), 0, false,
                     false);
      var s1 := Step(s, GridStart("g", 0));
      var s2 := Run(s1, [MetricsTag("load", 2.0, 3, "float")]);
      var s3 := Step(s2, GridEnd);
      TablesApart(s) && s2.root == map["g" := Source(0, 1, 0, 0, 0)] && s3.root == map["g" := Source(1, 0, 0, 0, 0)] &&
      s2.tables == s3.tables == [map["load" := Metric(2.0, 3, "float")], map[]]
  {
    var src := Source(0, 1, 0, 0, 0);
    var s := State(true, [map[], map[]], map["g" := src], "", Source(0, 0, 0, 0, 0), 0, false, false);
    var s1 := Step(s, GridStart("g", 0));
    assert s1 == State(true, [map[], map[]], map["g" := src], "g", src, 1, false, false);
    var e := MetricsTag("load", 2.0, 3, "float");
    assert Run(s1, [e]) == Step(s1, e) by { assert [e][..0] == []; }
    assert MetricsEntry(map[], e) == Some(Metric(2.0, 3, "float"));
    assert Step(s1, e) == s1.(tables := [map["load" := Metric(2.0, 3, "float")], map[]]);
  }

  // ---- Only numeric metrics are summarised ----

  /** Every entry of this name is numeric. */
  predicate NumericAt(s: State, n: string) {
    forall i | 0 <= i < |s.tables| :: n in s.tables[i] ==> IsNumeric(s.tables[i][n].typeName)
  }

  /** The METRICS tags of this name are numeric. */
  predicate BringsNumeric(events: seq<Event>, n: string) {
    forall e <- events :: e.MetricsTag? && e.name == n ==> IsNumeric(e.typeName)
  }

  lemma StepKeepsNumeric(s: State, e: Event, n: string)
    requires NumericAt(s, n) && BringsNumeric([e], n)
    ensures NumericAt(Step(s, e), n)
  {
    assert e in [e];
  }

  /** A name has only numeric entries in the summary tables, as long as METRICS tags of the name are numeric. */
  lemma {:induction false} RunKeepsNumeric(s: State, events: seq<Event>, n: string)
    requires NumericAt(s, n) && BringsNumeric(events, n)
    ensures NumericAt(Run(s, events), n)
  {
    if events != [] {
      RunKeepsNumeric(s, events[..|events| - 1], n);
      StepKeepsNumeric(Run(s, events[..|events| - 1]), events[|events| - 1], n);
    }
  }
}
