/** What one poll publishes, said on the attributes of its tags alone: plain inequalities and positions in
    the stream, without the machine of SummaryPoll. */
module PollTotals {
  import opened SummaryPoll

  /** How the tags of a poll are read: the clock of the source, whether the stream is from before 2.5, whether
      this gmetad is the authority on the source, and whether HOSTS tags count. */
  datatype Reading = Reading(localtime: nat, old_: bool, authority: bool, scalable: bool)

  predicate InRange(body: seq<Event>, r: Reading) {
    forall e <- body :: e.HostStart? ==> HostInRange(e.reported, e.tn, e.tmax, r.localtime)
  }

  predicate LivingHost(e: Event, r: Reading) {
    e.HostStart? &&
    if r.old_ || e.tmax == 0 then -60 < r.localtime - e.reported < 60 else e.tn < 4 * e.tmax
  }

  /** The host that tag number i belongs to is alive: the last one opened, or the one from before. */
  predicate InLivingHost(body: seq<Event>, i: nat, before: bool, r: Reading)
    requires i <= |body|
  {
    if i == 0 then before
    else if body[i - 1].HostStart? then LivingHost(body[i - 1], r)
    else InLivingHost(body, i - 1, before, r)
  }

  /** Tag number i brings a number for the metric n: one of a living host, not past its DMAX where this
      gmetad is the authority. */
  predicate BringsNumber(body: seq<Event>, i: nat, n: string, before: bool, r: Reading)
    requires i < |body|
  {
    var e := body[i];
    e.MetricTag? && e.name == n &&
    e.typeName in {"int8", "int16", "int32", "uint8", "uint16", "uint32", "float", "double"} &&
    InLivingHost(body, i, before, r) && (r.authority && e.dmax > 0 ==> e.tn <= e.dmax)
  }

  function TotalVal(body: seq<Event>, k: nat, n: string, before: bool, r: Reading): real
    requires k <= |body|
  {
    if k == 0 then 0.0
    else TotalVal(body, k - 1, n, before, r) + if BringsNumber(body, k - 1, n, before, r) then body[k - 1].val else 0.0
  }

  function TotalNum(body: seq<Event>, k: nat, n: string, before: bool, r: Reading): nat
    requires k <= |body|
  {
    if k == 0 then 0
    else TotalNum(body, k - 1, n, before, r) + if BringsNumber(body, k - 1, n, before, r) then 1 else 0
  }

  function TotalUp(body: seq<Event>, k: nat, r: Reading): nat
    requires k <= |body|
  {
    if k == 0 then 0
    else
      var e := body[k - 1];
      TotalUp(body, k - 1, r) + if LivingHost(e, r) then 1 else if e.Hosts? && r.scalable then e.up else 0
  }

  function TotalDown(body: seq<Event>, k: nat, r: Reading): nat
    requires k <= |body|
  {
    if k == 0 then 0
    else
      var e := body[k - 1];
      TotalDown(body, k - 1, r) +
      if e.HostStart? && !LivingHost(e, r) then 1 else if e.Hosts? && r.scalable then e.down else 0
  }

  /** The reading that a context of the machine stands for. */
  function ContextOfReading(r: Reading): Context {
    Context(r.authority, r.localtime, r.old_)
  }

  lemma LivingExact(e: Event, r: Reading)
    requires e.HostStart? && HostInRange(e.reported, e.tn, e.tmax, r.localtime)
    ensures IsAlive(e.reported, e.tn, e.tmax, r.localtime, r.old_) == LivingHost(e, r)
  {
    IsAliveExact(e.reported, e.tn, e.tmax, r.localtime, r.old_);
  }

  lemma {:induction false} AliveAgrees(body: seq<Event>, i: nat, before: bool, r: Reading)
    requires InRange(body, r) && i <= |body|
    ensures AliveAfter(body[..i], before, ContextOfReading(r)) == InLivingHost(body, i, before, r)
  {
    if i > 0 {
      AliveAgrees(body, i - 1, before, r);
      assert body[..i][..i - 1] == body[..i - 1] && body[..i][i - 1] == body[i - 1];
      if body[i - 1].HostStart? {
        LivingExact(body[i - 1], r);
      }
    }
  }

  lemma {:induction false} MetricsAgree(body: seq<Event>, k: nat, n: string, before: bool, r: Reading)
    requires InRange(body, r) && k <= |body|
    ensures Sum(body[..k], n, before, ContextOfReading(r)) == TotalVal(body, k, n, before, r)
    ensures Count(body[..k], n, before, ContextOfReading(r)) == TotalNum(body, k, n, before, r)
  {
    if k > 0 {
      MetricsAgree(body, k - 1, n, before, r);
      AliveAgrees(body, k - 1, before, r);
      assert body[..k][..k - 1] == body[..k - 1] && body[..k][k - 1] == body[k - 1];
    }
  }

  lemma {:induction false} HostsAgree(body: seq<Event>, k: nat, r: Reading)
    requires InRange(body, r) && k <= |body|
    ensures UpTotal(body[..k], r.scalable, ContextOfReading(r)) == TotalUp(body, k, r)
    ensures DownTotal(body[..k], r.scalable, ContextOfReading(r)) == TotalDown(body, k, r)
  {
    if k > 0 {
      HostsAgree(body, k - 1, r);
      assert body[..k][..k - 1] == body[..k - 1] && body[..k][k - 1] == body[k - 1];
      if body[k - 1].HostStart? {
        LivingExact(body[k - 1], r);
      }
    }
  }

  /** A whole poll: under the name of the opening tag, the published entry of every metric, the host counts and
      the clock are what the attributes of the tags between say. */
  lemma PublishedOnNumbers(s: State, start: Event, body: seq<Event>, end: Event, n: string, r: Reading)
    requires TablesApart(s) && Opens(s, start)
    requires IsBody(Step(s, start), body) && Publishes(Run(Step(s, start), body), end)
    requires r == Reading(start.localtime, s.old_, start.ClusterStart?, s.scalable) && InRange(body, r)
    ensures var s3 := Step(Run(Step(s, start), body), end);
      start.name in s3.root &&
      var src := s3.root[start.name];
      src.summary < |s3.tables| && src.localtime == start.localtime &&
      ValIn(s3.tables[src.summary], n) == TotalVal(body, |body|, n, s.hostAlive, r) &&
      NumIn(s3.tables[src.summary], n) == TotalNum(body, |body|, n, s.hostAlive, r) &&
      src.hostsUp == TotalUp(body, |body|, r) && src.hostsDown == TotalDown(body, |body|, r)
  {
    PollConservation(s, start, body, end, n);
    MetricsAgree(body, |body|, n, s.hostAlive, r);
    HostsAgree(body, |body|, r);
    assert body[..|body|] == body;
    Opened(s, start);
    ClockStays(s, start, body, end);
  }

  lemma Opened(s: State, start: Event)
    requires Opens(s, start)
    ensures var s1 := Step(s, start);
      ContextOf(s1) == Context(start.ClusterStart?, start.localtime, s.old_) && s1.hostAlive == s.hostAlive
  {
  }

  lemma ClockStays(s: State, start: Event, body: seq<Event>, end: Event)
    requires TablesApart(s) && Opens(s, start)
    requires IsBody(Step(s, start), body) && Publishes(Run(Step(s, start), body), end)
    ensures var s3 := Step(Run(Step(s, start), body), end);
      start.name in s3.root && s3.root[start.name].localtime == start.localtime
  {
    OpenStep(s, start);
    BodyKeeps(Step(s, start), body);
    var s2 := Run(Step(s, start), body);
    assert s2.source.localtime == s2.source.(hostsUp := 0, hostsDown := 0).localtime;
    PublishStep(s2, end);
  }
}
