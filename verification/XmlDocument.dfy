/** The documents that gmetad answers with, written down level by level, independent of the walk of
    gmetad/server.c that produces them. */
module XmlDocument {
  import opened Base
  import opened XmlReport

  // ---- The documents ----

  function Kids(n: Node): seq<Node> {
    if n.children.Table? then n.children.nodes else []
  }

  function EachExtra(names: seq<string>): seq<Token> {
    if names == [] then [] else [Empty(EXTRA_ELEMENT, names[0])] + EachExtra(names[1..])
  }

  /** An element that holds nothing but extra data. */
  function Record(tag: Tag, name: string, extra: seq<string>): seq<Token> {
    [Open(tag, name), Open(EXTRA_DATA, "")] + EachExtra(extra) + [Close(EXTRA_DATA), Close(tag)]
  }

  /** A metric is shown as long as it is not older than its DMAX, if it has one. */
  function MetricDoc(m: Node, now: int): seq<Token> {
    if m.dmax > 0 && now - m.t0 > m.dmax then [] else Record(METRIC, m.name, m.extra)
  }

  function MetricDocs(ms: seq<Node>, now: int): seq<Token> {
    if ms == [] then [] else MetricDoc(ms[0], now) + MetricDocs(ms[1..], now)
  }

  function Inside(tag: Tag, name: string, inside: seq<Token>): seq<Token> {
    [Open(tag, name)] + inside + [Close(tag)]
  }

  function HostDoc(h: Node, now: int): seq<Token> {
    Inside(HOST, h.name, MetricDocs(Kids(h), now))
  }

  function HostDocs(hosts: seq<Node>, now: int): seq<Token> {
    if hosts == [] then [] else HostDoc(hosts[0], now) + HostDocs(hosts[1..], now)
  }

  /** The summary of the metrics of the ten known types. */
  function EachSummary(ms: seq<Summary>): seq<Token> {
    if ms == [] then []
    else
      (if ms[0].typeName in {"int8", "int16", "int32", "uint8", "uint16", "uint32", "float", "double", "timestamp",
                             "string"}
       then Record(METRICS, ms[0].name, ms[0].extra) else []) + EachSummary(ms[1..])
  }

  function SummaryDoc(n: Node): seq<Token> {
    [Empty(HOSTS, "")] + EachSummary(n.summary)
  }

  /** What stands between the tags of a node: a grid is always summarised, and under the filter everything
      that can be; otherwise there is everything below the node. */
  function Content(n: Node, filter: Filter, now: int): seq<Token> {
    match n.kind
    case GridNode => SummaryDoc(n)
    case ClusterNode =>
      if filter.SummaryFilter? then SummaryDoc(n) else HostDocs(Kids(n), now)
    case HostNode => if filter.SummaryFilter? then [] else MetricDocs(Kids(n), now)
    case MetricNode => []
    case RootNode => (if filter.SummaryFilter? then SummaryDoc(n) else []) + SourceDocs(Kids(n), filter, now)
  }

  /** A source, with its tags. */
  function SourceDoc(s: Node, filter: Filter, now: int): seq<Token> {
    if s.kind.GridNode? then Inside(GRID, s.name, SummaryDoc(s))
    else if filter.SummaryFilter? then Inside(CLUSTER, s.name, SummaryDoc(s))
    else Inside(CLUSTER, s.name, HostDocs(Kids(s), now))
  }

  function SourceDocs(sources: seq<Node>, filter: Filter, now: int): seq<Token> {
    if sources == [] then [] else SourceDoc(sources[0], filter, now) + SourceDocs(sources[1..], filter, now)
  }

  /** A node below the root, with its own tags around what is to stand inside them. */
  function Framed(n: Node, inside: seq<Token>, now: int): seq<Token> {
    match n.kind
    case GridNode => Inside(GRID, n.name, inside)
    case ClusterNode => Inside(CLUSTER, n.name, inside)
    case HostNode => Inside(HOST, n.name, inside)
    case _ => MetricDoc(n, now)
  }

  /** The last node of a chain with all its content, inside the tags of those in front of it. */
  function Along(n: Node, chain: seq<Node>, filter: Filter, now: int): seq<Token>
    decreases |chain|
  {
    if chain == [] then Content(n, filter, now)
    else Framed(chain[0], Along(chain[0], chain[1..], filter, now), now)
  }

  /** A whole document. */
  function Document(grid: string, inside: seq<Token>): seq<Token> {
    Inside(GANGLIA_XML, "gmetad", Inside(GRID, grid, inside))
  }

  // ---- The walk writes them ----

  lemma {:induction false} ExtrasAgree(names: seq<string>)
    ensures ExtraElements(names) == EachExtra(names)
  {
    if names != [] {
      ExtrasAgree(names[1..]);
    }
  }

  lemma RecordAgrees(tag: Tag, name: string, extra: seq<string>)
    ensures WithExtra(tag, name, extra) == Record(tag, name, extra)
  {
    ExtrasAgree(extra);
  }

  lemma {:induction false} SummariesAgree(ms: seq<Summary>)
    ensures MetricSummaries(ms) == EachSummary(ms)
  {
    if ms != [] {
      SummariesAgree(ms[1..]);
      RecordAgrees(METRICS, ms[0].name, ms[0].extra);
      SummaryPoll.TypeNames(ms[0].typeName);
    }
  }

  lemma SummaryAgrees(n: Node)
    ensures SourceSummary(n) == SummaryDoc(n)
  {
    SummariesAgree(n.summary);
  }

  lemma MetricAgrees(c: Client, m: Node)
    requires m.kind.MetricNode? && m.children.NoTable?
    ensures TreeReport(c, m) == if c.filter.NoFilter? then (MetricDoc(m, c.now), false) else ([], true)
  {
    RecordAgrees(METRIC, m.name, m.extra);
    assert Subtree(c, m) == [] && ReportStart(c, m) + [] + [] == ReportStart(c, m);
  }

  lemma {:induction false} MetricsAgree(c: Client, ms: seq<Node>)
    requires forall m <- ms :: m.kind.MetricNode? && m.children.NoTable?
    ensures ReportAll(c, ms) == if c.filter.NoFilter? then MetricDocs(ms, c.now) else []
  {
    if ms != [] {
      assert ms[0] in ms && forall m <- ms[1..] :: m in ms;
      MetricsAgree(c, ms[1..]);
      MetricAgrees(c, ms[0]);
    }
  }

  lemma HostAgrees(c: Client, h: Node)
    requires h.kind.HostNode? && WellShaped(h)
    ensures Subtree(c, h) == Content(h, c.filter, c.now)
  {
    forall m | m in h.children.nodes
      ensures m.kind.MetricNode? && m.children.NoTable?
    {
      assert WellShaped(m);
    }
    MetricsAgree(c, h.children.nodes);
    assert ApplyFilter(c, h) == [];
  }

  lemma {:induction false} HostsAgree(c: Client, hosts: seq<Node>)
    requires forall h <- hosts :: h.kind.HostNode? && WellShaped(h)
    ensures ReportAll(c, hosts) == if c.filter.NoFilter? then HostDocs(hosts, c.now) else []
  {
    if hosts != [] && c.filter.NoFilter? {
      var h := hosts[0];
      assert h in hosts && forall x <- hosts[1..] :: x in hosts;
      HostsAgree(c, hosts[1..]);
      HostAgrees(c, h);
      assert TreeReport(c, h) == (Inside(HOST, h.name, Content(h, c.filter, c.now)), false);
    }
  }

  /** A source, that is a grid or a cluster. */
  lemma SourceAgrees(c: Client, s: Node)
    requires (s.kind.GridNode? || s.kind.ClusterNode?) && WellShaped(s)
    ensures Subtree(c, s) == Content(s, c.filter, c.now)
  {
    SummaryAgrees(s);
    if s.kind.ClusterNode? {
      HostsAgree(c, s.children.nodes);
      assert SummaryDoc(s) + [] == SummaryDoc(s) && [] + Content(s, c.filter, c.now) == Content(s, c.filter, c.now);
    } else {
      assert SummaryDoc(s) + [] == SummaryDoc(s);
    }
  }

  lemma {:induction false} SourcesAgree(c: Client, sources: seq<Node>)
    requires forall s <- sources :: (s.kind.GridNode? || s.kind.ClusterNode?) && WellShaped(s)
    ensures ReportAll(c, sources) == SourceDocs(sources, c.filter, c.now)
  {
    if sources != [] {
      var s := sources[0];
      assert s in sources && forall x <- sources[1..] :: x in sources;
      SourcesAgree(c, sources[1..]);
      SourceAgrees(c, s);
      assert TreeReport(c, s) == (ReportStart(c, s) + Subtree(c, s) + ReportEnd(s), false);
    }
  }

  /** The report of every node of a tree of gmetad's shape, under either filter. */
  lemma ContentIsReported(c: Client, n: Node)
    requires WellShaped(n)
    ensures Subtree(c, n) == Content(n, c.filter, c.now)
  {
    match n.kind {
      case RootNode =>
        SummaryAgrees(n);
        SourcesAgree(c, n.children.nodes);
      case GridNode => SourceAgrees(c, n);
      case ClusterNode => SourceAgrees(c, n);
      case HostNode => HostAgrees(c, n);
      case MetricNode =>
    }
  }

  // ---- Whole answers ----

  /** The path "/a/b" of the names a and b. */
  function PathOf(names: seq<string>): string {
    if names == [] then "" else "/" + names[0] + PathOf(names[1..])
  }

  /** Every node of the chain is the child of its name of the one in front of it. */
  predicate IsChain(n: Node, chain: seq<Node>)
    decreases |chain|
  {
    chain == [] ||
    (n.children.Table? && IsElement(chain[0].name) && FindChild(n.children.nodes, chain[0].name) == Some(chain[0]) &&
     IsChain(chain[0], chain[1..]))
  }

  lemma FrameAgrees(c: Client, n: Node, inside: seq<Token>)
    requires !n.kind.RootNode? && (n.kind.MetricNode? ==> inside == [])
    ensures ReportStart(c, n) + inside + ReportEnd(n) == Framed(n, inside, c.now)
  {
    if n.kind.MetricNode? {
      RecordAgrees(METRIC, n.name, n.extra);
      assert ReportStart(c, n) + [] + [] == ReportStart(c, n);
    }
  }

  lemma ChildIsShaped(n: Node, m: Node)
    requires WellShaped(n) && n.children.Table? && FindChild(n.children.nodes, m.name) == Some(m)
    ensures WellShaped(m) && !m.kind.RootNode? && m < n
  {
    FindChildIn(n.children.nodes, m.name);
    assert m in n.children.nodes;
  }

  lemma {:induction false} PathIsFollowed(c: Client, n: Node, chain: seq<Node>)
    requires WellShaped(n) && IsChain(n, chain)
    ensures PathBody(c, PathOf(NodeNames(chain)), n) == Along(n, chain, c.filter, c.now)
    ensures n.kind.MetricNode? ==> Along(n, chain, c.filter, c.now) == []
    decreases |chain|
  {
    ContentIsReported(c, n);
    if chain != [] {
      var m, rest := chain[0], PathOf(NodeNames(chain[1..]));
      ChildIsShaped(n, m);
      PathIsFollowed(c, m, chain[1..]);
      PathOfElement(m.name, rest);
      assert NodeNames(chain) == [m.name] + NodeNames(chain[1..]);
      assert PathOf(NodeNames(chain)) == "/" + m.name + rest;
      assert PathBody(c, PathOf(NodeNames(chain)), n) == ProcessPath(c, rest, m);
      FrameAgrees(c, m, PathBody(c, rest, m));
    }
  }

  lemma Alone(ts: seq<Token>)
    ensures [] + ts + [] == ts
  {
  }

  lemma DocumentOf(grid: string, inside: seq<Token>)
    ensures [Open(GANGLIA_XML, "gmetad"), Open(GRID, grid)] + inside + [Close(GRID), Close(GANGLIA_XML)] ==
            Document(grid, inside)
  {
  }

  /** The answer to the path of any node of the tree, under either filter and for either kind of client: the
      whole document. In particular for the empty path. */
  lemma AnswerIsDocument(c: Client, root: Node, chain: seq<Node>)
    requires root.kind.RootNode? && WellShaped(root) && IsChain(root, chain)
    ensures Response(c, PathOf(NodeNames(chain)), root) == Document(root.name, Along(root, chain, c.filter, c.now))
  {
    var path := PathOf(NodeNames(chain));
    PathIsFollowed(c, root, chain);
    Alone(PathBody(c, path, root));
    DocumentOf(root.name, PathBody(c, path, root));
  }

  /** A lone slash is the empty path. */
  lemma SlashIsRoot(c: Client, root: Node)
    requires root.kind.RootNode? && WellShaped(root)
    ensures Response(c, "/", root) == Document(root.name, Content(root, c.filter, c.now))
  {
    ContentIsReported(c, root);
    assert PathBody(c, "/", root) == Subtree(c, root);
    Alone(Subtree(c, root));
    DocumentOf(root.name, Subtree(c, root));
  }

  // ---- What the answer to "/" lists ----

  function LiveNames(ms: seq<Node>, now: int): seq<string> {
    if ms == [] then []
    else (if ms[0].dmax == 0 || now - ms[0].t0 <= ms[0].dmax then [ms[0].name] else []) + LiveNames(ms[1..], now)
  }

  function LiveInHosts(hosts: seq<Node>, now: int): seq<string> {
    if hosts == [] then [] else LiveNames(Kids(hosts[0]), now) + LiveInHosts(hosts[1..], now)
  }

  lemma NamesInside(tag: Tag, name: string, inside: seq<Token>, wanted: Tag)
    ensures Names(Inside(tag, name, inside), wanted) == (if tag == wanted then [name] else []) + Names(inside, wanted)
  {
    NamesElement(tag, name, inside, wanted);
  }

  lemma {:induction false} NamesMetrics(ms: seq<Node>, now: int, wanted: Tag)
    requires wanted != EXTRA_DATA
    ensures Names(MetricDocs(ms, now), wanted) == if wanted == METRIC then LiveNames(ms, now) else []
  {
    if ms != [] {
      NamesMetrics(ms[1..], now, wanted);
      NamesWithExtra(METRIC, ms[0].name, ms[0].extra, wanted);
      RecordAgrees(METRIC, ms[0].name, ms[0].extra);
      NamesAppend(MetricDoc(ms[0], now), MetricDocs(ms[1..], now), wanted);
    }
  }

  lemma NamesHost(h: Node, now: int, wanted: Tag)
    requires wanted != EXTRA_DATA
    ensures Names(HostDoc(h, now), wanted) ==
            if wanted == HOST then [h.name] else if wanted == METRIC then LiveNames(Kids(h), now) else []
  {
    NamesMetrics(Kids(h), now, wanted);
    NamesInside(HOST, h.name, MetricDocs(Kids(h), now), wanted);
  }

  lemma {:induction false} NamesHosts(hosts: seq<Node>, now: int, wanted: Tag)
    requires wanted != EXTRA_DATA
    ensures Names(HostDocs(hosts, now), wanted) ==
            if wanted == HOST then NodeNames(hosts) else if wanted == METRIC then LiveInHosts(hosts, now) else []
  {
    if hosts != [] {
      NamesHosts(hosts[1..], now, wanted);
      NamesHost(hosts[0], now, wanted);
      NamesAppend(HostDoc(hosts[0], now), HostDocs(hosts[1..], now), wanted);
    }
  }

  lemma NamesSummary(n: Node, wanted: Tag)
    requires wanted != EXTRA_DATA
    ensures Names(SummaryDoc(n), wanted) == if wanted == METRICS then KnownSummaries(n.summary) else []
  {
    SummaryAgrees(n);
    NamesSummaries(n.summary, wanted);
    NamesAppend([Empty(HOSTS, "")], MetricSummaries(n.summary), wanted);
    assert [Empty(HOSTS, "")][1..] == [];
  }

  /** The names of one tag in the report of a source. */
  function SourceNames(s: Node, filter: Filter, now: int, wanted: Tag): seq<string> {
    var inFull := s.kind.ClusterNode? && filter.NoFilter?;
    match wanted
    case CLUSTER => if s.kind.ClusterNode? then [s.name] else []
    case GRID => if s.kind.GridNode? then [s.name] else []
    case HOST => if inFull then NodeNames(Kids(s)) else []
    case METRIC => if inFull then LiveInHosts(Kids(s), now) else []
    case METRICS => if inFull then [] else KnownSummaries(s.summary)
    case _ => []
  }

  function EachSourceNames(ns: seq<Node>, filter: Filter, now: int, wanted: Tag): seq<string> {
    if ns == [] then [] else SourceNames(ns[0], filter, now, wanted) + EachSourceNames(ns[1..], filter, now, wanted)
  }

  lemma NamesSource(s: Node, filter: Filter, now: int, wanted: Tag)
    requires wanted != EXTRA_DATA && (s.kind.GridNode? || s.kind.ClusterNode?)
    ensures Names(SourceDoc(s, filter, now), wanted) == SourceNames(s, filter, now, wanted)
  {
    NamesSummary(s, wanted);
    NamesHosts(Kids(s), now, wanted);
    NamesInside(GRID, s.name, SummaryDoc(s), wanted);
    NamesInside(CLUSTER, s.name, SummaryDoc(s), wanted);
    NamesInside(CLUSTER, s.name, HostDocs(Kids(s), now), wanted);
  }

  lemma {:induction false} NamesSources(ns: seq<Node>, filter: Filter, now: int, wanted: Tag)
    requires wanted != EXTRA_DATA && forall n <- ns :: n.kind.GridNode? || n.kind.ClusterNode?
    ensures Names(SourceDocs(ns, filter, now), wanted) == EachSourceNames(ns, filter, now, wanted)
  {
    if ns != [] {
      assert ns[0] in ns && forall n <- ns[1..] :: n in ns;
      NamesSources(ns[1..], filter, now, wanted);
      NamesSource(ns[0], filter, now, wanted);
      NamesAppend(SourceDoc(ns[0], filter, now), SourceDocs(ns[1..], filter, now), wanted);
    }
  }

  lemma NamesDocument(grid: string, inside: seq<Token>, wanted: Tag)
    requires wanted != GANGLIA_XML
    ensures Names(Document(grid, inside), wanted) == (if wanted == GRID then [grid] else []) + Names(inside, wanted)
  {
    NamesInside(GANGLIA_XML, "gmetad", Inside(GRID, grid, inside), wanted);
    NamesInside(GRID, grid, inside, wanted);
  }

  /** The answer to "/" lists every source; without a filter every host of the clusters and in them every metric
      that is not older than its DMAX, and the summaries of the grids; with it no host, and the summaries of the
      root and of every source; each in the order of the tree. */
  lemma RootNames(c: Client, root: Node, wanted: Tag)
    requires root.kind.RootNode? && WellShaped(root) && wanted !in {GANGLIA_XML, EXTRA_DATA}
    ensures Names(Response(c, "/", root), wanted) ==
            (if wanted == GRID then [root.name] else []) +
            ((if wanted == METRICS && c.filter.SummaryFilter? then KnownSummaries(root.summary) else []) +
             EachSourceNames(Kids(root), c.filter, c.now, wanted))
  {
    var own := if c.filter.SummaryFilter? then SummaryDoc(root) else [];
    var sources := SourceDocs(Kids(root), c.filter, c.now);
    SlashIsRoot(c, root);
    NamesDocument(root.name, own + sources, wanted);
    NamesSummary(root, wanted);
    NamesSources(Kids(root), c.filter, c.now, wanted);
    NamesAppend(own, sources, wanted);
  }
}
