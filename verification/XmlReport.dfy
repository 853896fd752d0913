/** The query engine of gmetad/server.c: a walk down the tree of sources, hosts and metrics along a
    path, under a filter, that writes XML as it goes. The output is a sequence of tags; names stand
    for all attributes. */
module XmlReport {
  import opened Base
  import SummaryPoll

  datatype Tag = GANGLIA_XML | GRID | CLUSTER | HOST | METRIC | EXTRA_DATA | EXTRA_ELEMENT | HOSTS | METRICS

  datatype Token =
    | Open(tag: Tag, name: string)
    | Close(tag: Tag)
    | Empty(tag: Tag, name: string)

  datatype Kind = RootNode | GridNode | ClusterNode | HostNode | MetricNode
  datatype Filter = NoFilter | SummaryFilter
  datatype Client = Client(http: bool, filter: Filter, now: int)
  datatype Summary = Summary(name: string, typeName: string, extra: seq<string>)

  datatype Children = NoTable | Table(nodes: seq<Node>)

  /** A node of the tree, as Generic_t sees it; the fields that do not apply to its kind are unused. */
  datatype Node = Node(
    kind: Kind,
    name: string,
    children: Children,           // the hash table of children, if it has one
    summary: seq<Summary>,        // the published metric summary, in walk order
    t0: int,
    dmax: nat,
    extra: seq<string>)

  // ---- What the code emits ----

  function ExtraElements(names: seq<string>): seq<Token> {
    if names == [] then [] else [Empty(EXTRA_ELEMENT, names[0])] + ExtraElements(names[1..])
  }

  function ExtraData(extra: seq<string>): seq<Token> {
    [Open(EXTRA_DATA, "")] + ExtraElements(extra) + [Close(EXTRA_DATA)]
  }

  function WithExtra(tag: Tag, name: string, extra: seq<string>): seq<Token> {
    [Open(tag, name)] + ExtraData(extra) + [Close(tag)]
  }

  /** Seconds since the metric was heard, never negative, against its DMAX. */
  predicate MetricExpired(n: Node, now: int) {
    var tn := if now - n.t0 < 0 then 0 else now - n.t0;
    n.dmax != 0 && n.dmax < tn
  }

  function ReportStart(c: Client, n: Node): seq<Token> {
    match n.kind
    case RootNode => []
    case GridNode => [Open(GRID, n.name)]
    case ClusterNode => [Open(CLUSTER, n.name)]
    case HostNode => [Open(HOST, n.name)]
    case MetricNode => if MetricExpired(n, c.now) then [] else WithExtra(METRIC, n.name, n.extra)
  }

  function ReportEnd(n: Node): seq<Token> {
    match n.kind
    case RootNode => []
    case GridNode => [Close(GRID)]
    case ClusterNode => [Close(CLUSTER)]
    case HostNode => [Close(HOST)]
    case MetricNode => []
  }

  function MetricSummaries(ms: seq<Summary>): seq<Token> {
    if ms == [] then []
    else (if SummaryPoll.TypeOf(ms[0].typeName).None? then [] else WithExtra(METRICS, ms[0].name, ms[0].extra))
         + MetricSummaries(ms[1..])
  }

  function SourceSummary(n: Node): seq<Token> {
    [Empty(HOSTS, "")] + MetricSummaries(n.summary)
  }

  predicate Applicable(f: Filter, n: Node) {
    f.NoFilter? || n.kind.RootNode? || n.kind.ClusterNode? || n.kind.GridNode?
  }

  function ApplyFilter(c: Client, n: Node): seq<Token> {
    var f := if n.kind.GridNode? then SummaryFilter else c.filter;
    if !Applicable(f, n) || f.NoFilter? then [] else SourceSummary(n)
  }

  /** What tree_report writes, and whether it tells the walk over its siblings to stop. */
  function TreeReport(c: Client, n: Node): (seq<Token>, bool)
    decreases n, 2
  {
    if c.filter.SummaryFilter? && !Applicable(c.filter, n) then ([], true)
    else (ReportStart(c, n) + Subtree(c, n) + ReportEnd(n), false)
  }

  /** The base case of process_path: the node's filter output and all its children. */
  function Subtree(c: Client, n: Node): seq<Token>
    decreases n, 1
  {
    ApplyFilter(c, n) + if n.children.Table? then ReportAll(c, n.children.nodes) else []
  }

  /** hash_foreach(children, tree_report), which a child can stop early. */
  function ReportAll(c: Client, ns: seq<Node>): seq<Token>
    decreases ns, 0
  {
    if ns == [] then []
    else
      var (out, stop) := TreeReport(c, ns[0]);
      out + if stop then [] else ReportAll(c, ns[1..])
  }

  /** strchr(p, '/'), or the end of p. */
  function SlashAt(p: string): (i: nat)
    ensures i <= |p|
  {
    if p == "" || p[0] == '/' then 0 else 1 + SlashAt(p[1..])
  }

  function FindChild(ns: seq<Node>, name: string): Option<Node> {
    if ns == [] then None else if ns[0].name == name then Some(ns[0]) else FindChild(ns[1..], name)
  }

  lemma {:induction false} FindChildIn(ns: seq<Node>, name: string)
    ensures FindChild(ns, name).Some? ==> FindChild(ns, name).value in ns && FindChild(ns, name).value.name == name
    ensures FindChild(ns, name).None? <==> forall n <- ns :: n.name != name
  {
    if ns != [] {
      FindChildIn(ns[1..], name);
      assert ns == [ns[0]] + ns[1..];
    }
  }

  function ProcessPath(c: Client, path: string, n: Node): seq<Token>
    decreases n, 1
  {
    ReportStart(c, n) + PathBody(c, path, n) + ReportEnd(n)
  }

  function PathBody(c: Client, path: string, n: Node): seq<Token>
    decreases n, 0
  {
    if n.children.NoTable? || |path| <= 1 then Subtree(c, n)
    else
      var q := 1 + SlashAt(path[1..]);
      var element, rest := path[1..q], path[q..];
      var found := FindChild(n.children.nodes, element);
      FindChildIn(n.children.nodes, element);
      if found.Some? then ProcessPath(c, rest, found.value)
      else if !c.http then Subtree(c, n)
      else if element == "*" then ProcessAll(c, rest, n.children.nodes)
      else []
  }

  /** The wildcard: process_path_adapter on every child. */
  function ProcessAll(c: Client, path: string, ns: seq<Node>): seq<Token>
    decreases ns, 0
  {
    if ns == [] then [] else ProcessPath(c, path, ns[0]) + ProcessAll(c, path, ns[1..])
  }

  /** The whole answer to a request; root_report_start and root_report_end stand around it. */
  function Response(c: Client, path: string, root: Node): seq<Token> {
    [Open(GANGLIA_XML, "gmetad"), Open(GRID, root.name)] + ProcessPath(c, path, root)
      + [Close(GRID), Close(GANGLIA_XML)]
  }

  // ---- What a valid document is ----

  /** The content models of gmond/dtd.h. */
  predicate Allowed(parent: Tag, child: Tag) {
    match parent
    case GANGLIA_XML => child in {GRID, CLUSTER, HOST}
    case GRID => child in {CLUSTER, GRID, HOSTS, METRICS}
    case CLUSTER => child in {HOST, HOSTS, METRICS}
    case HOST => child == METRIC
    case METRIC => child == EXTRA_DATA
    case METRICS => child == EXTRA_DATA
    case EXTRA_DATA => child == EXTRA_ELEMENT
    case EXTRA_ELEMENT => false
    case HOSTS => false
  }

  /** Reads one tag with the given elements open, innermost last; None if the tag may not come here. */
  function Eat(open: seq<Tag>, t: Token): Option<seq<Tag>> {
    match t
    case Open(tag, _) =>
      if (if open == [] then tag == GANGLIA_XML else Allowed(open[|open| - 1], tag)) then Some(open + [tag]) else None
    case Empty(tag, _) => if open != [] && Allowed(open[|open| - 1], tag) then Some(open) else None
    case Close(tag) => if open != [] && open[|open| - 1] == tag then Some(open[..|open| - 1]) else None
  }

  function EatAll(open: seq<Tag>, ts: seq<Token>): Option<seq<Tag>>
    decreases |ts|
  {
    if ts == [] then Some(open)
    else
      var next := Eat(open, ts[0]);
      if next.None? then None else EatAll(next.value, ts[1..])
  }

  /** Reading the tags inside this element leaves exactly the same elements open. */
  ghost predicate FitsIn(tag: Tag, ts: seq<Token>) {
    forall open: seq<Tag> | open != [] && open[|open| - 1] == tag :: EatAll(open, ts) == Some(open)
  }

  lemma {:induction false} EatAppend(open: seq<Tag>, a: seq<Token>, b: seq<Token>)
    ensures EatAll(open, a + b) ==
            if EatAll(open, a).None? then None else EatAll(EatAll(open, a).value, b)
    decreases |a|
  {
    if a == [] {
      assert a + b == b;
    } else {
      assert (a + b)[1..] == a[1..] + b;
      var next := Eat(open, a[0]);
      if next.Some? {
        EatAppend(next.value, a[1..], b);
      }
    }
  }

  lemma FitsAppend(tag: Tag, a: seq<Token>, b: seq<Token>)
    requires FitsIn(tag, a) && FitsIn(tag, b)
    ensures FitsIn(tag, a + b)
  {
    forall open: seq<Tag> | open != [] && open[|open| - 1] == tag
      ensures EatAll(open, a + b) == Some(open)
    {
      EatAppend(open, a, b);
    }
  }

  /** An element whose inside fits in it fits in a parent that allows it. */
  lemma FitsElement(parent: Tag, tag: Tag, name: string, inside: seq<Token>)
    requires Allowed(parent, tag) && FitsIn(tag, inside)
    ensures FitsIn(parent, [Open(tag, name)] + inside + [Close(tag)])
  {
    forall open: seq<Tag> | open != [] && open[|open| - 1] == parent
      ensures EatAll(open, [Open(tag, name)] + inside + [Close(tag)]) == Some(open)
    {
      EatAppend(open, [Open(tag, name)] + inside, [Close(tag)]);
      EatAppend(open, [Open(tag, name)], inside);
      var inner := open + [tag];
      assert EatAll(open, [Open(tag, name)]) == Some(inner);
      assert EatAll(inner, [Close(tag)]) == Some(inner[..|inner| - 1]);
      assert inner[..|inner| - 1] == open;
    }
  }

  lemma FitsNothing(tag: Tag)
    ensures FitsIn(tag, [])
  {
  }

  lemma FitsEmpty(parent: Tag, tag: Tag, name: string)
    requires Allowed(parent, tag)
    ensures FitsIn(parent, [Empty(tag, name)])
  {
    forall open: seq<Tag> | open != [] && open[|open| - 1] == parent
      ensures EatAll(open, [Empty(tag, name)]) == Some(open)
    {
      assert [Empty(tag, name)][1..] == [];
    }
  }

  // ---- Every response is valid ----

  /** The shape gmetad builds: the root has sources; a grid has no children; a cluster has hosts; a
      host has metrics; a metric has none. */
  predicate WellShaped(n: Node) {
    match n.kind
    case RootNode =>
      n.children.Table? && forall k <- n.children.nodes :: k.kind in {GridNode, ClusterNode} && WellShaped(k)
    case GridNode => n.children.NoTable?
    case ClusterNode => n.children.Table? && forall k <- n.children.nodes :: k.kind.HostNode? && WellShaped(k)
    case HostNode => n.children.Table? && forall k <- n.children.nodes :: k.kind.MetricNode? && WellShaped(k)
    case MetricNode => n.children.NoTable?
  }

  /** The element a node's content stands in. */
  function TagOf(k: Kind): Tag {
    match k
    case RootNode => GRID
    case GridNode => GRID
    case ClusterNode => CLUSTER
    case HostNode => HOST
    case MetricNode => METRIC
  }

  predicate ChildOf(parent: Kind, child: Kind) {
    match parent
    case RootNode => child.GridNode? || child.ClusterNode?
    case ClusterNode => child.HostNode?
    case HostNode => child.MetricNode?
    case GridNode => false
    case MetricNode => false
  }

  lemma {:induction false} ExtrasFit(names: seq<string>)
    ensures FitsIn(EXTRA_DATA, ExtraElements(names))
  {
    if names == [] {
      FitsNothing(EXTRA_DATA);
    } else {
      ExtrasFit(names[1..]);
      FitsEmpty(EXTRA_DATA, EXTRA_ELEMENT, names[0]);
      FitsAppend(EXTRA_DATA, [Empty(EXTRA_ELEMENT, names[0])], ExtraElements(names[1..]));
    }
  }

  lemma WithExtraFits(parent: Tag, tag: Tag, name: string, extra: seq<string>)
    requires Allowed(parent, tag) && tag in {METRIC, METRICS}
    ensures FitsIn(parent, WithExtra(tag, name, extra))
  {
    ExtrasFit(extra);
    FitsElement(tag, EXTRA_DATA, "", ExtraElements(extra));
    FitsElement(parent, tag, name, ExtraData(extra));
  }

  lemma {:induction false} SummariesFit(tag: Tag, ms: seq<Summary>)
    requires tag in {GRID, CLUSTER}
    ensures FitsIn(tag, MetricSummaries(ms))
  {
    if ms == [] {
      FitsNothing(tag);
    } else {
      SummariesFit(tag, ms[1..]);
      if SummaryPoll.TypeOf(ms[0].typeName).None? {
        FitsNothing(tag);
        FitsAppend(tag, [], MetricSummaries(ms[1..]));
      } else {
        WithExtraFits(tag, METRICS, ms[0].name, ms[0].extra);
        FitsAppend(tag, WithExtra(METRICS, ms[0].name, ms[0].extra), MetricSummaries(ms[1..]));
      }
    }
  }

  lemma FilterFits(c: Client, n: Node)
    ensures FitsIn(TagOf(n.kind), ApplyFilter(c, n))
  {
    var tag := TagOf(n.kind);
    if ApplyFilter(c, n) == [] {
      FitsNothing(tag);
    } else {
      FitsEmpty(tag, HOSTS, "");
      SummariesFit(tag, n.summary);
      FitsAppend(tag, [Empty(HOSTS, "")], MetricSummaries(n.summary));
    }
  }

  /** A node's own tags around content that fits in them fit in the tags of its parent. */
  lemma NodeFits(c: Client, parent: Kind, n: Node, inside: seq<Token>)
    requires ChildOf(parent, n.kind) && FitsIn(TagOf(n.kind), inside)
    requires n.kind.MetricNode? ==> inside == []
    ensures FitsIn(TagOf(parent), ReportStart(c, n) + inside + ReportEnd(n))
  {
    if n.kind.MetricNode? {
      assert ReportStart(c, n) + inside + ReportEnd(n) == ReportStart(c, n);
      if MetricExpired(n, c.now) {
        FitsNothing(TagOf(parent));
      } else {
        WithExtraFits(TagOf(parent), METRIC, n.name, n.extra);
      }
    } else {
      FitsElement(TagOf(parent), TagOf(n.kind), n.name, inside);
    }
  }

  lemma {:induction false} SubtreeFits(c: Client, n: Node)
    requires WellShaped(n)
    ensures FitsIn(TagOf(n.kind), Subtree(c, n))
    ensures n.kind.MetricNode? ==> Subtree(c, n) == []
    decreases n, 1
  {
    FilterFits(c, n);
    if n.children.Table? {
      ReportAllFits(c, n.kind, n.children.nodes);
      FitsAppend(TagOf(n.kind), ApplyFilter(c, n), ReportAll(c, n.children.nodes));
    } else {
      assert ApplyFilter(c, n) + [] == ApplyFilter(c, n);
    }
  }

  lemma {:induction false} ReportAllFits(c: Client, parent: Kind, ns: seq<Node>)
    requires forall n <- ns :: ChildOf(parent, n.kind) && WellShaped(n)
    ensures FitsIn(TagOf(parent), ReportAll(c, ns))
    decreases ns, 0
  {
    if ns == [] {
      FitsNothing(TagOf(parent));
    } else {
      var (out, stop) := TreeReport(c, ns[0]);
      SubtreeFits(c, ns[0]);
      NodeFits(c, parent, ns[0], Subtree(c, ns[0]));
      FitsNothing(TagOf(parent));
      ReportAllFits(c, parent, ns[1..]);
      FitsAppend(TagOf(parent), out, if stop then [] else ReportAll(c, ns[1..]));
    }
  }

  lemma KidsShaped(n: Node)
    requires WellShaped(n) && n.children.Table?
    ensures !n.kind.MetricNode? && forall k <- n.children.nodes :: ChildOf(n.kind, k.kind) && WellShaped(k)
  {
  }

  lemma {:induction false} PathBodyFits(c: Client, path: string, n: Node)
    requires WellShaped(n)
    ensures FitsIn(TagOf(n.kind), PathBody(c, path, n))
    ensures n.kind.MetricNode? ==> PathBody(c, path, n) == []
    decreases n, 1
  {
    if n.children.NoTable? || |path| <= 1 {
      SubtreeFits(c, n);
      return;
    }
    KidsShaped(n);
    var q := 1 + SlashAt(path[1..]);
    var element, rest := path[1..q], path[q..];
    var found := FindChild(n.children.nodes, element);
    FindChildIn(n.children.nodes, element);
    if found.Some? {
      ProcessPathFits(c, rest, n.kind, found.value);
    } else if !c.http {
      SubtreeFits(c, n);
    } else if element == "*" {
      ProcessAllFits(c, rest, n.kind, n.children.nodes);
    } else {
      FitsNothing(TagOf(n.kind));
    }
  }

  lemma {:induction false} ProcessPathFits(c: Client, path: string, parent: Kind, n: Node)
    requires WellShaped(n) && ChildOf(parent, n.kind)
    ensures FitsIn(TagOf(parent), ProcessPath(c, path, n))
    decreases n, 2
  {
    PathBodyFits(c, path, n);
    NodeFits(c, parent, n, PathBody(c, path, n));
  }

  lemma {:induction false} ProcessAllFits(c: Client, path: string, parent: Kind, ns: seq<Node>)
    requires forall n <- ns :: ChildOf(parent, n.kind) && WellShaped(n)
    ensures FitsIn(TagOf(parent), ProcessAll(c, path, ns))
    decreases ns, 0
  {
    if ns == [] {
      FitsNothing(TagOf(parent));
    } else {
      ProcessPathFits(c, path, parent, ns[0]);
      ProcessAllFits(c, path, parent, ns[1..]);
      FitsAppend(TagOf(parent), ProcessPath(c, path, ns[0]), ProcessAll(c, path, ns[1..]));
    }
  }

  /** For every tree, path, filter and kind of client the response is well nested and obeys the DTD. */
  lemma ResponseIsValid(c: Client, path: string, root: Node)
    requires root.kind.RootNode? && WellShaped(root)
    ensures EatAll([], Response(c, path, root)) == Some([])
  {
    PathBodyFits(c, path, root);
    assert ProcessPath(c, path, root) == PathBody(c, path, root);
    DocumentIsRead(root.name, ProcessPath(c, path, root));
  }

  lemma DocumentIsRead(grid: string, inside: seq<Token>)
    requires FitsIn(GRID, inside)
    ensures EatAll([], [Open(GANGLIA_XML, "gmetad"), Open(GRID, grid)] + inside + [Close(GRID), Close(GANGLIA_XML)])
            == Some([])
  {
    FitsElement(GANGLIA_XML, GRID, grid, inside);
    var body := [Open(GRID, grid)] + inside + [Close(GRID)];
    var first, last := [Open(GANGLIA_XML, "gmetad")], [Close(GANGLIA_XML)];
    assert [Open(GANGLIA_XML, "gmetad"), Open(GRID, grid)] + inside + [Close(GRID), Close(GANGLIA_XML)]
           == first + (body + last);
    EatAppend([], first, body + last);
    EatAppend([GANGLIA_XML], body, last);
    assert first[1..] == [] && last[1..] == [] && [] + [GANGLIA_XML] == [GANGLIA_XML];
  }

  // ---- What a path selects ----

  /** The elements of a path: "/a/b" has two, "/" none. */
  function Split(path: string): seq<string> {
    if |path| <= 1 then []
    else
      var q := 1 + SlashAt(path[1..]);
      [path[1..q]] + Split(path[q..])
  }

  /** The nodes the elements name, one below the other, if every element is found. */
  function Spine(n: Node, elements: seq<string>): Option<seq<Node>>
    decreases |elements|
  {
    if elements == [] then Some([])
    else if n.children.NoTable? then None
    else
      var found := FindChild(n.children.nodes, elements[0]);
      if found.None? then None
      else
        var rest := Spine(found.value, elements[1..]);
        if rest.None? then None else Some([found.value] + rest.value)
  }

  function Opens(c: Client, ns: seq<Node>): seq<Token> {
    if ns == [] then [] else ReportStart(c, ns[0]) + Opens(c, ns[1..])
  }

  function Closes(ns: seq<Node>): seq<Token> {
    if ns == [] then [] else Closes(ns[1..]) + ReportEnd(ns[0])
  }

  /** The full report of a node: its tags around its filter output and its children. */
  function FullReport(c: Client, n: Node): seq<Token> {
    ReportStart(c, n) + Subtree(c, n) + ReportEnd(n)
  }

  /** The node the path ends at. */
  function Selected(n: Node, chain: seq<Node>): Node {
    if chain == [] then n else chain[|chain| - 1]
  }

  /** A fully matched path yields the tags of the ancestors of the selected node around the full
      report of that node, and nothing else. */
  lemma {:induction false} FullMatch(c: Client, path: string, n: Node)
    requires Spine(n, Split(path)).Some?
    ensures ProcessPath(c, path, n) == AroundSelected(c, n, Spine(n, Split(path)).value)
    decreases |path|
  {
    if Split(path) != [] {
      var q := 1 + SlashAt(path[1..]);
      var m := FindChild(n.children.nodes, path[1..q]).value;
      assert Split(path)[1..] == Split(path[q..]);
      FullMatch(c, path[q..], m);
      assert PathBody(c, path, n) == ProcessPath(c, path[q..], m);
      var chain := Spine(m, Split(path[q..])).value;
      AroundDeeper(c, n, m, chain, FullReport(c, Selected(m, chain)));
      assert Selected(n, [m] + chain) == Selected(m, chain);
    }
  }

  /** The tags of nodes, outermost first, around a report. */
  function Around(c: Client, above: seq<Node>, report: seq<Token>): seq<Token> {
    Opens(c, above) + report + Closes(above)
  }

  /** A report of the last node of a chain below n, with the tags of the nodes above it. */
  function AroundLast(c: Client, n: Node, chain: seq<Node>, report: seq<Token>): seq<Token> {
    if chain == [] then report else Around(c, [n] + chain[..|chain| - 1], report)
  }

  function AroundSelected(c: Client, n: Node, chain: seq<Node>): seq<Token> {
    AroundLast(c, n, chain, FullReport(c, Selected(n, chain)))
  }

  lemma AroundStep(c: Client, n: Node, above: seq<Node>, report: seq<Token>)
    ensures Around(c, [n] + above, report) == ReportStart(c, n) + Around(c, above, report) + ReportEnd(n)
  {
    assert ([n] + above)[1..] == above;
    var start, inner, end := ReportStart(c, n), Opens(c, above), Closes(above);
    assert (start + inner) + report + (end + ReportEnd(n)) == start + (inner + report + end) + ReportEnd(n);
  }

  lemma AroundDeeper(c: Client, n: Node, m: Node, chain: seq<Node>, report: seq<Token>)
    ensures AroundLast(c, n, [m] + chain, report) ==
            ReportStart(c, n) + AroundLast(c, m, chain, report) + ReportEnd(n)
  {
    var all := [m] + chain;
    var above := all[..|all| - 1];
    AroundStep(c, n, above, report);
    if chain == [] {
      assert above == [] && [] + report + [] == report;
    } else {
      assert above == [m] + chain[..|chain| - 1];
    }
  }

  /** Below a node without children, and for a client that does not speak HTTP at every element that is not
      found, the path is cut there. */
  lemma {:induction false} CutAtUnmatched(c: Client, path: string, cut: string, n: Node, chain: seq<Node>)
    requires Spine(n, Split(cut)) == Some(chain)
    requires Split(cut) < Split(path)
    requires Selected(n, chain).children.NoTable? ||
             (!c.http && FindChild(Selected(n, chain).children.nodes, Split(path)[|Split(cut)|]).None?)
    ensures ProcessPath(c, path, n) == ProcessPath(c, cut, n)
    decreases |cut|
  {
    var q := 1 + SlashAt(path[1..]);
    if Split(cut) == [] {
      assert PathBody(c, path, n) == Subtree(c, n) == PathBody(c, cut, n);
    } else {
      var r := 1 + SlashAt(cut[1..]);
      assert Split(path)[0] == Split(cut)[0] == path[1..q] == cut[1..r];
      assert Split(cut)[1..] == Split(cut[r..]) && Split(path)[1..] == Split(path[q..]);
      CutAtUnmatched(c, path[q..], cut[r..], chain[0], chain[1..]);
      assert PathBody(c, path, n) == ProcessPath(c, path[q..], chain[0]);
      assert PathBody(c, cut, n) == ProcessPath(c, cut[r..], chain[0]);
    }
  }

  /** For an HTTP client such an element, unless it is the wildcard, leaves only the tags of the nodes found
      before it. */
  lemma {:induction false} HttpUnmatched(c: Client, path: string, cut: string, n: Node, chain: seq<Node>)
    requires c.http && Spine(n, Split(cut)) == Some(chain)
    requires Split(cut) < Split(path)
    requires Selected(n, chain).children.Table?
    requires FindChild(Selected(n, chain).children.nodes, Split(path)[|Split(cut)|]).None?
    requires Split(path)[|Split(cut)|] != "*"
    ensures ProcessPath(c, path, n) == Around(c, [n] + chain, [])
    decreases |cut|
  {
    var q := 1 + SlashAt(path[1..]);
    if Split(cut) == [] {
      assert PathBody(c, path, n) == [] && [n] + chain == [n] + [];
      AroundStep(c, n, [], []);
      assert Around(c, [], []) == [];
    } else {
      var r := 1 + SlashAt(cut[1..]);
      assert Split(path)[0] == Split(cut)[0] == path[1..q] == cut[1..r];
      assert Split(cut)[1..] == Split(cut[r..]) && Split(path)[1..] == Split(path[q..]);
      HttpUnmatched(c, path[q..], cut[r..], chain[0], chain[1..]);
      assert PathBody(c, path, n) == ProcessPath(c, path[q..], chain[0]);
      assert chain == [chain[0]] + chain[1..];
      AroundStep(c, n, chain, []);
    }
  }

  /** Path names cannot be empty or contain the separator. */
  predicate IsElement(name: string) {
    name != "" && '/' !in name
  }

  lemma {:induction false} SlashAfter(name: string, rest: string)
    requires '/' !in name && (rest == "" || rest[0] == '/')
    ensures SlashAt(name + rest) == |name|
  {
    if name == "" {
      assert name + rest == rest;
    } else {
      assert (name + rest)[1..] == name[1..] + rest;
      SlashAfter(name[1..], rest);
    }
  }

  lemma PathOfElement(name: string, rest: string)
    requires IsElement(name) && (rest == "" || rest[0] == '/')
    ensures var path := "/" + name + rest; var q := 1 + SlashAt(path[1..]);
      |path| > 1 && path[1..q] == name && path[q..] == rest
  {
    var path := "/" + name + rest;
    assert path[1..] == name + rest;
    SlashAfter(name, rest);
  }

  /** The bodies of the queries that name each of these children in turn. */
  function EachByName(c: Client, n: Node, ns: seq<Node>, rest: string): seq<Token> {
    if ns == [] then [] else PathBody(c, "/" + ns[0].name + rest, n) + EachByName(c, n, ns[1..], rest)
  }

  /** The wildcard of an HTTP client gives what naming every child in turn gives. */
  lemma WildcardIsEveryChild(c: Client, n: Node, rest: string)
    requires c.http && n.children.Table? && (rest == "" || rest[0] == '/')
    requires forall k <- n.children.nodes :: IsElement(k.name) && k.name != "*"
    requires forall i, j | 0 <= i < j < |n.children.nodes| :: n.children.nodes[i].name != n.children.nodes[j].name
    ensures PathBody(c, "/*" + rest, n) == EachByName(c, n, n.children.nodes, rest)
  {
    var ns := n.children.nodes;
    assert "/*" + rest == "/" + "*" + rest;
    PathOfElement("*", rest);
    FindChildIn(ns, "*");
    EveryChild(c, n, rest, 0);
    assert ns[0..] == ns;
  }

  lemma {:induction false} EveryChild(c: Client, n: Node, rest: string, i: nat)
    requires n.children.Table? && (rest == "" || rest[0] == '/') && i <= |n.children.nodes|
    requires forall k <- n.children.nodes :: IsElement(k.name)
    requires forall i, j | 0 <= i < j < |n.children.nodes| :: n.children.nodes[i].name != n.children.nodes[j].name
    ensures ProcessAll(c, rest, n.children.nodes[i..]) == EachByName(c, n, n.children.nodes[i..], rest)
    decreases |n.children.nodes| - i
  {
    var ns := n.children.nodes;
    if i < |ns| {
      EveryChild(c, n, rest, i + 1);
      assert ns[i..][0] == ns[i] && ns[i..][1..] == ns[i + 1..] && ns[i] in ns;
      PathOfElement(ns[i].name, rest);
      FindChildIn(ns, ns[i].name);
    }
  }

  /** Under a filter the walk over siblings stops at the first node the filter does not apply to. In a
      tree of gmetad's shape that loses nothing: the nodes behind it would not be reported either. */
  lemma {:induction false} EarlyStopLosesNothing(c: Client, parent: Kind, ns: seq<Node>)
    requires forall n <- ns :: ChildOf(parent, n.kind)
    ensures ReportAll(c, ns) == EachReport(c, ns)
  {
    if ns != [] {
      EarlyStopLosesNothing(c, parent, ns[1..]);
      if TreeReport(c, ns[0]).1 {
        AllSilent(c, parent, ns);
      }
    }
  }

  function EachReport(c: Client, ns: seq<Node>): seq<Token> {
    if ns == [] then [] else TreeReport(c, ns[0]).0 + EachReport(c, ns[1..])
  }

  lemma {:induction false} AllSilent(c: Client, parent: Kind, ns: seq<Node>)
    requires forall n <- ns :: ChildOf(parent, n.kind)
    requires c.filter.SummaryFilter? && (parent.ClusterNode? || parent.HostNode?)
    ensures EachReport(c, ns) == []
  {
    if ns != [] {
      AllSilent(c, parent, ns[1..]);
    }
  }

  // ---- What a report contains ----

  /** The names of the elements of one tag, in document order. */
  function Names(ts: seq<Token>, tag: Tag): seq<string> {
    if ts == [] then []
    else (if ts[0].Open? && ts[0].tag == tag then [ts[0].name] else []) + Names(ts[1..], tag)
  }

  function NodeNames(ns: seq<Node>): seq<string> {
    if ns == [] then [] else [ns[0].name] + NodeNames(ns[1..])
  }

  function LiveMetrics(ns: seq<Node>, now: int): seq<string> {
    if ns == [] then [] else (if MetricExpired(ns[0], now) then [] else [ns[0].name]) + LiveMetrics(ns[1..], now)
  }

  function MetricsOfHosts(hosts: seq<Node>, now: int): seq<string> {
    if hosts == [] then []
    else (if hosts[0].children.Table? then LiveMetrics(hosts[0].children.nodes, now) else [])
         + MetricsOfHosts(hosts[1..], now)
  }

  function KnownSummaries(ms: seq<Summary>): seq<string> {
    if ms == [] then []
    else (if SummaryPoll.TypeOf(ms[0].typeName).None? then [] else [ms[0].name]) + KnownSummaries(ms[1..])
  }

  lemma {:induction false} NamesAppend(a: seq<Token>, b: seq<Token>, tag: Tag)
    ensures Names(a + b, tag) == Names(a, tag) + Names(b, tag)
    decreases |a|
  {
    if a == [] {
      assert a + b == b;
    } else {
      assert (a + b)[1..] == a[1..] + b;
      NamesAppend(a[1..], b, tag);
    }
  }

  /** Wrapping in an element adds its own name in front, if it has the tag. */
  lemma NamesElement(tag: Tag, name: string, inside: seq<Token>, wanted: Tag)
    ensures Names([Open(tag, name)] + inside + [Close(tag)], wanted)
            == (if tag == wanted then [name] else []) + Names(inside, wanted)
  {
    NamesAppend([Open(tag, name)] + inside, [Close(tag)], wanted);
    NamesAppend([Open(tag, name)], inside, wanted);
    assert [Open(tag, name)][1..] == [] && [Close(tag)][1..] == [];
  }

  lemma {:induction false} NamesExtras(names: seq<string>, wanted: Tag)
    ensures Names(ExtraElements(names), wanted) == []
  {
    if names != [] {
      NamesExtras(names[1..], wanted);
      assert ExtraElements(names)[1..] == ExtraElements(names[1..]);
    }
  }

  lemma NamesWithExtra(tag: Tag, name: string, extra: seq<string>, wanted: Tag)
    requires wanted != EXTRA_DATA
    ensures Names(WithExtra(tag, name, extra), wanted) == if tag == wanted then [name] else []
  {
    NamesExtras(extra, wanted);
    NamesElement(EXTRA_DATA, "", ExtraElements(extra), wanted);
    NamesElement(tag, name, ExtraData(extra), wanted);
  }

  lemma {:induction false} NamesSummaries(ms: seq<Summary>, wanted: Tag)
    requires wanted != EXTRA_DATA
    ensures Names(MetricSummaries(ms), wanted) == if wanted == METRICS then KnownSummaries(ms) else []
  {
    if ms != [] {
      NamesSummaries(ms[1..], wanted);
      NamesWithExtra(METRICS, ms[0].name, ms[0].extra, wanted);
      NamesAppend(WithExtra(METRICS, ms[0].name, ms[0].extra), MetricSummaries(ms[1..]), wanted);
      assert [] + MetricSummaries(ms[1..]) == MetricSummaries(ms[1..]);
    }
  }

  lemma NamesFilter(c: Client, n: Node, wanted: Tag)
    requires wanted != EXTRA_DATA
    ensures Names(ApplyFilter(c, n), wanted)
            == if wanted == METRICS && ApplyFilter(c, n) != [] then KnownSummaries(n.summary) else []
  {
    NamesSummaries(n.summary, wanted);
    NamesAppend([Empty(HOSTS, "")], MetricSummaries(n.summary), wanted);
    assert [Empty(HOSTS, "")][1..] == [];
  }

  predicate IsMetric(n: Node) {
    n.kind.MetricNode? && n.children.NoTable?
  }

  predicate IsHost(n: Node) {
    n.kind.HostNode? && n.children.Table? && forall m <- n.children.nodes :: IsMetric(m)
  }

  lemma {:induction false} MetricsReported(c: Client, ns: seq<Node>)
    requires c.filter.NoFilter? && forall n <- ns :: IsMetric(n)
    ensures Names(ReportAll(c, ns), METRIC) == LiveMetrics(ns, c.now) && Names(ReportAll(c, ns), HOST) == []
  {
    if ns != [] {
      var out := TreeReport(c, ns[0]).0;
      MetricsReported(c, ns[1..]);
      NamesWithExtra(METRIC, ns[0].name, ns[0].extra, METRIC);
      NamesWithExtra(METRIC, ns[0].name, ns[0].extra, HOST);
      assert IsMetric(ns[0]) && Subtree(c, ns[0]) == [];
      assert out == ReportStart(c, ns[0]);
      NamesAppend(out, ReportAll(c, ns[1..]), METRIC);
      NamesAppend(out, ReportAll(c, ns[1..]), HOST);
    }
  }

  lemma HostReported(c: Client, h: Node)
    requires c.filter.NoFilter? && IsHost(h)
    ensures Names(TreeReport(c, h).0, HOST) == [h.name]
    ensures Names(TreeReport(c, h).0, METRIC) == LiveMetrics(h.children.nodes, c.now)
  {
    MetricsReported(c, h.children.nodes);
    assert Subtree(c, h) == ReportAll(c, h.children.nodes);
    NamesElement(HOST, h.name, Subtree(c, h), HOST);
    NamesElement(HOST, h.name, Subtree(c, h), METRIC);
  }

  lemma {:induction false} HostsReported(c: Client, hosts: seq<Node>)
    requires c.filter.NoFilter? && forall n <- hosts :: IsHost(n)
    ensures Names(ReportAll(c, hosts), HOST) == NodeNames(hosts)
    ensures Names(ReportAll(c, hosts), METRIC) == MetricsOfHosts(hosts, c.now)
  {
    if hosts != [] {
      var out, rest := TreeReport(c, hosts[0]).0, ReportAll(c, hosts[1..]);
      HostsReported(c, hosts[1..]);
      HostReported(c, hosts[0]);
      NamesAppend(out, rest, HOST);
      NamesAppend(out, rest, METRIC);
    }
  }

  /** Without a filter the report of a cluster lists every host, and in them every metric that is not
      older than its DMAX, in order and nothing else. */
  lemma ClusterReport(c: Client, cluster: Node)
    requires c.filter.NoFilter? && cluster.kind.ClusterNode? && WellShaped(cluster)
    ensures Names(Subtree(c, cluster), HOST) == NodeNames(cluster.children.nodes)
    ensures Names(Subtree(c, cluster), METRIC) == MetricsOfHosts(cluster.children.nodes, c.now)
  {
    forall h | h in cluster.children.nodes
      ensures IsHost(h)
    {
      assert WellShaped(h);
      forall m | m in h.children.nodes ensures IsMetric(m) { assert WellShaped(m); }
    }
    HostsReported(c, cluster.children.nodes);
    assert Subtree(c, cluster) == ReportAll(c, cluster.children.nodes);
  }

  /** A grid always, and a cluster under the filter, is reported by its host counts and its summary of
      the metrics of known type, without any host. */
  lemma SummaryReport(c: Client, n: Node)
    requires WellShaped(n) && (n.kind.GridNode? || (n.kind.ClusterNode? && c.filter.SummaryFilter?))
    ensures Subtree(c, n) == SourceSummary(n)
    ensures Names(Subtree(c, n), METRICS) == KnownSummaries(n.summary) && Names(Subtree(c, n), HOST) == []
  {
    if n.children.Table? {
      EarlyStopLosesNothing(c, n.kind, n.children.nodes);
      AllSilent(c, n.kind, n.children.nodes);
    }
    NamesFilter(c, n, METRICS);
    NamesFilter(c, n, HOST);
  }
}
