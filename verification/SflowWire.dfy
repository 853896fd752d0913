/** sFlow version 5 datagrams as an agent writes them, quad by quad, and the proof that the decoder of
    gmond/sflow.c gets out what was put in. */
module SflowWire {
  import opened Base
  import opened SflowFraming
  import opened Words

  datatype Block = Block(tag: nat, content: seq<nat>)

  /** A counter sample has its sequence number and its source in front, in 3 quads if it is of the expanded
      kind and else in 2. */
  datatype Wire =
    | Counters(expanded: bool, prologue: seq<nat>, blocks: seq<Block>)
    | Other(kind: nat, content: seq<nat>)

  /** An agent address has 1 quad or 4. */
  datatype Packet = Packet(address: seq<nat>, subAgent: nat, seqNo: nat, uptime: nat, samples: seq<Wire>)

  // ---- Writing; a length field counts bytes ----

  function BlockQuads(b: Block): seq<nat> {
    [b.tag, 4 * |b.content|] + b.content
  }

  function BlocksQuads(bs: seq<Block>): seq<nat> {
    if bs == [] then [] else BlockQuads(bs[0]) + BlocksQuads(bs[1..])
  }

  function Body(w: Wire): seq<nat> {
    match w
    case Counters(_, prologue, blocks) => prologue + [|blocks|] + BlocksQuads(blocks)
    case Other(_, content) => content
  }

  function WireQuads(w: Wire): seq<nat> {
    [if w.Other? then w.kind else if w.expanded then 4 else 2, 4 * |Body(w)|] + Body(w)
  }

  function Concat(parts: seq<seq<nat>>): seq<nat> {
    if parts == [] then [] else parts[0] + Concat(parts[1..])
  }

  function Parts(ws: seq<Wire>): seq<seq<nat>> {
    seq(|ws|, k requires 0 <= k < |ws| => WireQuads(ws[k]))
  }

  /** How many quads stand in front of sample number k. */
  function Before(ws: seq<Wire>, k: nat): nat
    requires k <= |ws|
  {
    |Concat(Parts(ws)[..k])|
  }

  function WiresQuads(ws: seq<Wire>): seq<nat> {
    Concat(Parts(ws))
  }

  function Header(p: Packet): seq<nat> {
    [5, if |p.address| == 1 then 1 else 2] + p.address + [p.subAgent, p.seqNo, p.uptime, |p.samples|]
  }

  function PacketQuads(p: Packet): seq<nat> {
    Header(p) + WiresQuads(p.samples)
  }

  /** Everything fits into its field. */
  predicate IsBlock(b: Block) {
    b.tag < U32 && |b.content| < 0x4000_0000
  }

  predicate IsWire(w: Wire) {
    |Body(w)| < 0x4000_0000 &&
    match w
    case Counters(expanded, prologue, blocks) =>
      |prologue| == (if expanded then 3 else 2) && |blocks| < U32 && forall b <- blocks :: IsBlock(b)
    case Other(kind, _) => kind < U32 && kind != 2 && kind != 4
  }

  predicate IsPacket(p: Packet) {
    (|p.address| == 1 || |p.address| == 4) && |p.samples| < U32 && forall w <- p.samples :: IsWire(w)
  }

  // ---- In memory ----

  function Slice(mem: Memory, i: nat, n: nat): (q: seq<nat>)
    ensures |q| == n
    decreases n
  {
    if n == 0 then [] else [mem(i)] + Slice(mem, i + 1, n - 1)
  }

  /** These quads stand in memory from quad i on. */
  predicate StandsAt(mem: Memory, i: nat, q: seq<nat>) {
    Slice(mem, i, |q|) == q
  }

  lemma {:induction false} SliceAt(mem: Memory, i: nat, n: nat, j: nat)
    requires j < n
    ensures Slice(mem, i, n)[j] == mem(i + j)
    decreases n
  {
    if j > 0 {
      SliceAt(mem, i + 1, n - 1, j - 1);
    }
  }

  lemma {:induction false} SliceSplit(mem: Memory, i: nat, m: nat, n: nat)
    ensures Slice(mem, i, m + n) == Slice(mem, i, m) + Slice(mem, i + m, n)
    decreases m
  {
    if m > 0 {
      SliceSplit(mem, i + 1, m - 1, n);
    }
  }

  lemma StandsSplit(mem: Memory, i: nat, a: seq<nat>, b: seq<nat>)
    requires StandsAt(mem, i, a + b)
    ensures StandsAt(mem, i, a) && StandsAt(mem, i + |a|, b)
  {
    SliceSplit(mem, i, |a|, |b|);
    var x, y := Slice(mem, i, |a|), Slice(mem, i + |a|, |b|);
    assert x + y == a + b && (x + y)[..|a|] == x && (a + b)[..|a|] == a && (x + y)[|a|..] == y && (a + b)[|a|..] == b;
  }

  /** A type or tag, a length in bytes, and that much content. */
  lemma Prefixed(mem: Memory, i: nat, tag: nat, content: seq<nat>)
    requires StandsAt(mem, i, [tag, 4 * |content|] + content) && tag < U32 && |content| < 0x4000_0000
    ensures Quad(mem, i) == tag && Len(mem, i + 1) == |content| && StandsAt(mem, i + 2, content)
  {
    var front := [tag, 4 * |content|];
    StandsSplit(mem, i, front, content);
    SliceAt(mem, i, 2, 0);
    SliceAt(mem, i, 2, 1);
    assert mem(i) == front[0] && mem(i + 1) == front[1];
  }

  // ---- Blocks ----

  /** The structures whose contents are wanted: host id, physical and virtual counters, and applications. */
  predicate IsWanted(tag: nat) {
    tag in {2000, 2003, 2004, 2005, 2006, 2100, 2101, 2102, 2103, 2104, 2106, 2201, 2204, 2206, 23359489}
  }

  /** The content of the last block with the tag. */
  function LastContent(bs: seq<Block>, tag: nat): Option<seq<nat>> {
    if bs == [] then None
    else if LastContent(bs[1..], tag).Some? then LastContent(bs[1..], tag)
    else if bs[0].tag == tag then Some(bs[0].content)
    else None
  }

  /** o has the offset of the last block of the tag, if there is one and the tag is wanted. */
  predicate FindsBlock(mem: Memory, o: Offsets, bs: seq<Block>, tag: nat) {
    var last := LastContent(bs, tag);
    if IsWanted(tag) && last.Some? then tag in o && StandsAt(mem, o[tag], last.value) else tag !in o
  }

  ghost predicate FindsBlocks(mem: Memory, o: Offsets, bs: seq<Block>) {
    forall tag: nat :: FindsBlock(mem, o, bs, tag)
  }

  /** o' is o after the blocks have been read, as far as one tag is concerned. */
  predicate ReadsTag(mem: Memory, o: Offsets, o': Offsets, bs: seq<Block>, tag: nat) {
    var last := LastContent(bs, tag);
    if IsWanted(tag) && last.Some? then tag in o' && StandsAt(mem, o'[tag], last.value)
    else (tag in o' <==> tag in o) && (tag in o ==> o'[tag] == o[tag])
  }

  lemma ReadsOne(mem: Memory, i: nat, b: Block, bs: seq<Block>, o: Offsets, o': Offsets, tag: nat)
    requires StandsAt(mem, i + 2, b.content)
    requires ReadsTag(mem, if IsKnown(b.tag) then o[b.tag := i + 2] else o, o', bs, tag)
    ensures ReadsTag(mem, o, o', [b] + bs, tag)
  {
    assert ([b] + bs)[1..] == bs;
  }

  lemma BlockRead(mem: Memory, i: nat, b: Block, rest: seq<Block>)
    requires StandsAt(mem, i, BlocksQuads([b] + rest)) && IsBlock(b)
    ensures Quad(mem, i) == b.tag && Len(mem, i + 1) == |b.content| && StandsAt(mem, i + 2, b.content)
    ensures StandsAt(mem, i + 2 + |b.content|, BlocksQuads(rest))
    ensures |BlocksQuads([b] + rest)| == 2 + |b.content| + |BlocksQuads(rest)|
  {
    assert ([b] + rest)[1..] == rest;
    StandsSplit(mem, i, BlockQuads(b), BlocksQuads(rest));
    Prefixed(mem, i, b.tag, b.content);
  }

  lemma {:induction false} BlocksTile(mem: Memory, i: nat, bs: seq<Block>)
    requires StandsAt(mem, i, BlocksQuads(bs)) && forall b <- bs :: IsBlock(b)
    ensures ElementsTile(mem, i, |bs|, i + |BlocksQuads(bs)|)
    decreases |bs|
  {
    if bs != [] {
      assert bs == [bs[0]] + bs[1..] && bs[0] in bs && forall x <- bs[1..] :: x in bs;
      BlockRead(mem, i, bs[0], bs[1..]);
      BlocksTile(mem, i + 2 + |bs[0].content|, bs[1..]);
    }
  }

  /** What reading the blocks does to the entry of one tag. */
  lemma {:induction false} BlocksRead(mem: Memory, i: nat, bs: seq<Block>, o: Offsets, tag: nat) returns (o': Offsets)
    requires StandsAt(mem, i, BlocksQuads(bs)) && forall b <- bs :: IsBlock(b)
    ensures o' == ElementOffsets(mem, i, |bs|, o) && ReadsTag(mem, o, o', bs, tag)
    decreases |bs|
  {
    if bs == [] {
      o' := o;
    } else {
      var b, rest := bs[0], bs[1..];
      assert bs == [b] + rest && b in bs && forall x <- rest :: x in bs;
      BlockRead(mem, i, b, rest);
      o' := BlocksRead(mem, i + 2 + |b.content|, rest, if IsKnown(b.tag) then o[b.tag := i + 2] else o, tag);
      ReadsOne(mem, i, b, rest, o, o', tag);
    }
  }

  /** The blocks of a sample, read from quad first on. */
  lemma BlocksFound(mem: Memory, first: nat, bs: seq<Block>)
    requires StandsAt(mem, first, BlocksQuads(bs)) && forall b <- bs :: IsBlock(b)
    ensures FindsBlocks(mem, ElementOffsets(mem, first, |bs|, map[]), bs)
  {
    var o := ElementOffsets(mem, first, |bs|, map[]);
    forall tag: nat
      ensures FindsBlock(mem, o, bs, tag)
    {
      var _ := BlocksRead(mem, first, bs, map[], tag);
    }
  }

  // ---- Samples ----

  /** What the decoder makes of a sample that begins at quad i. */
  ghost predicate Finds(mem: Memory, s: Sample, i: nat, w: Wire) {
    s.start == i + 2 && s.mark == i + |WireQuads(w)| &&
    if w.Counters? then FindsBlocks(mem, s.offsets, w.blocks) else s.offsets == map[]
  }

  /** What stands in front of the blocks of a counter sample. */
  lemma PrologueRead(mem: Memory, i: nat, w: Wire)
    requires StandsAt(mem, i, WireQuads(w)) && IsWire(w) && w.Counters?
    ensures Quad(mem, i) == (if w.expanded then 4 else 2) && i + 2 + Len(mem, i + 1) == i + |WireQuads(w)|
    ensures var first := i + 2 + Prologue(Quad(mem, i));
      Quad(mem, first - 1) == |w.blocks| && StandsAt(mem, first, BlocksQuads(w.blocks)) &&
      first + |BlocksQuads(w.blocks)| == i + |WireQuads(w)|
  {
    var first, bs := i + 2 + |w.prologue| + 1, w.blocks;
    Prefixed(mem, i, if w.expanded then 4 else 2, Body(w));
    StandsSplit(mem, i + 2, w.prologue + [|bs|], BlocksQuads(bs));
    StandsSplit(mem, i + 2, w.prologue, [|bs|]);
    SliceAt(mem, first - 1, 1, 0);
    assert mem(first - 1) == [|bs|][0] && Quad(mem, first - 1) == |bs|;
  }

  lemma CountersRead(mem: Memory, i: nat, w: Wire, quads: nat)
    requires StandsAt(mem, i, WireQuads(w)) && IsWire(w) && w.Counters? && i + |WireQuads(w)| <= quads
    ensures SampleTiles(mem, i, quads) && Finds(mem, SampleAt(mem, i), i, w)
  {
    PrologueRead(mem, i, w);
    BlocksTile(mem, i + 2 + Prologue(Quad(mem, i)), w.blocks);
    BlocksFound(mem, i + 2 + Prologue(Quad(mem, i)), w.blocks);
  }

  lemma WireRead(mem: Memory, i: nat, w: Wire, quads: nat)
    requires StandsAt(mem, i, WireQuads(w)) && IsWire(w) && i + |WireQuads(w)| <= quads
    ensures SampleTiles(mem, i, quads) && Finds(mem, SampleAt(mem, i), i, w)
    ensures i + 2 + Len(mem, i + 1) == i + |WireQuads(w)|
  {
    Prefixed(mem, i, if w.Other? then w.kind else if w.expanded then 4 else 2, Body(w));
    if w.Counters? {
      CountersRead(mem, i, w, quads);
    }
  }

  lemma WireTiles(mem: Memory, i: nat, w: Wire, quads: nat)
    requires StandsAt(mem, i, WireQuads(w)) && IsWire(w) && i + |WireQuads(w)| <= quads
    ensures SampleTiles(mem, i, quads) && i + 2 + Len(mem, i + 1) == i + |WireQuads(w)|
  {
    WireRead(mem, i, w, quads);
  }

  /** Where the decoder finds sample number k. */
  function SampleStart(mem: Memory, i: nat, k: nat): nat {
    if k == 0 then i else SampleStart(mem, i, k - 1) + 2 + Len(mem, SampleStart(mem, i, k - 1) + 1)
  }

  lemma {:induction false} StartBehindFirst(mem: Memory, i: nat, k: nat)
    ensures SampleStart(mem, i + 2 + Len(mem, i + 1), k) == SampleStart(mem, i, k + 1)
  {
    if k > 0 {
      StartBehindFirst(mem, i, k - 1);
    }
  }

  lemma {:induction false} SamplesByNumber(mem: Memory, i: nat, n: nat, quads: nat)
    requires forall k | 0 <= k < n :: SampleTiles(mem, SampleStart(mem, i, k), quads)
    ensures SamplesTile(mem, i, n, quads)
    ensures var ss := SamplesAt(mem, i, n);
      |ss| == n && forall k | 0 <= k < n :: ss[k] == SampleAt(mem, SampleStart(mem, i, k))
    decreases n
  {
    if n > 0 {
      var next := i + 2 + Len(mem, i + 1);
      forall k | 0 <= k < n - 1
        ensures SampleStart(mem, next, k) == SampleStart(mem, i, k + 1)
        ensures SampleTiles(mem, SampleStart(mem, next, k), quads)
      {
        StartBehindFirst(mem, i, k);
      }
      SamplesByNumber(mem, next, n - 1, quads);
      assert SampleStart(mem, i, 0) == i && SampleTiles(mem, i, quads);
      forall k | 0 <= k < n
        ensures SamplesAt(mem, i, n)[k] == SampleAt(mem, SampleStart(mem, i, k))
      {
        if k > 0 {
          assert SampleStart(mem, next, k - 1) == SampleStart(mem, i, k);
        }
      }
    }
  }

  lemma {:induction false} ConcatSplit(parts: seq<seq<nat>>, k: nat)
    requires k < |parts|
    ensures Concat(parts) == Concat(parts[..k]) + (parts[k] + Concat(parts[k + 1..]))
    ensures Concat(parts[..k + 1]) == Concat(parts[..k]) + parts[k]
  {
    var first, rest := parts[0], parts[1..];
    if k == 0 {
      assert parts[..1][1..] == [] && first + [] == first;
    } else {
      ConcatSplit(rest, k - 1);
      assert rest[..k - 1] == parts[..k][1..] && rest[..k] == parts[..k + 1][1..] && rest[k..] == parts[k + 1..];
      var a, b, c := Concat(rest[..k - 1]), parts[k], Concat(rest[k..]);
      assert first + (a + b) == (first + a) + b && first + (a + (b + c)) == (first + a) + (b + c);
    }
  }

  lemma PartStands(mem: Memory, i: nat, parts: seq<seq<nat>>, k: nat, at: nat, q: seq<nat>)
    requires StandsAt(mem, i, Concat(parts)) && k < |parts|
    requires at == i + |Concat(parts[..k])| && q == parts[k]
    ensures StandsAt(mem, at, q) && at + |q| == i + |Concat(parts[..k + 1])| <= i + |Concat(parts)|
  {
    ConcatSplit(parts, k);
    var a, c := Concat(parts[..k]), Concat(parts[k + 1..]);
    StandsSplit(mem, i, a, q + c);
    StandsSplit(mem, at, q, c);
  }

  lemma WireStands(mem: Memory, i: nat, ws: seq<Wire>, k: nat, at: nat)
    requires StandsAt(mem, i, WiresQuads(ws)) && k < |ws| && at == i + Before(ws, k)
    ensures StandsAt(mem, at, WireQuads(ws[k])) && at + |WireQuads(ws[k])| <= i + |WiresQuads(ws)|
    ensures at + |WireQuads(ws[k])| == i + Before(ws, k + 1)
  {
    PartStands(mem, i, Parts(ws), k, at, WireQuads(ws[k]));
  }

  lemma WireEnds(mem: Memory, at: nat, w: Wire)
    requires StandsAt(mem, at, WireQuads(w)) && IsWire(w)
    ensures at + 2 + Len(mem, at + 1) == at + |WireQuads(w)|
  {
    WireTiles(mem, at, w, at + |WireQuads(w)|);
  }

  /** Every sample is found where it has been written. */
  lemma {:induction false} StartsAgree(mem: Memory, i: nat, ws: seq<Wire>, k: nat)
    requires StandsAt(mem, i, WiresQuads(ws)) && (forall w <- ws :: IsWire(w)) && k <= |ws|
    ensures SampleStart(mem, i, k) == i + Before(ws, k)
    decreases k
  {
    if k > 0 {
      var at := SampleStart(mem, i, k - 1);
      StartsAgree(mem, i, ws, k - 1);
      WireStands(mem, i, ws, k - 1, at);
      WireEnds(mem, at, ws[k - 1]);
    }
  }

  lemma WireFound(mem: Memory, i: nat, ws: seq<Wire>, quads: nat, k: nat) returns (at: nat)
    requires StandsAt(mem, i, WiresQuads(ws)) && (forall w <- ws :: IsWire(w)) && i + |WiresQuads(ws)| <= quads
    requires k < |ws|
    ensures at == SampleStart(mem, i, k) == i + Before(ws, k)
    ensures SampleTiles(mem, at, quads) && Finds(mem, SampleAt(mem, at), at, ws[k])
  {
    at := SampleStart(mem, i, k);
    StartsAgree(mem, i, ws, k);
    WireStands(mem, i, ws, k, at);
    WireRead(mem, at, ws[k], quads);
  }

  /** The samples are found one behind the other from quad i on. */
  ghost predicate FindsAll(mem: Memory, ss: seq<Sample>, i: nat, ws: seq<Wire>) {
    |ss| == |ws| && forall k | 0 <= k < |ws| :: Finds(mem, ss[k], i + Before(ws, k), ws[k])
  }

  lemma WiresRead(mem: Memory, i: nat, ws: seq<Wire>, quads: nat)
    requires StandsAt(mem, i, WiresQuads(ws)) && (forall w <- ws :: IsWire(w)) && i + |WiresQuads(ws)| <= quads
    ensures SamplesTile(mem, i, |ws|, quads) && FindsAll(mem, SamplesAt(mem, i, |ws|), i, ws)
  {
    forall k | 0 <= k < |ws|
      ensures SampleTiles(mem, SampleStart(mem, i, k), quads)
      ensures Finds(mem, SampleAt(mem, SampleStart(mem, i, k)), i + Before(ws, k), ws[k])
    {
      var at := WireFound(mem, i, ws, quads, k);
    }
    SamplesByNumber(mem, i, |ws|, quads);
  }

  lemma HeaderRead(mem: Memory, p: Packet)
    requires IsPacket(p) && StandsAt(mem, 0, Header(p))
    ensures Quad(mem, 0) == 5 && Quad(mem, 1) == (if |p.address| == 1 then 1 else 2)
    ensures HeaderEnd(mem) == |Header(p)| && ClaimedSamples(mem) == |p.samples|
  {
    var h := Header(p);
    assert h[0] == 5 && h[1] == (if |p.address| == 1 then 1 else 2) && h[|h| - 1] == |p.samples|;
    SliceAt(mem, 0, |h|, 0);
    SliceAt(mem, 0, |h|, 1);
    SliceAt(mem, 0, |h|, |h| - 1);
  }

  /** A datagram of at least 36 bytes that an agent has written is accepted, as far as processing allows, and in
      it exactly its samples are found, each with the contents of the last structure of every wanted kind. */
  lemma PacketIsRead(mem: Memory, p: Packet, len: nat, addressOk: bool)
    requires IsPacket(p) && StandsAt(mem, 0, PacketQuads(p)) && len / 4 == |PacketQuads(p)|
    ensures HeaderOk(mem, len, addressOk) <==> len >= 36 && addressOk
    ensures SamplesTile(mem, HeaderEnd(mem), ClaimedSamples(mem), len / 4)
    ensures FindsAll(mem, SamplesAt(mem, HeaderEnd(mem), ClaimedSamples(mem)), |p.address| + 6, p.samples)
  {
    StandsSplit(mem, 0, Header(p), WiresQuads(p.samples));
    HeaderRead(mem, p);
    WiresRead(mem, |Header(p)|, p.samples, len / 4);
  }

  /** Which of them make a sample worth processing. */
  lemma InterestingExact(o: Offsets, virtual: bool)
    ensures Interesting(o, virtual) <==>
              exists tag <- o :: tag in {2003, 2004, 2005, 2006, 2100, 2106, 2201, 2204} ||
                                 (virtual && tag in {2101, 2102, 2103, 2104})
  {
  }
}
