/** The framing of gmond/sflow.c: a cursor over the 32-bit quads of an sFlow version 5 datagram.
    Reads through the cursor are not checked against the end of the datagram, so memory is a total
    function: whatever lies behind the datagram can be read. */
module SflowFraming {
  import opened Words

  type Memory = nat -> nat

  const VERSION_5: nat := 5
  const COUNTERS_SAMPLE: nat := 2
  const COUNTERS_SAMPLE_EXPANDED: nat := 4
  const MIN_LEN: nat := 36
  const MAX_QUADS: nat := 0x1000_0000  // far above any UDP datagram; keeps 32-bit sums from wrapping

  const HID: nat := 2000
  const MEMCACHE: nat := 2204
  const HTTP: nat := 2201
  const JVM: nat := 2106
  const NVML_GPU: nat := 23359489  // (5703 << 12) + 1
  const WORKERS: nat := 2206

  /** CPU, memory, disk, network and virtual-node counters of a host. */
  predicate IsPhysical(tag: nat) {
    2003 <= tag <= 2006 || tag == 2100
  }

  /** The same of a virtual machine. */
  predicate IsVirtual(tag: nat) {
    2101 <= tag <= 2104
  }

  predicate IsKnown(tag: nat) {
    IsPhysical(tag) || IsVirtual(tag) || tag == HID || tag == MEMCACHE || tag == HTTP || tag == JVM ||
    tag == NVML_GPU || tag == WORKERS
  }

  /** The counter block structures found in one sample, by tag: where their contents start. */
  type Offsets = map<nat, nat>

  /** A host-id structure is not enough for a sample to be processed. */
  predicate Interesting(o: Offsets, virtual: bool) {
    (exists tag <- o :: IsPhysical(tag)) || (virtual && exists tag <- o :: IsVirtual(tag)) ||
    MEMCACHE in o || HTTP in o || JVM in o
  }

  datatype Sample = Sample(start: nat, mark: nat, offsets: Offsets)

  datatype Outcome = Accepted(samples: seq<Sample>) | Rejected(why: string)

  /** SFLOWXDR_more, in 32-bit arithmetic. */
  predicate More(i: nat, q: nat, quads: nat) {
    (q + i) % U32 <= quads
  }

  /** The 32-bit number in host order. */
  function Quad(mem: Memory, i: nat): (q: nat)
    ensures q < U32
  {
    mem(i) % U32
  }

  function Len(mem: Memory, i: nat): (q: nat)
    ensures q < 0x4000_0000
  {
    Quad(mem, i) / 4
  }

  /** No length field is big enough for the 32-bit sum to wrap. */
  lemma MoreIsExact(i: nat, q: nat, quads: nat)
    requires quads < MAX_QUADS && i <= quads + 6 && q < 0x4000_0000
    ensures More(i, q, quads) <==> i + q <= quads
  {
  }

  predicate IsCounter(kind: nat) {
    kind == COUNTERS_SAMPLE || kind == COUNTERS_SAMPLE_EXPANDED
  }

  /** The quads of a counter sample in front of its elements: sequence number, source, count. */
  function Prologue(kind: nat): nat {
    if kind == COUNTERS_SAMPLE_EXPANDED then 4 else 3
  }

  // ---- Exact tiling: RFC 4506 section 4.5 arrays of length-prefixed structures ----

  /** n elements, each a tag, a length and that many quads, fill exactly the range from i to mark. */
  predicate ElementsTile(mem: Memory, i: nat, n: nat, mark: nat)
    decreases n
  {
    if n == 0 then i == mark
    else i + 2 + Len(mem, i + 1) <= mark && ElementsTile(mem, i + 2 + Len(mem, i + 1), n - 1, mark)
  }

  /** The offsets the elements record; the last of several with one tag wins. */
  function ElementOffsets(mem: Memory, i: nat, n: nat, o: Offsets): Offsets
    decreases n
  {
    if n == 0 then o
    else
      var tag := Quad(mem, i);
      ElementOffsets(mem, i + 2 + Len(mem, i + 1), n - 1, if IsKnown(tag) then o[tag := i + 2] else o)
  }

  /** The sample whose header is at i lies inside the datagram, and its elements tile it. */
  predicate SampleTiles(mem: Memory, i: nat, quads: nat) {
    var kind, mark := Quad(mem, i), i + 2 + Len(mem, i + 1);
    mark <= quads &&
    (IsCounter(kind) ==>
      var first := i + 2 + Prologue(kind);
      ElementsTile(mem, first, Quad(mem, first - 1), mark))
  }

  function SampleAt(mem: Memory, i: nat): Sample {
    var kind, mark := Quad(mem, i), i + 2 + Len(mem, i + 1);
    var first := i + 2 + Prologue(kind);
    Sample(i + 2, mark,
           if IsCounter(kind) then ElementOffsets(mem, first, Quad(mem, first - 1), map[]) else map[])
  }

  predicate SamplesTile(mem: Memory, i: nat, n: nat, quads: nat)
    decreases n
  {
    n == 0 || (SampleTiles(mem, i, quads) && SamplesTile(mem, i + 2 + Len(mem, i + 1), n - 1, quads))
  }

  function SamplesAt(mem: Memory, i: nat, n: nat): seq<Sample>
    decreases n
  {
    if n == 0 then [] else [SampleAt(mem, i)] + SamplesAt(mem, i + 2 + Len(mem, i + 1), n - 1)
  }

  // ---- The decoder ----

  /** One round of the loop over the elements, with some left and the sample ending at mark. */
  method OneElement(mem: Memory, quads: nat, i0: nat, o0: Offsets, ghost left: nat, ghost mark: nat)
    returns (ok: bool, i: nat, o: Offsets)
    requires quads < MAX_QUADS && i0 <= quads + 4 && mark <= quads && left > 0
    ensures ok <==> i0 + 2 + Len(mem, i0 + 1) <= quads
    ensures if ok then i0 + 2 <= i <= quads else i0 <= i <= quads + 4
    ensures ElementsTile(mem, i0, left, mark) <==> ok && ElementsTile(mem, i, left - 1, mark)
    ensures ok ==> ElementOffsets(mem, i0, left, o0) == ElementOffsets(mem, i, left - 1, o)
  {
    i, o := i0, o0;
    ElementStep(mem, i, left, mark, o);
    TileStarts(mem, i + 2 + Len(mem, i + 1), left - 1, mark);
    MoreIsExact(i, 2, quads);
    MoreIsExact(i + 2, Len(mem, i + 1), quads);
    if !More(i, 2, quads) {
      return false, i, o;
    }
    var ceTag, ceQuads := Quad(mem, i), Len(mem, i + 1);
    i := i + 2;
    if !More(i, ceQuads, quads) {
      return false, i, o;
    }
    if IsKnown(ceTag) {
      o := o[ceTag := i];
    }
    i := i + ceQuads;
    return true, i, o;
  }

  /** The loop over the elements of one counter sample. */
  method Elements(mem: Memory, quads: nat, i0: nat, n: nat, ghost mark: nat)
    returns (ok: bool, i: nat, o: Offsets, work: nat)
    requires quads < MAX_QUADS && i0 <= quads + 4 && mark <= quads
    ensures ok && i == mark <==> ElementsTile(mem, i0, n, mark)
    ensures ok && i == mark ==> o == ElementOffsets(mem, i0, n, map[])
    ensures i0 <= i <= quads + 4 && i0 + 2 * work <= i
  {
    i := i0;
    o := map[];
    work := 0;
    var e := 0;
    while e < n
      invariant e <= n && i0 <= i <= quads + 4 && i0 + 2 * work <= i
      invariant ElementsTile(mem, i0, n, mark) <==> ElementsTile(mem, i, n - e, mark)
      invariant ElementOffsets(mem, i0, n, map[]) == ElementOffsets(mem, i, n - e, o)
    {
      ok, i, o := OneElement(mem, quads, i, o, n - e, mark);
      if !ok {
        return;
      }
      work := work + 1;
      e := e + 1;
    }
    return true, i, o, work;
  }

  lemma ElementStep(mem: Memory, i: nat, n: nat, mark: nat, o: Offsets)
    requires n > 0
    ensures var tag, next := Quad(mem, i), i + 2 + Len(mem, i + 1);
      (ElementsTile(mem, i, n, mark) <==> next <= mark && ElementsTile(mem, next, n - 1, mark)) &&
      ElementOffsets(mem, i, n, o) == ElementOffsets(mem, next, n - 1, if IsKnown(tag) then o[tag := i + 2] else o)
  {
  }

  lemma {:induction false} TileStarts(mem: Memory, i: nat, n: nat, mark: nat)
    ensures ElementsTile(mem, i, n, mark) ==> i <= mark && (n > 0 ==> i + 2 <= mark)
    decreases n
  {
    if n > 0 {
      TileStarts(mem, i + 2 + Len(mem, i + 1), n - 1, mark);
    }
  }

  predicate SampleAccepted(mem: Memory, i: nat, quads: nat, virtual: bool, processed: Sample -> bool) {
    SampleTiles(mem, i, quads) && (Interesting(SampleAt(mem, i).offsets, virtual) ==> processed(SampleAt(mem, i)))
  }

  /** A counter sample, of the given length, behind its header. */
  method CounterSample(mem: Memory, quads: nat, i0: nat, virtual: bool, processed: Sample -> bool)
    returns (ok: bool, i: nat, s: Sample, work: nat)
    requires quads < MAX_QUADS && IsCounter(Quad(mem, i0)) && i0 + 2 + Len(mem, i0 + 1) <= quads
    ensures ok <==> SampleAccepted(mem, i0, quads, virtual, processed)
    ensures ok ==> s == SampleAt(mem, i0) && i == s.mark
    ensures i0 + 2 + 2 * work <= i <= quads + 4
  {
    var sType, sMark := Quad(mem, i0), i0 + 2 + Len(mem, i0 + 1);
    i := i0 + 2 + Prologue(sType);
    var csElements := Quad(mem, i - 1);
    var o;
    ok, i, o, work := Elements(mem, quads, i, csElements, sMark);
    s := Sample(i0 + 2, sMark, o);
    if !ok {
      return;
    }
    if Interesting(o, virtual) && !processed(s) {
      return false, i, s, work;
    }
    ok := i == sMark;
  }

  /** One sample; processed stands for processCounterSample, which can fail and restores the cursor. */
  method OneSample(mem: Memory, quads: nat, i0: nat, virtual: bool, processed: Sample -> bool)
    returns (ok: bool, i: nat, s: Sample, work: nat)
    requires quads < MAX_QUADS && i0 <= quads + 1
    ensures ok <==> SampleAccepted(mem, i0, quads, virtual, processed)
    ensures ok ==> s == SampleAt(mem, i0) && i == i0 + 2 + Len(mem, i0 + 1) <= quads && i0 + 2 * work + 2 <= i
    ensures i0 + 2 * work <= quads + 4
  {
    var sType, sQuads := Quad(mem, i0), Len(mem, i0 + 1);
    i := i0 + 2;
    s := Sample(i, i + sQuads, map[]);
    work := 0;
    MoreIsExact(i, sQuads, quads);
    if !More(i, sQuads, quads) {
      return false, i, s, work;
    }
    if IsCounter(sType) {
      ok, i, s, work := CounterSample(mem, quads, i0, virtual, processed);
    } else {
      i := i + sQuads;
      ok := true;
    }
  }

  predicate AllProcessed(ss: seq<Sample>, virtual: bool, processed: Sample -> bool) {
    forall s <- ss :: Interesting(s.offsets, virtual) ==> processed(s)
  }

  predicate AllAccepted(mem: Memory, i: nat, n: nat, quads: nat, virtual: bool, processed: Sample -> bool)
    decreases n
  {
    n == 0 || (SampleAccepted(mem, i, quads, virtual, processed) &&
               AllAccepted(mem, i + 2 + Len(mem, i + 1), n - 1, quads, virtual, processed))
  }

  lemma {:induction false} AcceptedTileAndProcess(mem: Memory, i: nat, n: nat, quads: nat,
      virtual: bool, processed: Sample -> bool)
    ensures AllAccepted(mem, i, n, quads, virtual, processed) <==>
              SamplesTile(mem, i, n, quads) && AllProcessed(SamplesAt(mem, i, n), virtual, processed)
    decreases n
  {
    if n > 0 {
      var s, rest := SampleAt(mem, i), SamplesAt(mem, i + 2 + Len(mem, i + 1), n - 1);
      AcceptedTileAndProcess(mem, i + 2 + Len(mem, i + 1), n - 1, quads, virtual, processed);
      assert ([s] + rest)[0] == s && forall x <- rest :: x in [s] + rest;
    }
  }

  /** The loop over the samples. */
  method Samples(mem: Memory, quads: nat, first: nat, n: nat, virtual: bool, processed: Sample -> bool)
    returns (ok: bool, samples: seq<Sample>, work: nat)
    requires quads < MAX_QUADS && first <= quads + 1
    ensures ok <==> AllAccepted(mem, first, n, quads, virtual, processed)
    ensures ok ==> samples == SamplesAt(mem, first, n)
    ensures first + 2 * work <= quads + 4
  {
    samples := [];
    work := 0;
    var i := first;
    var k := 0;
    while k < n
      invariant k <= n && i <= quads + 1 && first + 2 * work <= i
      invariant AllAccepted(mem, first, n, quads, virtual, processed) <==>
                  AllAccepted(mem, i, n - k, quads, virtual, processed)
      invariant SamplesAt(mem, first, n) == samples + SamplesAt(mem, i, n - k)
    {
      var next, s, more;
      ok, next, s, more := OneSample(mem, quads, i, virtual, processed);
      work := work + more;
      if !ok {
        return;
      }
      ghost var rest := SamplesAt(mem, next, n - k - 1);
      assert SamplesAt(mem, i, n - k) == [s] + rest && samples + ([s] + rest) == samples + [s] + rest;
      work := work + 1;
      samples := samples + [s];
      i := next;
      k := k + 1;
    }
    ok := true;
  }

  /** process_sflow_datagram. addressOk tells whether the agent address can be printed. */
  method Decode(mem: Memory, len: nat, addressOk: bool, virtual: bool, processed: Sample -> bool)
    returns (r: Outcome, work: nat)
    requires len / 4 < MAX_QUADS
    ensures r.Accepted? <==>
      (HeaderOk(mem, len, addressOk) && SamplesTile(mem, HeaderEnd(mem), ClaimedSamples(mem), len / 4) &&
       AllProcessed(SamplesAt(mem, HeaderEnd(mem), ClaimedSamples(mem)), virtual, processed))
    ensures r.Accepted? ==> r.samples == SamplesAt(mem, HeaderEnd(mem), ClaimedSamples(mem))
    ensures 2 * work <= len / 4 + 4
  {
    work := 0;
    if len < MIN_LEN {
      return Rejected("sFlow datagram too short"), work;
    }
    if Quad(mem, 0) != VERSION_5 {
      return Rejected("sFlow version must be 5"), work;
    }
    var i: nat;
    if Quad(mem, 1) == 1 {
      i := 3;
    } else if Quad(mem, 1) == 2 {
      i := 6;
    } else {
      return Rejected("bad agent address type"), work;
    }
    if !addressOk {
      return Rejected("sFlow agent address format error"), work;
    }
    i := i + 4;
    var n := Quad(mem, i - 1);
    var ok, samples;
    ok, samples, work := Samples(mem, len / 4, i, n, virtual, processed);
    AcceptedTileAndProcess(mem, i, n, len / 4, virtual, processed);
    r := if ok then Accepted(samples) else Rejected("parse error");
  }

  predicate HeaderOk(mem: Memory, len: nat, addressOk: bool) {
    len >= MIN_LEN && Quad(mem, 0) == VERSION_5 && (Quad(mem, 1) == 1 || Quad(mem, 1) == 2) && addressOk
  }

  /** The first sample follows version, address, sub-agent, sequence number, uptime and count. */
  function HeaderEnd(mem: Memory): (i: nat)
    ensures i >= 7
  {
    if Quad(mem, 1) == 1 then 7 else 10
  }

  function ClaimedSamples(mem: Memory): nat {
    Quad(mem, HeaderEnd(mem) - 1)
  }

  // ---- What acceptance means ----

  /** The claimed number of elements is backed by the quads of the sample. */
  lemma {:induction false} ElementsAreBacked(mem: Memory, i: nat, n: nat, mark: nat)
    requires ElementsTile(mem, i, n, mark)
    ensures i + 2 * n <= mark
    decreases n
  {
    if n > 0 {
      ElementsAreBacked(mem, i + 2 + Len(mem, i + 1), n - 1, mark);
    }
  }

  /** Every recorded offset is the start of a structure that lies inside the sample and carries its tag. */
  ghost predicate OffsetsInside(mem: Memory, o: Offsets, start: nat, mark: nat) {
    forall tag <- o ::
      start + 2 <= o[tag] && o[tag] + Len(mem, o[tag] - 1) <= mark && Quad(mem, o[tag] - 2) == tag
  }

  lemma OffsetRecorded(mem: Memory, o: Offsets, start: nat, mark: nat, i: nat, tag: nat)
    requires OffsetsInside(mem, o, start, mark)
    requires start <= i && i + 2 + Len(mem, i + 1) <= mark && tag == Quad(mem, i)
    ensures OffsetsInside(mem, o[tag := i + 2], start, mark)
  {
  }

  lemma {:induction false} ElementOffsetsInside(mem: Memory, i: nat, n: nat, start: nat, mark: nat, o: Offsets)
    requires ElementsTile(mem, i, n, mark) && start <= i && OffsetsInside(mem, o, start, mark)
    ensures OffsetsInside(mem, ElementOffsets(mem, i, n, o), start, mark)
    decreases n
  {
    if n > 0 {
      var tag := Quad(mem, i);
      var o' := if IsKnown(tag) then o[tag := i + 2] else o;
      TileStarts(mem, i + 2 + Len(mem, i + 1), n - 1, mark);
      OffsetRecorded(mem, o, start, mark, i, tag);
      ElementOffsetsInside(mem, i + 2 + Len(mem, i + 1), n - 1, start, mark, o');
    }
  }

  /** Where element number k of a sample starts. */
  function ElementStart(mem: Memory, i: nat, k: nat): nat
    decreases k
  {
    if k == 0 then i else ElementStart(mem, i + 2 + Len(mem, i + 1), k - 1)
  }

  function ElementTag(mem: Memory, i: nat, k: nat): nat {
    Quad(mem, ElementStart(mem, i, k))
  }

  /** Every structure of a known kind is recorded; of several of one kind, the last. */
  lemma {:induction false} LastOfKindIsRecorded(mem: Memory, i: nat, n: nat, o: Offsets, k: nat)
    requires k < n && IsKnown(ElementTag(mem, i, k))
    requires forall m | k < m < n :: ElementTag(mem, i, m) != ElementTag(mem, i, k)
    ensures ElementTag(mem, i, k) in ElementOffsets(mem, i, n, o)
    ensures ElementOffsets(mem, i, n, o)[ElementTag(mem, i, k)] == ElementStart(mem, i, k) + 2
    decreases n
  {
    var tag, next := Quad(mem, i), i + 2 + Len(mem, i + 1);
    var o' := if IsKnown(tag) then o[tag := i + 2] else o;
    forall m | 0 <= m < n - 1
      ensures ElementTag(mem, next, m) == ElementTag(mem, i, m + 1)
    {
    }
    if k > 0 {
      LastOfKindIsRecorded(mem, next, n - 1, o', k - 1);
    } else {
      OthersKeep(mem, next, n - 1, o', tag);
    }
  }

  lemma {:induction false} OthersKeep(mem: Memory, i: nat, n: nat, o: Offsets, tag: nat)
    requires tag in o && forall m | 0 <= m < n :: ElementTag(mem, i, m) != tag
    ensures tag in ElementOffsets(mem, i, n, o) && ElementOffsets(mem, i, n, o)[tag] == o[tag]
    decreases n
  {
    if n > 0 {
      var first, next := Quad(mem, i), i + 2 + Len(mem, i + 1);
      assert ElementTag(mem, i, 0) == first;
      forall m | 0 <= m < n - 1
        ensures ElementTag(mem, next, m) != tag
      {
        assert ElementTag(mem, i, m + 1) == ElementTag(mem, next, m);
      }
      OthersKeep(mem, next, n - 1, if IsKnown(first) then o[first := i + 2] else o, tag);
    }
  }

  /** A sample ends where its own length field says, and records only structures inside it. */
  ghost predicate Framed(mem: Memory, s: Sample) {
    s.start >= 2 && s.mark == s.start + Len(mem, s.start - 1) && OffsetsInside(mem, s.offsets, s.start, s.mark)
  }

  lemma SampleIsFramed(mem: Memory, i: nat, quads: nat)
    requires SampleTiles(mem, i, quads)
    ensures Framed(mem, SampleAt(mem, i))
  {
    var kind := Quad(mem, i);
    if IsCounter(kind) {
      var first := i + 2 + Prologue(kind);
      ElementOffsetsInside(mem, first, Quad(mem, first - 1), i + 2, i + 2 + Len(mem, i + 1), map[]);
    }
  }

  /** Samples lie one behind the other, from quad i on. */
  predicate Consecutive(ss: seq<Sample>, i: nat) {
    (|ss| > 0 ==> ss[0].start == i + 2) && forall k | 0 < k < |ss| :: ss[k].start == ss[k - 1].mark + 2
  }

  /** In an accepted datagram there are as many samples as it claims, one behind the other inside it,
      and every recorded offset lies inside its own sample. */
  lemma {:induction false} AcceptedIsFramed(mem: Memory, i: nat, n: nat, quads: nat)
    requires SamplesTile(mem, i, n, quads)
    ensures var ss := SamplesAt(mem, i, n);
      |ss| == n && Consecutive(ss, i) && (forall s <- ss :: Framed(mem, s)) &&
      (n > 0 ==> i + 2 * n <= ss[n - 1].mark <= quads)
    decreases n
  {
    if n > 0 {
      var mark := i + 2 + Len(mem, i + 1);
      SampleIsFramed(mem, i, quads);
      AcceptedIsFramed(mem, mark, n - 1, quads);
      var first, rest := SampleAt(mem, i), SamplesAt(mem, mark, n - 1);
      PrependSample(first, rest, i);
      assert SamplesAt(mem, i, n) == [first] + rest && forall s <- [first] + rest :: s == first || s in rest;
      assert n > 1 ==> ([first] + rest)[n - 1] == rest[n - 2];
    }
  }

  lemma PrependSample(s: Sample, rest: seq<Sample>, i: nat)
    requires s.start == i + 2 && Consecutive(rest, s.mark)
    ensures Consecutive([s] + rest, i)
  {
    var ss := [s] + rest;
    forall k | 0 < k < |ss|
      ensures ss[k].start == ss[k - 1].mark + 2
    {
      assert ss[k] == rest[k - 1];
      assert k > 1 ==> ss[k - 1] == rest[k - 2];
    }
  }

  /** A count field cannot make the decoder accept more than fits. */
  lemma CountsAreBacked(mem: Memory, i: nat, n: nat, quads: nat)
    requires SamplesTile(mem, i, n, quads)
    ensures n > 0 ==> i + 2 * n <= quads
    ensures n > 0 && IsCounter(Quad(mem, i)) ==>
              var first := i + 2 + Prologue(Quad(mem, i));
              first + 2 * Quad(mem, first - 1) <= i + 2 + Len(mem, i + 1)
  {
    AcceptedIsFramed(mem, i, n, quads);
    if n > 0 && IsCounter(Quad(mem, i)) {
      var first := i + 2 + Prologue(Quad(mem, i));
      ElementsAreBacked(mem, first, Quad(mem, first - 1), i + 2 + Len(mem, i + 1));
    }
  }
}
