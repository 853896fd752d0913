# Ganglia: a verified model of gmond and gmetad

Ganglia collects metrics on every host with a daemon, gmond, and aggregates them with a second
daemon, gmetad, that polls gmonds and other gmetads. This project models the parts of both in which
correctness is hard to see and proves what they are for. `dafny verify dfyconfig.toml` checks all of it.

| module | models |
|---|---|
| `ReaderWriterLock` | the reader/writer lock of `lib/rdwr.c`, as events of any set of threads |
| `HashIndex`, `Chains`, `HashTable` | the chained hash table of `lib/hash.c`: bucket numbers, what its operations mean, and the nodes in memory |
| `Cleanup` | the expiry sweep of `gmetad/cleanup.c` |
| `SummaryPoll`, `RootSummary` | a poll of one source (`gmetad/process_xml.c`) and the pass that folds the sources into the root (`gmetad/gmetad.c`) |
| `PollTotals` | what a poll publishes, on the attributes of its tags alone |
| `XmlReport` | the query engine of `gmetad/server.c`, with the DTD of `gmond/dtd.h` |
| `XmlDocument` | the documents it answers with, written down level by level |
| `StringArena`, `CStrings` | the string buffers of gmetad's structures, and their way through the hash table |
| `CircuitBreaker` | the Riemann circuit breaker (`gmetad/circuit_breaker.c`) and its senders (`gmetad/export_helpers.c`) |
| `Scheduler`, `XmlEscape` | the collection groups and the XML escaper of `gmond/gmond.c` |
| `SflowFraming`, `SflowDeltas` | the sFlow version 5 decoder and its counter differences (`gmond/sflow.c`) |
| `SflowWire` | sFlow datagrams as an agent writes them |
| `Getopt`, `LinkedList` | the argument permutation of `lib/getopt.c` and the list of `lib/llist.c` |
| `CommandLines` | what command lines say, word by word |
| `Base`, `Words` | an option type; bits and remainders of natural numbers |

Code that changes state is a class or a method over an array, proved against functions and relations
on plain values; the properties are lemmas about those. Where such a function is itself a reading of the code, a
second description that shares nothing with it says what comes out (`CommandLines`, `PollTotals`, `XmlDocument`,
`SflowWire`, and the lemmas whose names end in `Exact`). Protocols are relations between states, and
their properties hold for every run. Integers wrap where the source's do and it matters. Doubles are
real numbers.

## Where the code does less than it says

Each of these is a lemma below, with the exact condition under which the code does what it is for.

- `hash_create` rounds right for every size up to 2^32, but its shifts cover a window of 32 bits: for
  a size such as 2^40 + 1 the result is no power of two (`RoundingExact`).
- `xml_escape` appends an entity with a limit that is 7 less than the buffer, so a buffer of 7 to 12
  bytes can get half an entity; from 13 on it never does (`XmlEscape.BigEnough`). The length it returns then
  counts the whole entity (`XmlEscape.Finished`). Characters of 127 and more become references that cannot be
  read. Exactly if there is such a character, or an entity is cut behind its `&`, the text cannot be unescaped
  (`UnreadableExact`) and markup stands in it that is part of no reference (`StrayMarkup`).
- A METRICS tag changes the table that readers see while the poll is still running
  (`PublishedChangesExactly`), METRICS tags of one name do not add up there (`LastWriteExact`), and the swap
  at the end of the poll loses them all (`MetricsTagsAreLost`).
- A group that wants to be sent at once and fails is overlooked, with its next collection, when the next
  wake-up time is computed, because 0 also means "not set" there (`MinLoopExact`, `ReturnedTimeExact`,
  `FailedSendIsOverlooked`).
- The flag that allows counter differences belongs to the datagram: one source out of step silences all
  later sources of its datagram (`SentExactlyForContinuations`). A counter block that first appears in a
  later sample has its whole reading submitted as a difference (`LateBlockSendsWholeReading`).
- A connection that the Riemann server closes starts no retry timer, so the next attempt can begin at once
  (`RetryExact`).
- Unlocking a read lock that one does not hold is noticed only while no reader holds the lock
  (`ReadUnlockDiscipline`), and unlocking a write lock only while no writer does (`WriteUnlockDiscipline`).
- Scanning the permuted arguments of getopt again can read them differently, if an option at the end of the
  line lacked its argument (`RescanExact`).

Two more differences are between the code and its own comments and calls, and have no lemma: the comment at
`lib/hash.c:76-79` speaks of the nearest power of two, and the code takes the next one up;
`gmetad/process_xml.c:325-326` asks the host table to ignore case, and `hash_keycmp` does not read the flag.

## Model

| member | source | states |
|---|---|---|
| `ReaderWriterLock.LockSafety` | lib/rdwr.c:26-89 | In every interleaving of threads that unlock what they hold: at most one writer, no writer beside a reader, and the counter is the number of read-lock holders. |
| `ReaderWriterLock.NoLostWakeup` | lib/rdwr.c:27-89 | In every reachable state, a thread that sleeps although the lock would admit it is accompanied by a woken thread that has still to test; while no writer holds the lock only writers sleep, so one signal is enough. |
| `ReaderWriterLock.EveryoneIsServed` | lib/rdwr.c:27-89 | From any reachable state every schedule of the remaining threads stops, and where it stops nobody is left waiting or holding. |
| `ReaderWriterLock.NoDeadlock` | lib/rdwr.c:27-89 | While some thread is not at rest, some thread can test or unlock. |
| `ReaderWriterLock.MeasureDecreases` | lib/rdwr.c:27-89 | Every test and every unlock brings the threads nearer to rest. |
| `ReaderWriterLock.ReadUnlockDiscipline` | lib/rdwr.c:40-58 | A read unlock keeps the invariant exactly when it fails or the caller holds a read lock. |
| `ReaderWriterLock.ReadUnlockWitness` | lib/rdwr.c:40-58 | A witness: after a read unlock by a thread that holds nothing, a writer gets in beside a reader. |
| `ReaderWriterLock.WriteUnlockDiscipline` | lib/rdwr.c:73-89 | A write unlock keeps the invariant exactly when it fails or the caller holds the write lock. |
| `ReaderWriterLock.WriteUnlockWitness` | lib/rdwr.c:73-89 | A witness: after a write unlock by a thread that holds nothing, two threads hold the write lock. |
| `ReaderWriterLock.InvStep` | lib/rdwr.c:27-89 | Each section under the mutex, and each spurious wakeup, keeps the exclusion, who may sleep, and that no sleeper is stranded. |
| `ReaderWriterLock.RunKeepsInv` | lib/rdwr.c:27-89 | The invariant holds in every state of every run. |
| `ReaderWriterLock.Lock.ReadLockPass` | lib/rdwr.c:26-37 | One pass of the reader's loop is the test event of the protocol. |
| `ReaderWriterLock.Lock.WriteLockPass` | lib/rdwr.c:60-71 | One pass of the writer's loop is the test event of the protocol. |
| `ReaderWriterLock.Lock.ReadUnlock` | lib/rdwr.c:39-58 | Fails on a free counter; else gives the lock back, and the last reader signals. |
| `ReaderWriterLock.Lock.WriteUnlock` | lib/rdwr.c:73-89 | Fails without a writer; else gives the lock back and wakes every sleeper. |
| `HashIndex.RoundSize` | lib/hash.c:80-87 | The statements of hash_create, on 64-bit words, yield the least power of two that holds the size exactly if the size is 1 to 2^63 and size - 1 has no run of 32 zero bits below its highest bit. |
| `HashIndex.RoundingExact` | lib/hash.c:80-87 | The result is the least power of two that holds the size if and only if the size is 1 to 2^63 and size - 1 has no run of 32 zero bits below its highest bit. |
| `HashIndex.RoundingUpTo32Bits` | lib/hash.c:80-87 | It is the least power of two for every size from 1 to 2^32. |
| `HashIndex.RoundingFailsBeyond` | lib/hash.c:80-87 | It is not for 2^40 + 1. |
| `HashIndex.HashKey` | lib/hash.c:168-189 | The loop computes the 64-bit FNV-1a hash of the key from offset 0. |
| `HashIndex.FnvByte` | lib/hash.c:166-189 | The hash of the empty key is 0; one more byte flips its set bits and the result is multiplied by 1099511628211 modulo 2^64. |
| `HashIndex.HashValIsMod` | lib/hash.c:191-196 | In a table of a rounded size the mask is the remainder, so the bucket exists. |
| `HashIndex.KeyCmpExact` | lib/hash.c:198-202 | Two keys compare equal exactly when their lengths agree and they agree up to the first NUL. |
| `HashIndex.KeyCmpIsEquality` | lib/hash.c:198-202 | On C strings with their terminator the comparison is equality. |
| `Chains.InsertRefinesMap` | lib/hash.c:204-294 | On tables whose chains hold distinct keys of their bucket, an insert changes the finite map at its key only, to the new bytes with the tail of a longer old value behind them, and keeps the placement. |
| `Chains.OverlayExact` | lib/hash.c:247-262 | The stored value is as long as the longer of the old and the new one, begins with the new bytes and goes on with the old ones. |
| `Chains.InsertExact` | lib/hash.c:214-293 | In one chain, entry by entry: a new key comes second, or first in an empty chain; storing to a known key keeps the place and overlays the value. |
| `Chains.RemoveRefinesMap` | lib/hash.c:329-386 | A delete removes the key from the finite map, returns its value, and keeps the placement. |
| `Chains.FlattenDistinct` | lib/hash.c:131-154 | The entries of a table, in walk order, have distinct keys. |
| `Chains.FlattenRepresents` | lib/hash.c:414-433 | A walk meets exactly the entries of the finite map. |
| `Chains.WalkStep` | lib/hash.c:392-412 | The first entry a walk stops at is the first in its start bucket, else the first of the walk from the next one. |
| `Chains.FirstHitExact` | lib/hash.c:414-433 | A walk stops at an entry that asks for it with none in front of it that does. |
| `HashTable.HashTable.constructor` | lib/hash.c:60-129 | For every size that is rounded right, a new table stands for the empty map and has the least power of two of buckets. |
| `HashTable.HashTable.Insert` | lib/hash.c:204-294 | In memory: a new key gets the value; a known one a value as long as the longer of the two, new bytes in front and the old tail behind; nothing else changes. |
| `HashTable.HashTable.Find` | lib/hash.c:296-327 | Returns what the map holds for the key. |
| `HashTable.HashTable.Delete` | lib/hash.c:329-386 | Removes the key from the map and returns what it held. |
| `HashTable.HashTable.WalkFrom` | lib/hash.c:388-433 | Stops at the first entry, from the given bucket on, that the callback asks for. |
| `HashTable.HashTable.Destroy` | lib/hash.c:131-154 | Frees every stored value exactly once and empties every bucket. |
| `HashTable.Bucket.Insert` | lib/hash.c:214-293 | In one chain: an unused head is filled, an existing entry overlaid in place, a new one put behind the head; `Chains.InsertExact` says what that is. |
| `HashTable.Bucket.Delete` | lib/hash.c:339-385 | In one chain: removes the entry; deleting the head copies the second node up and leaves that node itself as it was. |
| `HashTable.Bucket.Lookup` | lib/hash.c:307-326 | In one chain: the value of the key, if there is one. |
| `HashTable.Bucket.DrainStep` | lib/hash.c:140-148 | One round frees the entry in the head slot; the node saved as next then says what the head slot says. |
| `HashTable.Bucket.Drain` | lib/hash.c:140-148 | Although every delete changes the head under the iteration, the loop frees all entries of the bucket, each once, in order. |
| `Cleanup.SweepMetrics` | gmetad/cleanup.c:101-113 | The loop that resumes at the bucket of the last deletion leaves exactly the metrics that are not expired. |
| `Cleanup.SweepTable` | gmetad/cleanup.c:101-113 | In memory, on the linked nodes of the hash table, for any test on its entries: the same loop leaves exactly the entries of the map that pass, allocates nothing and keeps the table intact. |
| `Cleanup.DeleteHit` | gmetad/cleanup.c:106-111 | In memory: deleting what the walk has found keeps all entries that are to stay and leaves none that is to go below the new hint. |
| `Cleanup.WalkOnMap` | lib/hash.c:392-412 | A walk stops at an entry of the map that is to be deleted, and no such entry lies in the buckets it has passed; it finds none only if there is none from its first bucket on. |
| `Cleanup.WalkMetrics` | gmetad/cleanup.c:103-104 | A walk from a bucket stops at the first expired metric from there on, and at none only if there is none. |
| `Cleanup.WalkHosts` | gmetad/cleanup.c:79-117 | A walk sweeps the metrics of every host it passes and stops at the first expired host; the buckets it has passed are clean. |
| `Cleanup.SweepHosts` | gmetad/cleanup.c:158-179 | The host loop leaves exactly the hosts that are not expired, each with exactly its metrics that are not. |
| `Cleanup.SweepSource` | gmetad/cleanup.c:120-183 | One source: its current summary and its hosts are swept; a grid has no hosts. |
| `Cleanup.SourceSwept` | gmetad/cleanup.c:59-183 | On the numbers: after one source its summary has exactly the metrics with no DMAX or now at most birth time plus DMAX; a host is there exactly if that holds of it, with exactly its metrics of which it holds. |
| `Cleanup.MetricsSwept` | gmetad/cleanup.c:59-113 | The same for one metric table. |
| `Cleanup.SweepRoot` | gmetad/cleanup.c:200-224 | Every source is swept once and none is deleted. |
| `Cleanup.KeepExactly` | gmetad/cleanup.c:69-75 | All and only the entries with a DMAX that they are older than go. |
| `Cleanup.DeleteDead` | gmetad/cleanup.c:106-111 | A deletion keeps what the sweep should leave, shrinks the table, and leaves no expired entry below the new hint. |
| `Cleanup.SweepRefinesMap` | gmetad/cleanup.c:59-76 | On the finite map, a sweep is the restriction to the entries that are not expired. |
| `Cleanup.HostSweepRefinesMap` | gmetad/cleanup.c:79-117 | On the finite map of hosts, a sweep is the restriction to the living hosts, each with its metrics swept. |
| `SummaryPoll.PollConservation` | gmetad/process_xml.c:276-441 | After the closing tag, the published sum and count of every metric are those of the poll's METRIC tags that count (numeric, living host, not past DMAX where this gmetad is the authority), and the published host counts are the living and the dead hosts of the poll. |
| `PollTotals.PublishedOnNumbers` | gmetad/process_xml.c:276-812 | A whole poll on the attributes of its tags: published sums and counts are those of the METRIC tags of the eight numeric types that stand in a living host and are not past their DMAX where this gmetad is the authority; published host counts are the HOST positions with the inequalities above plus what HOSTS tags announce. |
| `SummaryPoll.EveryHostCountsOnce` | gmetad/process_xml.c:434-441 | The living and the dead hosts together are the HOST tags plus what HOSTS tags announce. |
| `SummaryPoll.PublishedUntouched` | gmetad/process_xml.c:614-812 | At every point of a poll without METRICS tags, or of a gmetad that is not scalable, every source readers can see and its published table are what they were before it; otherwise every source but the polled one. |
| `SummaryPoll.PublishedChangesExactly` | gmetad/process_xml.c:963-1049 | At every point of a poll, a name is in the published table of the polled source exactly if it was before or a METRICS tag that writes has brought it; its entry is what the last such tag writes, for every type known or unknown, or else what it was. |
| `SummaryPoll.PublishedStandsExactly` | gmetad/process_xml.c:1043-1044 | The published table as a whole stands exactly if for every name the last METRICS tag to write it writes what it held, stated on the tags alone. |
| `SummaryPoll.InnerPublished` | gmetad/process_xml.c:1009-1044 | One tag changes the published table by its own write and not otherwise. |
| `SummaryPoll.LastWriteExact` | gmetad/process_xml.c:1009-1037 | A name is written exactly if this gmetad is scalable and some METRICS tag has that name and a known type, or a name new to the poll. The last one decides: to a known name it writes the METRIC tags so far plus its own count and, if numeric, its sum; to a new name its own sum, count and type, no sum for a string, and an empty entry for an unknown type. |
| `SummaryPoll.PendingNames` | gmetad/process_xml.c:752-808 | A name is in the pending table exactly if it was before or a METRIC tag that counts has brought it, with the type of the first one. |
| `SummaryPoll.MetricsTagsAreLost` | gmetad/process_xml.c:1211-1302 | For every poll: what it publishes is what it would have published without its METRICS tags. |
| `SummaryPoll.PollKeepsOthers` | gmetad/process_xml.c:1211-1302 | A whole poll leaves every other source and its published table alone, and no two tables become shared. |
| `SummaryPoll.MetricsTagIsLost` | gmetad/process_xml.c:1009-1044 | A witness: a METRICS tag shows in the published table during the poll, and the table published at its end does not have it. |
| `SummaryPoll.BodyKeeps` | gmetad/process_xml.c:579-812 | Between opening and closing tag the pending table holds what the tags so far add up to. |
| `SummaryPoll.RunKeepsNumeric` | gmetad/process_xml.c:668-675 | The entries of a name in the summary tables stay numeric, as long as METRICS tags of the name are numeric. |
| `SummaryPoll.TypeNames` | gmetad/process_xml.c:668-675 | The ten type names, and which eight are numeric. |
| `SummaryPoll.XmlData.Process` | gmetad/process_xml.c:1089-1145 | The handlers together compute the run of the event machine. |
| `SummaryPoll.XmlData.StartGrid` | gmetad/process_xml.c:159-274 | A GRID tag at depth 0 opens its source; nested ones only count. |
| `SummaryPoll.XmlData.StartCluster` | gmetad/process_xml.c:276-396 | A CLUSTER tag opens its source only at depth 0. |
| `SummaryPoll.XmlData.EndGrid` | gmetad/process_xml.c:1211-1259 | The outermost closing GRID tag swaps the tables and stores the source. |
| `SummaryPoll.XmlData.EndCluster` | gmetad/process_xml.c:1262-1302 | A closing CLUSTER tag at depth 0 does the same. |
| `SummaryPoll.XmlData.StartHost` | gmetad/process_xml.c:398-441 | Counts the host as living if its TN is below four times its TMAX, or, in a stream from before 2.5 or without TMAX, if it reported within a minute of the clock of the source; else as dead. |
| `SummaryPoll.XmlData.StartHosts` | gmetad/process_xml.c:579-611 | Adds announced hosts in scalable mode. |
| `SummaryPoll.XmlData.StartMetric` | gmetad/process_xml.c:614-812 | Adds a metric to the pending summary under the conditions of the code. |
| `SummaryPoll.XmlData.StartMetrics` | gmetad/process_xml.c:963-1049 | Reads the pending table and writes the current one. |
| `RootSummary.TwoLevelsAreFlat` | gmetad/gmetad.c:143-264 | Folding per source and then over the live sources equals one flat fold over every counted METRIC tag of every live source: values add up, counts count. |
| `RootSummary.RootShowsLatestPolls` | gmetad/gmetad.c:602-618 | End to end: after any run of polls of any sources from numeric entries of a name, with numeric METRICS tags of it, a root pass gives it the sum and the number of the METRIC tags that count in the latest poll of every live source, and the root the living and dead hosts of those polls. |
| `RootSummary.LatestPollShows` | gmetad/process_xml.c:1211-1302 | What a source shows is its latest poll, however many polls of other sources came since. |
| `RootSummary.RunStaysNumeric` | gmetad/process_xml.c:963-1049 | Through any run of polls with numeric METRICS tags of a name, its entries stay numeric. |
| `RootSummary.FoldIsTotal` | gmetad/gmetad.c:158-210 | Folded into a table of zeros, a metric that every live source has with a numeric type ends with the totals, whether the root had it or not. |
| `RootSummary.FoldOfWords` | gmetad/gmetad.c:158-210 | Strings and timestamps are counted, and what the root has of them keeps the value 0. |
| `RootSummary.Root.Pass` | gmetad/gmetad.c:602-618 | Whatever the root held before, one pass folds the live sources into its zeroed table, which leaves the totals in every numeric metric and in the host counts. |
| `RootSummary.Root.AddChild` | gmetad/gmetad.c:214-264 | One live source is folded into the root, entry by entry, whatever their types; a dead one adds nothing. |
| `RootSummary.Root.SumMetrics` | gmetad/gmetad.c:158-210 | A new metric is copied; a known one gains value and count if numeric, the count if of another known type, and else nothing; no other changes. |
| `RootSummary.Root.ZeroOutAll` | gmetad/gmetad.c:142-154 | All values and counts become 0 and no metric is lost. |
| `RootSummary.CountedIsSum` | gmetad/gmetad.c:158-210 | The sum and count of a poll are those of the list of values that count. |
| `XmlReport.ResponseIsValid` | gmetad/server.c:407-658 | For every tree, path, filter and kind of client the response is well nested and its element content obeys the DTD. |
| `XmlReport.FullMatch` | gmetad/server.c:553-650 | A fully matched path yields exactly the ancestors' tags around the full report of the selected node. |
| `XmlReport.CutAtUnmatched` | gmetad/server.c:612-625 | A path that runs on below a node without children, or for a client without HTTP at an element that is not found, gives the output of the path cut there. |
| `XmlReport.HttpUnmatched` | gmetad/server.c:634-638 | For an HTTP client an element that is not found at any depth, unless it is the wildcard, leaves the tags of the nodes found before it around nothing. |
| `XmlReport.WildcardIsEveryChild` | gmetad/server.c:626-633 | The wildcard gives what naming every child in turn gives. |
| `XmlReport.EarlyStopLosesNothing` | gmetad/server.c:523-546 | Stopping the walk at the first node the filter does not apply to loses no output. |
| `XmlReport.ClusterReport` | gmetad/server.c:523-546 | Without a filter a cluster's report lists its hosts, and in them the metrics not past their DMAX, in order and nothing else. |
| `XmlReport.SummaryReport` | gmetad/server.c:466-490 | A grid always, and a cluster under the filter, is reported by its host counts and its summary of metrics of known type, without hosts. |
| `XmlDocument.AnswerIsDocument` | gmetad/server.c:523-651 | The whole answer to the path of any node of the tree, under either filter and for either kind of client, token by token: the tags of its ancestors around its own and everything it is to hold. |
| `XmlDocument.ContentIsReported` | gmetad/server.c:523-577 | What stands between the tags of any node, under either filter, token by token. |
| `XmlDocument.RootNames` | gmetad/server.c:523-577 | The answer to "/" lists the clusters, the root and the grids; without a filter all hosts of the clusters with their metrics not past their DMAX and the summaries of the grids; with it no host, and the summaries of the root and of every source; each in order. |
| `StringArena.Strings.AddString` | gmetad/gmetad.c:118-139 | Writes the string and its terminator behind the edge if they fit, else fails and changes nothing. |
| `StringArena.Strings.GetField` | gmetad/gmetad.c:108-116 | A negative index reads "unspecified", another one the string that starts there. |
| `StringArena.EveryOffsetReadsBack` | gmetad/gmetad.c:108-139 | After any run of addstring every returned offset still reads back its own string inside the used part, and the edge is at most 1572; what did not fit reads "unspecified". |
| `StringArena.StoredExactly` | gmetad/gmetad.c:122-140 | In every run a string is stored exactly if it and its terminator fit into the 1572 bytes, and takes up just that. |
| `StringArena.LaterKeepsEarlier` | gmetad/gmetad.c:118-139 | No later string changes what lies in front of the edge. |
| `StringArena.StoredAndCopiedBack` | gmetad/process_xml.c:745-758 | Trimmed to its used length, stored by overlay under any key over any old value, looked up and copied over any structure, a structure keeps its fixed fields and every string. |
| `CircuitBreaker.ModeMoves` | gmetad/circuit_breaker.c:27-131 | In every run, with any senders, the mode only moves from CLOSED to OPEN, from OPEN to HALF_OPEN, and from HALF_OPEN to either. |
| `CircuitBreaker.SendersNeverSeeHalfOpen` | gmetad/export_helpers.c:655-708 | While a sender holds the mutex the mode is not HALF_OPEN and nobody else holds it. |
| `CircuitBreaker.TripNeedsSixFailures` | gmetad/circuit_breaker.c:124-131 | Every trip on the failure count comes after at least six failures since the breaker last closed, and the counter is their number. |
| `CircuitBreaker.TripExact` | gmetad/circuit_breaker.c:124-131 | In every reachable state the closed breaker decides to trip exactly after six failures since it last closed. |
| `CircuitBreaker.TripComes` | gmetad/circuit_breaker.c:124-131 | From a test of the closed breaker after six failures, whatever the senders do, it trips before it reads again. |
| `CircuitBreaker.ReplyIsTaken` | gmetad/circuit_breaker.c:60-121 | A bad answer is counted, and a closed connection opens the breaker, before the next answer is read. |
| `CircuitBreaker.EveryRoundTests` | gmetad/circuit_breaker.c:28-131 | Between two readings the breaker thread tests whether to trip and whether to retry. |
| `CircuitBreaker.ModeChangesExactly` | gmetad/circuit_breaker.c:28-131 | In every run the mode closes exactly at a successful attempt, which clears the failures, opens at a failed one, a trip and a drop, is half open from the begin of an attempt, and changes in no other step; a sender sends exactly if the breaker is closed. |
| `CircuitBreaker.FailuresAreCounted` | gmetad/circuit_breaker.c:60-121 | In every run each bad answer read and each send failed is counted exactly once, or some thread is on its way to count it. |
| `CircuitBreaker.QuietAfterFailure` | gmetad/circuit_breaker.c:32-47 | After a trip or a failed reconnection no attempt begins for 15 seconds. |
| `CircuitBreaker.RetryExact` | gmetad/circuit_breaker.c:32-130 | In every reachable open state the next test starts an attempt exactly when 15 seconds have passed since the trip or the failed attempt that opened the breaker; after a drop it does so at any time. |
| `CircuitBreaker.RetryComes` | gmetad/circuit_breaker.c:30-49 | And then an attempt begins before the breaker thread reads again. |
| `CircuitBreaker.RunKeepsRetry` | gmetad/circuit_breaker.c:32-130 | In every run the timer is over while the breaker is closed or connecting, and while it is open the timer runs from the last opening, except after a drop. |
| `CircuitBreaker.DropSetsNoTimer` | gmetad/circuit_breaker.c:76-80 | A witness: a run in which an attempt begins in the microsecond in which the server closed the connection. |
| `CircuitBreaker.MutexIsReleased` | gmetad/circuit_breaker.c:35-48 | Whoever holds the mutex can go on, and releases it after at most three of its own events. |
| `CircuitBreaker.InvStep` | gmetad/circuit_breaker.c:27-131 | Every event of the breaker thread and of the senders keeps the invariant of mutex, mode, timer and history. |
| `CircuitBreaker.RunKeepsInv` | gmetad/gmetad.c:543-552 | The invariant holds in every state of every run from a successful or a failed first connection. |
| `CircuitBreaker.Globals.constructor` | gmetad/gmetad.c:543-552 | A failed first connection leaves the breaker open with its timer set, a successful one closed. |
| `CircuitBreaker.Globals.TestRetry` | gmetad/circuit_breaker.c:32-32 | The first test of the loop is its event. |
| `CircuitBreaker.Globals.TestFailures` | gmetad/circuit_breaker.c:124-124 | The last test of the loop is its event. |
| `CircuitBreaker.Globals.TakeReply` | gmetad/circuit_breaker.c:57-122 | What recv came to decides whether a failure is counted or the breaker opened. |
| `CircuitBreaker.Globals.Write` | gmetad/circuit_breaker.c:35-130 | The writes of the breaker thread under the mutex. |
| `CircuitBreaker.Globals.FinishConnecting` | gmetad/circuit_breaker.c:38-47 | A failed attempt opens and sets the timer; a successful one closes and resets the count. |
| `CircuitBreaker.Globals.BeginSending` | gmetad/export_helpers.c:661-661 | A sender goes on only if it reads CLOSED. |
| `CircuitBreaker.Globals.CountFailure` | gmetad/export_helpers.c:685-697 | A failed send counts one failure. |
| `Scheduler.PassReturnsMinimum` | gmond/gmond.c:3105-3152 | If sends succeed, periods are positive and each group has a sendable metric, a pass leaves every collection and sending after now and returns exactly their minimum. |
| `Scheduler.CollectGaps` | gmond/gmond.c:3469-3520 | In any run of the main loop that wakes within d, with any metadata requests between the passes, consecutive collections of a group are collect_every to collect_every + d apart. |
| `Scheduler.SendGaps` | gmond/gmond.c:3469-3520 | In such a run a group is sent again at the latest time_threshold + d after it was sent. |
| `Scheduler.NeverLate` | gmond/gmond.c:3469-3520 | In such a run no group is found more than d overdue from the second pass on. |
| `Scheduler.RequestIsMet` | gmond/gmond.c:1344-1367 | A metadata request is met in the pass of the next collection of its group: the group is sent in it. |
| `Scheduler.MinLoopExact` | gmond/gmond.c:3131-3148 | The minimum loop finds the minimum exactly if no group is to be served at 0, or the last one is. |
| `Scheduler.ReturnedTimeExact` | gmond/gmond.c:3131-3151 | The returned time is the minimum, or a second from now if that has passed, exactly if no group is to be served at 0, the last one is, or the minimum of the groups behind the last 0 has passed too or is a second from now. |
| `Scheduler.ZeroRestartsTheLoop` | gmond/gmond.c:3137-3140 | Otherwise the loop yields the minimum of the groups behind the last 0. |
| `Scheduler.FailedSendLeavesZero` | gmond/gmond.c:2950-3102 | A pass leaves a group at 0 exactly when it was at 0, or is collected with an urgent metric, and none of its values gets out. |
| `Scheduler.UrgentIsSentAtOnce` | gmond/gmond.c:2882-2948 | A value that moves by its threshold, or metadata asked for, has its group sent in the same pass. |
| `Scheduler.UrgencyExact` | gmond/gmond.c:2882-2948 | A collection makes its group due at once exactly if some reading lies at least its threshold away from the one before, or metadata has been asked for. |
| `Scheduler.ReadingsShift` | gmond/gmond.c:2882-2948 | A collection keeps the reading and the one before it for the next comparison; without one both stand. |
| `Scheduler.MetadataIsFresh` | gmond/gmond.c:2950-3010 | After a sending no metadata that could be sent is missing or older than its interval, and none that was neither, nor asked for, has been sent again. |
| `Scheduler.FailedSendIsOverlooked` | gmond/gmond.c:3105-3152 | For any groups: after a pass in which a group that is to be sent at once fails, the minimum loop forgets its sending and its next collection and yields the minimum of the groups behind it. |
| `Scheduler.OverlookedWitness` | gmond/gmond.c:3105-3152 | A witness: a pass at second 100 returns second 200 for a group that wants to be sent at once and is due again at second 110. |
| `Scheduler.PassedHealthy` | gmond/gmond.c:2882-3127 | What one pass does to one group's two times. |
| `Scheduler.Pass` | gmond/gmond.c:3105-3152 | The three loops: every group is collected and sent when due, and the minimum loop's time is returned. |
| `Scheduler.Collect` | gmond/gmond.c:2882-2948 | Every metric is read and its last value kept, the next collection is due one period later, and the group is sent at once exactly if a metric is urgent, 32-bit unsigned values being compared through their signed difference. |
| `Scheduler.Send` | gmond/gmond.c:2950-3102 | Metadata that was due and sent is noted, and the next sending is due one period later exactly if some value was sent. |
| `XmlEscape.XmlEscape` | gmond/gmond.c:1868-1923 | The whole buffer afterwards: the text for as many whole characters as are taken, or up to the first cut in an entity, a NUL behind it, and otherwise what it was, but for the NUL an early end writes at the write position. The length returned is that of the whole escape, inside the buffer, and exceeds the text exactly if an entity was cut. |
| `XmlEscape.TakenExact` | gmond/gmond.c:1878-1883 | How many characters are taken: as many as begin at or below the size of the buffer less 7. |
| `XmlEscape.EntityNames` | gmond/gmond.c:1886-1905 | The five characters and their entities, spelled out. |
| `XmlEscape.RoundTrip` | gmond/gmond.c:1868-1923 | The text unescapes to the characters taken if and only if each of them is 1 to 126 and no entity among them is longer than the size of the buffer less 7. |
| `XmlEscape.SmallBufferFails` | gmond/gmond.c:1898-1901 | Every buffer of 7 to 12 bytes fails on a quotation mark. |
| `XmlEscape.NoRawMarkup` | gmond/gmond.c:1884-1919 | For every text, cut or not: one of `<`, `>` and the two quotes is in it exactly if character 127 is among those written whole. |
| `XmlEscape.StrayMarkup` | gmond/gmond.c:1884-1919 | Counting also every `&` that begins no readable reference: markup is left in the text exactly if a character from 127 on is written whole, or an entity is cut behind its `&`. |
| `XmlEscape.UnreadableExact` | gmond/gmond.c:1884-1919 | The text cannot be unescaped exactly in those cases. |
| `XmlEscape.StrayWitness` | gmond/gmond.c:1906-1914 | Witnesses: characters 127 and 200, and a quotation mark in a buffer of 10 bytes. |
| `XmlEscape.PutChar` | gmond/gmond.c:1884-1919 | One character appends its escape, or the part of its entity that strncat allows. |
| `XmlEscape.PutNext` | gmond/gmond.c:1878-1921 | One round keeps the buffer at the text for the characters so far, also when it cuts an entity. |
| `XmlEscape.EndText` | gmond/gmond.c:1880-1883 | The NUL that ends the loop early lies inside the buffer and does not shorten the text. |
| `SflowFraming.Decode` | gmond/sflow.c:1430-1589 | A datagram is accepted exactly when its header is good, samples and elements tile it exactly and no sample fails; the loops' work is bounded by its quads whatever the counts claim. |
| `SflowWire.PacketIsRead` | gmond/sflow.c:1430-1589 | Every datagram of at least 36 bytes that an agent writes has a good header and tiles, and exactly its samples are found in it, each where it stands and with the contents of the last structure of every wanted kind. |
| `SflowWire.InterestingExact` | gmond/sflow.c:1556-1566 | Which structures make a sample worth processing, by number. |
| `SflowFraming.AcceptedIsFramed` | gmond/sflow.c:1486-1587 | In an accepted datagram there are as many samples as claimed, one behind the other inside it, and every recorded offset is a structure of its kind inside its sample. |
| `SflowFraming.CountsAreBacked` | gmond/sflow.c:1485-1512 | A count field cannot be larger than half the quads it stands for. |
| `SflowFraming.ElementOffsetsInside` | gmond/sflow.c:1526-1547 | Every recorded offset points behind the header of an element of that tag inside the sample. |
| `SflowFraming.LastOfKindIsRecorded` | gmond/sflow.c:1526-1547 | Every known kind of structure that occurs is recorded, by its last occurrence. |
| `SflowFraming.CounterSample` | gmond/sflow.c:1499-1577 | A counter sample is accepted exactly when its elements tile it and its processing, if it has an interesting block, succeeds. |
| `SflowFraming.OneSample` | gmond/sflow.c:1487-1586 | One sample is accepted exactly when it tiles, and its processing, if it has an interesting block, succeeds. |
| `SflowFraming.Samples` | gmond/sflow.c:1486-1588 | The sample loop succeeds exactly when every claimed sample is accepted, returns them in order, and takes two quads or more per round. |
| `SflowFraming.Elements` | gmond/sflow.c:1512-1554 | The element loop ends at the mark exactly when the elements tile the sample, and takes two quads or more per round. |
| `SflowDeltas.SentExactlyForContinuations` | gmond/sflow.c:1251-1296 | Over any run: a sample's differences are submitted exactly when it and all before it in its datagram come 1 to 8 numbers after the latest sample of their source and neither number is 1, so never for a duplicate, a reordering, a restart or a new source. |
| `SflowDeltas.OneBreakSilencesTheRest` | gmond/sflow.c:1278-1294 | One sample that breaks that rule silences itself and the rest of its datagram. |
| `SflowDeltas.SilencedWitness` | gmond/sflow.c:1278-1294 | A witness: one source repeats a number, and another behind it, which is in order, submits nothing. |
| `SflowDeltas.DifferencesTelescope` | gmond/sflow.c:318-320 | Differences submitted over consecutive accepted samples add up to last reading minus first, modulo the width of the counter. |
| `SflowDeltas.DifferenceExact` | gmond/sflow.c:318-320 | A counter of 32 or 64 bits that has moved by less than its range yields how far it has moved, wrapped or not. |
| `SflowDeltas.NumbersMove` | gmond/sflow.c:1284-1296 | Over accepted samples the sequence number advances by 1 to 8 a sample. |
| `SflowDeltas.NoNumberTwice` | gmond/sflow.c:1284-1296 | So over accepted samples no sequence number returns within 2^29 - 1 samples. |
| `SflowDeltas.LateBlockSendsWholeReading` | gmond/sflow.c:318-320 | In a sample that is in order a counter is submitted as a whole exactly if what is latched of it is 0 modulo its width, so whenever its block is seen for the first time. |
| `SflowDeltas.Collector.ProcessSample` | gmond/sflow.c:1201-1296 | One sample: an unknown host is skipped, refused or entered; else the log gains the sample with the right differences, and the kept state stays what the log says. |
| `SflowDeltas.Collector.CheckAndLatch` | gmond/sflow.c:1251-1296 | The source is found or made, its number checked, the differences taken and the counters latched. |
| `SflowDeltas.EntryExact` | gmond/sflow.c:1222-1250 | Sources are told apart by agent, sub-agent, class and index. |
| `SflowDeltas.Collector.Receive` | gmond/sflow.c:1416-1589 | One datagram: every sample from the first of a known host on is processed in order. |
| `SflowDeltas.Collector.Take` | gmond/sflow.c:1566-1570 | One round of the loop over the samples keeps hosts, log and reports as the samples so far make them. |
| `SflowDeltas.InOrderContinues` | gmond/sflow.c:1284-1294 | The test on the lost samples is the statement about the latest sample of the source. |
| `SflowDeltas.RightEntry` | gmond/sflow.c:1284-1294 | What the code tests and subtracts from the kept state is what the log says. |
| `Getopt.Exchange` | lib/getopt.c:301-379 | Two adjacent blocks change places and keep the order inside each. |
| `Getopt.SwapBlocks` | lib/getopt.c:346-352 | The inner loops swap two blocks of equal length. |
| `Getopt.ScanAll` | lib/getopt.c:546-621 | Calling getopt until it ends yields all options in order and leaves argv[0], the consumed elements with their arguments and any `--`, then the non-options, each in order, with optind at the first non-option. |
| `CommandLines.LineIsScanned` | lib/getopt.c:546-1151 | A line of words (flags, options with a joined, a separate or no argument, and others, up to a mark or an option that lacks its argument) yields what its words say, in order, and is permuted into their elements and the rest. |
| `CommandLines.WordIsScanned` | lib/getopt.c:865-1151 | In front of any arguments a word yields its options: flags one by one, `?` for an undeclared one, an argument from the same element or the next, an optional one from the same only. |
| `CommandLines.EveryLine` | lib/getopt.c:546-621 | Every command line is such a row of words. |
| `CommandLines.LookupExact` | lib/getopt.c:866-1151 | What an option string declares, by the position of the character and the colons behind it. |
| `Getopt.Scanner.Next` | lib/getopt.c:508-1151 | One call returns the next pending option, or ends with argv in its final order. |
| `Getopt.ScanRest` | lib/getopt.c:508-1151 | Calling getopt until it ends yields all pending options and brings argv into its final order. |
| `Getopt.Scanner.TakeArgument` | lib/getopt.c:1103-1151 | A required argument is the rest of the element or else the next element; without either the option is reported as missing it. |
| `Getopt.Scanner.SkipNonOptions` | lib/getopt.c:567-572 | Skipped non-options join those skipped before, in order. |
| `Getopt.Scanner.Advance` | lib/getopt.c:546-621 | Moves to the next option element without losing a pending option, or finishes. |
| `Getopt.Scanner.Decode` | lib/getopt.c:865-1151 | Takes the next option character with its argument. |
| `Getopt.Scanner.BringForward` | lib/getopt.c:557-565 | Options found behind skipped non-options change places with them. |
| `Getopt.Scanner.EndOfOptions` | lib/getopt.c:575-591 | `--` goes with the options and everything behind it is a non-option. |
| `Getopt.SplitKeepsAll` | lib/getopt.c:546-621 | The classification into option elements and non-options loses nothing and makes up nothing. |
| `Getopt.SplitIsStable` | lib/getopt.c:546-621 | Both parts keep the order of the arguments: they are the two sides of one mask over them. |
| `Getopt.FrontOfSplit` | lib/getopt.c:567-591 | What stands in front is option elements with their arguments, up to any `--`; without `--` everything behind is a non-option. |
| `Getopt.RescanExact` | lib/getopt.c:546-621 | Scanning the permuted arguments again gives the same two parts exactly if no option at the end of the line lacked its argument, or there is no non-option for it to take. |
| `Getopt.RescanWitness` | lib/getopt.c:546-621 | A witness: `x -a`, where -a lacks its argument, becomes `-a x`, and a second scan takes `x` for the argument. |
| `LinkedList.List.Add` | lib/llist.c:38-51 | The entry comes in front; all links stay inverse to each other. |
| `LinkedList.List.Remove` | lib/llist.c:54-78 | Takes out the entry if it is on the list and says whether; all links stay inverse. |
| `LinkedList.List.Sort` | lib/llist.c:124-140 | Whatever the comparator, a permutation of the values and no link changed; sorted if "not 1" is a total preorder. |
| `LinkedList.List.Settle` | lib/llist.c:131-137 | The inner loop brings a least remaining value to the front. |
| `LinkedList.LinksAreInverse` | lib/llist.h:24-28 | prev and next are inverse, and end at the two ends of the list. |
| `LinkedList.List.AddThenRemove` | lib/llist.c:38-78 | Adding an entry and removing it again leaves head and every link of the list as they were. |
| `LinkedList.HostOrders` | lib/ganglia.c:228-252 | The comparators in use are preorders; sorted by them the least loaded host and the latest crash come first. |

## Left out

- Sockets, polling, gzip, the XML parser, APR pools, RRD, carbon, memcached and protobuf calls: their outcomes are parameters or events.
- Failing allocations and failing writes to a client; leaked and freed memory beyond the nodes of a table and a list.
- C doubles are real numbers; counts of hosts and metrics, and the failure count, do not wrap.
- Locks inside the hash table: each operation is modelled alone, under the lock it takes.
- `Cleanup.SweepMetrics`, `Cleanup.WalkMetrics`, `Cleanup.WalkHosts`, `Cleanup.SweepHosts`, `Cleanup.SweepSource` and `Cleanup.SweepRoot` work on table values, since the stored hosts hold tables of their own; the sweep of one table on its nodes in memory is `Cleanup.SweepTable`.
- HashTable.HashTable.WalkFrom: callbacks only decide whether to stop; the callbacks that write are modelled where they are used.
- HashTable.HashTable.constructor: size 0 and the sizes that are rounded wrong are excluded; `HashIndex.RoundingExact` says which they are. With them the mask does not reach every bucket.
- SummaryPoll.XmlData.StartGrid, SummaryPoll.XmlData.StartCluster and SummaryPoll.XmlData.StartMetric: the string fields, the host table of a source and the metric table of a host.
- SummaryPoll.PollConservation: attributes come converted; the host tables, the string fields and extra elements of a poll are not in the machine; METRICS tags are, and contribute nothing.
- RootSummary.Root.AddChild: configured lists of summarized or unsummarized metrics; the polls of a run come one after the other, where gmetad polls its sources in parallel.
- XmlReport.ResponseIsValid: the text of the tags, attribute lists, the HTTP header, the status report and the parsing of requests; a return code that the C leaves unset for a wildcard is taken as 0.
- SflowFraming.Decode: reads are not checked against the end of the datagram in the code; memory is a total function here, so an IPv6 header in a datagram of 36 bytes reads one quad past it. `processed` stands for the processing of a sample.
- SflowWire.PacketIsRead: the sequence number and source in front of a counter sample are carried along, not read; `SflowDeltas` takes them as given.
- SflowDeltas.Collector.ProcessSample: sources are found in a map instead of linked lists; gauges, rates, strings and metric names; the expiry of hosts; 64-bit memcache counters kept in 32-bit fields; which fields a configuration submits.
- Scheduler.Collect: readings and thresholds are real numbers; the absolute value of the most negative difference is taken as itself; string values and modules.
- Getopt.ScanAll: long options, POSIXLY_CORRECT and messages; option strings that begin with `+` or `-` or contain `W;` are excluded, since they select other modes.
- CircuitBreaker.Globals.TakeReply: the answer's contents; the socket itself, which a sender past its test may use after it was replaced.
- LinkedList.List.Add: searching and printing; an entry that is already on the list is excluded, as adding it again would break the links.
- The generated keyword tables are functions of the keywords; configuration files, daemonizing, libmetrics, gstat and the Python gmetad are plumbing or weaker duplicates.
