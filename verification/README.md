# A model of Spandrel, and proofs about it

Spandrel is a tail-sampling tracing backend. It buffers the spans of a trace
until the trace looks finished, assembles them into a tree however broken their
links are, judges the tree, and stores what it keeps in a searchable memory that
is backed by an append-only log of segments. This project models those four
parts in Dafny and proves what they promise.

- **Assembly and timing** (`links`, `marking`, `cycles`, `assembly`, `tree`,
  `repairs`, `forest`, `timing`, `critical`, `charges`, `gaps`). `assembly.dfy` says, with
  no algorithm in it, which tree a bag of spans calls for (`IsTree`), and proves
  that there is only one. `tree.dfy` is `Build` as it runs, over maps walked in
  any order, and ends in that tree. `forest.dfy` unfolds the tree into nodes and
  walks it; `timing.dfy`, `critical.dfy` and `charges.dfy` are about time.
- **Sampling** (`policy`, `verdicts`, `buckets`, `sampling`, `conservation`,
  `runs`, `sampler`). `sampling.dfy` is the state machine: every section under the
  lock and every call to the writer is one step, steps of any number of callers
  interleave freely, and time passes between them. `sampler.dfy` is the object
  whose methods take those steps.
- **The segment log** (`trace`, `codec`, `decoder`, `segment`, `recovery`, `disk`,
  `reopen`). Segments are byte sequences on a volume where every operation may
  fail half way, and a crash may freeze any state the volume ever passed through
  and tear off whatever was not yet durable.
- **The indexed store** (`query`, `indexes`, `search`, `summary`, `memory`).
  `search.dfy` compares the indexed search with a scan that uses no index.

`sorting.dfy` holds the byte-wise comparison and the sort everything shares.

Where the code and its comments part ways, the model follows the code. There is
one such place, internal/storage/memory.go:227-256. The comment on `candidates`
speaks of a day either side of the window; the code widens the window by 24 * 60
minutes on the early side only. That side is the one that matters, but a trace with
a longer stretch in which no span starts is missed, although Find's own comment
promises never to be wrong for an index. `LongTraceIsMissed` is such a trace, and
`MinuteIndexIsExact` states exactly which stores are searched right: those whose
traces have no such stretch.

A placeholder reports no self time, as the code says it should, but it covers its
children and the critical path charges it the gaps between them. So the self times
of a trace whose root never arrived need not add up to the time it took:
`GapIsNobodys` is such a trace, and `NestedSelfTimesAddUp` says exactly when they do.

Modelling decisions: times are integers in the int64 range, tokens and rates are
reals, identifiers are fixed-width byte sequences whose zero means "absent",
CRC-32C is an arbitrary function from bytes to 32-bit words, the order of a Go map
is any order, the clock does not run backwards, and an operation on a file that
reports success is durable. Clocks, the writer's answers and the outcomes of file
operations are arguments or arbitrary choices.

## Model

| member | source | states |
|---|---|---|
| `Assembly.TreeIsUnique` | internal/assembly/assembly.go:100-113 | the last copies of the spans determine the whole tree: roots, children and their order, missing list, cycle list and cut points |
| `Repairs.OrderLeavesTree` | internal/assembly/assembly.go:110-113 | distinct spans give the same tree in whatever order they arrive |
| `Tree.Build` | internal/assembly/assembly.go:114-185 | fails exactly on no spans or mixed traces; for every other bag, with self-links, cycles and missing parents, ends in the tree `IsTree` calls for, and that tree has depths, so it is a forest |
| `Tree.Tree.Receive` | internal/assembly/assembly.go:123-128 | the last copy of each identifier is kept, and a span of another trace is refused |
| `Tree.Tree.Link` | internal/assembly/assembly.go:135-156 | whatever order the map is walked in, every span hangs under the parent it names or under one placeholder for it; parent and children links are inverse; the lists of roots and of missing parents are complete and without repeats |
| `Tree.Tree.BreakCycles` | internal/assembly/assembly.go:223-277 | afterwards the links are those the spans name less one per cycle, the cut spans are exactly the earliest of each cycle, sorted, and every node has a depth below a root |
| `Marking.Mark` | internal/assembly/assembly.go:225-233 | everything below a root is reached, nothing else is, and the part reached is a forest closed under children |
| `Cycles.FindCut` | internal/assembly/assembly.go:254-270 | the walk up from a stranded node ends, on a cycle, and the span chosen is that cycle's earliest |
| `Tree.Tree.CutLoose` | internal/assembly/assembly.go:249-275 | one link is cut at both ends, everything that led to the cut becomes reachable, and all earlier cuts stand |
| `Assembly.PlaceholderKeepsChildren` | internal/assembly/assembly.go:160-172 | a span under a placeholder is on no cycle, so no placeholder loses a child |
| `Assembly.PlaceholderHasChildren` | internal/assembly/assembly.go:162-163 | every placeholder has a first child to borrow times from |
| `Assembly.Envelope` | internal/assembly/assembly.go:162-172 | the borrowed times are the earliest start and the latest end of the children |
| `Tree.Tree.Borrow` | internal/assembly/assembly.go:160-172 | every placeholder, and nothing else, has the envelope of its children |
| `Tree.Tree.Sort` | internal/assembly/assembly.go:174-184 | roots, missing and all children end in start order, and cycles stay in it |
| `Links.StartsBeforeIsStrictWeak` | internal/assembly/assembly.go:311-316 | byStart is an ordering a sort may rely on |
| `Links.BeforeConnected` | internal/assembly/assembly.go:308-316 | byStart tells any two different spans apart |
| `Repairs.OneCutPerCycle` | internal/assembly/assembly.go:210-222 | every cycle of the named parents is cut at exactly one of its spans, and that one starts before all the others, or together with some and has the smaller identifier |
| `Repairs.OtherLinksAreIntact` | internal/assembly/assembly.go:272-274 | a span has a parent in the tree exactly if it names one and was not cut, and then it is the parent it names |
| `Repairs.CompleteMeansSound` | internal/assembly/assembly.go:198-208 | a tree is complete exactly when every parent named arrived, no link leads back to itself, and one span is the root |
| `Forest.ExactlyOneRoot` | internal/assembly/assembly.go:92-95 | every received span and every placeholder is below exactly one root |
| `Forest.WalkFrom` | internal/assembly/assembly.go:296-306 | visits a subtree in order up to the first refusal, and reports whether there was one |
| `Forest.Walk` | internal/assembly/assembly.go:286-294 | visits the trees in order up to the first refusal |
| `Forest.WalkVisitsEachOnce` | internal/assembly/assembly.go:286-306 | a full walk of a built tree visits every received span and every placeholder exactly once, at its depth and after its parent |
| `Timing.SelfTime` | internal/assembly/timing.go:19-37 | a placeholder has none; of any other span it is the number of its instants at which no child runs, hence between 0 and its duration |
| `Critical.AppendedIsOwn` | internal/assembly/timing.go:119-131 | a stretch that is the span's own, appended below a path that is, leaves a path of consecutive own stretches with no two neighbours of one span, whether it is empty, continues the last one or is new |
| `Critical.SortByFinish` | internal/assembly/timing.go:91-102 | the same children, later ends first, of those that end together later starts first, and of those that start together too larger identifiers first |
| `Critical.Descend` | internal/assembly/timing.go:86-117 | the single pass over children sorted by finish follows the same path as looking afresh, at each moment, for the child that finished last of those that had started |
| `Critical.FollowedIsOwn` | internal/assembly/timing.go:62-74 | the path covers its window in consecutive stretches, each inside the span it is charged to, at moments when none of that span's direct children runs |
| `Critical.FollowedWaits` | internal/assembly/timing.go:88-117 | whatever the descent adds to a path lies in its window and is charged, moment by moment, to the span waited on then |
| `Critical.WaitsOnOne` | internal/assembly/timing.go:66-71 | at every moment exactly one span is waited on |
| `Critical.CriticalPath` | internal/assembly/timing.go:62-84 | tiles [start, end) exactly once with non-empty stretches in order, each charged to the span itself or one below it, no two neighbours to the same; and a moment is charged to a span if and only if that is the span waited on at that moment: going down, always the child that, of those started by then, ends last (on a tie started last, then has the larger identifier), until none of those has yet to end |
| `Charges.ChargeIsAtMostSelfTime` | internal/assembly/timing.go:8-74 | no received span is charged more of a critical path than its self time, and no placeholder more than the time none of its children runs |
| `Charges.ExactlyOneOwner` | internal/assembly/timing.go:8-17 | where spans nest and siblings do not overlap, at each moment of a span exactly one span is at work on its own account |
| `Charges.NestedChargeIsSelfTime` | internal/assembly/timing.go:19-117 | there the critical path charges every node exactly the time none of its children runs, which is its self time if and only if it arrived or its children cover it |
| `Charges.NestedTimesAddUp` | internal/assembly/timing.go:8-37 | there the self times and the gaps of placeholders add up to the time the root took |
| `Charges.NestedSelfTimesAddUp` | internal/assembly/timing.go:8-37 | so the self times alone add up to it if and only if no placeholder has a gap that its children leave |
| `Charges.MissingIsOnTop` | internal/assembly/assembly.go:142-156 | in a built tree only a root can be a placeholder |
| `Charges.GrownSelfTimesAddUp` | internal/assembly/timing.go:19-37 | so in a built tree of nested spans the self times add up to the time the root took if and only if the root arrived or its children cover it |
| `Gaps.GappedIsBuilt` | internal/assembly/assembly.go:143-172 | two spans of one instant each, with an instant between them, whose parent never arrived: the tree Build makes of them |
| `Gaps.GapIsNobodys` | internal/assembly/timing.go:18-37 | there the self times count two of three instants, and the critical path charges the third to a placeholder whose self time is none |
| `Charges.GrownIsTidy` | internal/assembly/assembly.go:158-184 | in a tree built from spans that do not end before they start, no node does, placeholders included, and siblings are in strict start order: what SelfTime and CriticalPath rely on |
| `Charges.NeighboursDiffer` | internal/assembly/timing.go:122-131 | in a built tree, neighbours on a critical path have different span identifiers |
| `Policy.WalkForErrors` | internal/sampler/policy.go:55-61 | the flag left by the last visit is set exactly if some visited span failed |
| `Policy.FailingIsFailed` | internal/sampler/policy.go:49-66 | however broken the links, the walk finds an error exactly when some surviving span has error status |
| `Policy.Duration` | internal/sampler/policy.go:86-97 | from the earliest start to the latest end over the roots |
| `Policy.SpreadIsTook` | internal/sampler/policy.go:79-97 | that is the envelope of the topmost spans that arrived: placeholders neither lengthen nor shorten it |
| `Policy.Evaluate` | internal/sampler/policy.go:55-78 | what each shipped policy says is a matter of the last copies of the spans and the trace identifier |
| `Policy.FractionReadsLowBits` | internal/sampler/policy.go:122-129 | the fraction kept depends on the last seven bytes of the trace identifier alone |
| `Policy.FractionKeepsBelow` | internal/sampler/policy.go:122-129 | a trace is kept exactly if those seven bytes, most significant first, make a number below the threshold |
| `Policy.Decide` | internal/sampler/policy.go:40-47 | the first decision of the chain, or to drop what none claims |
| `Policy.RootService` | internal/sampler/sampler.go:541-551 | the service of the first visited node that has a span |
| `Policy.ServiceIs` | internal/sampler/sampler.go:538-551 | that is the earliest root's, or its earliest child's if that root never arrived |
| `Policy.ServiceArrived` | internal/sampler/sampler.go:538-551 | it is the service of a span that really arrived |
| `Policy.Judge` | internal/sampler/sampler.go:390-397 | for any non-empty spans of one trace, builds the tree, runs the chain and finds the service to charge |
| `Policy.OrderDoesNotMatter` | internal/sampler/sampler.go:393-397 | distinct spans get the same verdict, and are charged to the same service, in whatever order they arrived |
| `Verdicts.ForgetOldestForgetsOldest` | internal/sampler/sampler.go:479-487 | forgetting the oldest entry leaves what the rest of the log says: a stale entry never removes a newer verdict |
| `Verdicts.NotedIsRemembered` | internal/sampler/sampler.go:456-458 | a verdict just settled extends the remembered stretch of the log |
| `Verdicts.TrimmedIsRemembered` | internal/sampler/sampler.go:459-461 | trimming keeps a suffix within MaxDecisions that still has the newest verdict |
| `Verdicts.ExpiredIsRemembered` | internal/sampler/sampler.go:469-471 | expiry forgets exactly the verdicts at least Remember old |
| `Runs.MemoryLaw` | internal/sampler/sampler.go:440-493 | in every run, at every moment: the queue is a suffix of the log of verdicts, the map is the latest verdict of each trace in it, and it is within MaxDecisions |
| `Runs.SettleRemembers` | internal/sampler/sampler.go:453-461 | settling a verdict leaves it in the memory, and adds nothing else |
| `Buckets.ForgetfulSamplerIsFair` | internal/sampler/sampler.go:466-477 | over any run, dropping full buckets changes no answer compared with keeping every bucket forever |
| `Buckets.DroppingIsInvisible` | internal/sampler/sampler.go:472-476 | the same from any two states that agree on every level |
| `Buckets.GrantsAreEarned` | internal/sampler/sampler.go:521-536 | what a service is granted is at most the tokens it had and ServiceRate times the seconds since |
| `Buckets.WindowIsBounded` | internal/sampler/sampler.go:156-168 | whatever came before, a service is granted at most ServiceBurst + ServiceRate * T in any window of T seconds |
| `Runs.AllowanceLaw` | internal/sampler/sampler.go:466-536 | over every run of the sampler: between any two moments a service is granted at most its burst and its rate times the seconds in between, and no answer would differ had no bucket ever been dropped |
| `Runs.NextAllowance` | internal/sampler/sampler.go:160-168 | in every run, a service whose last use left it some tokens has those and ServiceRate times the seconds since, up to its burst, when it next asks, whatever other services and sweeps did in between: it is granted if and only if that is at least one, and whenever the rate alone made one |
| `Runs.FirstAllowance` | internal/sampler/sampler.go:524-528 | the first allowance of a service in a run finds its whole burst and is granted |
| `Buckets.TokensComeBack` | internal/sampler/sampler.go:160-168 | the same from any sane buckets over any events that are not uses by that service |
| `Buckets.LevelCarries` | internal/sampler/sampler.go:466-477 | sweeps and uses by other services leave a service its level at every later time |
| `Buckets.EarnedInNumbers` | internal/sampler/sampler.go:164-165 | what a span of time earns is the rate times the nanoseconds over a thousand million |
| `Buckets.AllowedHasToken` | internal/sampler/sampler.go:519-536 | allow grants exactly if a new bucket of the whole burst, or the old bucket with what the rate made since, up to the burst, holds a token |
| `Conservation.StepAccounts` | internal/sampler/sampler.go:239-517 | every step of every caller, each locked section and each answer of the writer being one, keeps the account: no trace both pending and judged, every accepted span in exactly one place, every counter right |
| `Conservation.PlacedAllContent` | internal/sampler/sampler.go:259-282 | a batch adds to the buffer exactly the spans that do not follow a verdict to drop |
| `Conservation.SealMoves` | internal/sampler/sampler.go:361-371 | taking traces for judging moves exactly their spans out of the buffer |
| `Conservation.WriteMoves` | internal/sampler/sampler.go:400-404 | a write takes the spans of a trace out of flight exactly if it succeeds, before any verdict is settled |
| `Conservation.SettleMoves` | internal/sampler/sampler.go:406-462 | settling a verdict takes the spans in hand out of flight unless they were written, and the spans that waited to the late queue or out |
| `Conservation.WriteLateMoves` | internal/sampler/sampler.go:508-509 | a late write takes its batch out of flight exactly if it succeeds; a refused one stays in flight until it is counted |
| `Runs.ConservationLaw` | internal/sampler/sampler.go:86-122 | in every interleaving, at every moment, those between a write and its settling included: Accepted = Buffered + in flight + written + Lost + DroppedSpans + LateDropped, and Buffered is what pending, judging and late hold, within MaxSpans |
| `Runs.WatchedIsNotPending` | internal/sampler/sampler.go:286-299 | a trace being judged, or with a verdict in force, is not buffered for another one |
| `Runs.SpansFollowTheVerdict` | internal/sampler/sampler.go:437-462 | from when a trace is taken until its verdict expires or is forgotten, it is not taken again and gets one verdict, and every span accepted for it is queued if it was kept and dropped if not, in order; those that waited go so when it is settled, even if its verdict is not remembered |
| `Sampler.Sampler.New` | internal/sampler/sampler.go:192-229 | refuses exactly a missing writer and a configuration that makes no sense, and otherwise starts with nothing buffered, in the state every run starts from |
| `Sampler.Sampler.Accept` | internal/sampler/sampler.go:239-284 | is the accept step: takes the whole batch, or refuses it whole |
| `Runs.VerdictIsTheLast` | internal/sampler/sampler.go:286-299 | the verdict a span follows is the last one settled for its trace, is younger than Remember, and is not that of a trace being judged again |
| `Sampler.Sampler.Seal` | internal/sampler/sampler.go:360-371 | takes, each once and whatever order the map is walked in, exactly the traces whose last span came at least Quiet ago or whose first came at least MaxAge ago, counts those for which only the latter holds, and leaves the others as they were |
| `Runs.BufferedSince` | internal/sampler/sampler.go:272-279 | at every moment of every run, the first and last times of a buffered trace are the readings of the first and the latest batch that put a span of it into the buffer since it was last sealed |
| `Runs.PlacedTimes` | internal/sampler/sampler.go:258-279 | a batch moves the last time of exactly the traces it adds buffered spans to, and sets the first time of those that were not buffered |
| `Sampler.Sampler.Decide` | internal/sampler/sampler.go:390-421 | the allowance, the write and the settling in turn, with any time passing in between; a trace is kept exactly if the chain keeps it and, when there is a cap, its service has a token at the reading allow took: at least one in its bucket with ServiceRate times the seconds since it was touched, up to the burst, or no bucket yet |
| `Sampler.Sampler.Settle` | internal/sampler/sampler.go:406-462 | is the settle step: settles and counts one verdict, at the time under the lock |
| `Sampler.Sampler.Follow` | internal/sampler/sampler.go:440-462 | the waiting spans follow the verdict, and it is remembered |
| `Sampler.Sampler.Trim` | internal/sampler/sampler.go:459-461 | there is always an oldest verdict to forget |
| `Sampler.Sampler.Forget` | internal/sampler/sampler.go:466-477 | is the forget step: leaves no verdict out of date and no bucket full |
| `Buckets.AllowedLevels` | internal/sampler/sampler.go:519-536 | allow answers whether the service has a token at that moment and takes it if so; from what is left its level rises by the rate times the seconds, up to the burst; and no other service's level changes at any later moment |
| `Sampler.Sampler.TakeLate` | internal/sampler/sampler.go:497-504 | empties the late queue into batches that hold exactly its spans |
| `Sampler.Sampler.Judge` | internal/sampler/sampler.go:360-388 | alone at work but while time passes, decides every trace that is due, leaves exactly those that were neither quiet for Quiet nor MaxAge old, untouched, and nothing more in hand than before |
| `Sampler.Sampler.WriteLate` | internal/sampler/sampler.go:497-517 | alone at work but while time passes, every late batch is written or counted as lost |
| `Sampler.Sampler.Sweep` | internal/sampler/sampler.go:307-321 | alone at work but while time passes: by the reading it took first, a trace is gone from the buffer if and only if its last span came at least Quiet ago or its first at least MaxAge ago, and the others are untouched; no verdict is left out of date and no bucket full by that reading, and the late queue is empty |
| `Sampler.Sampler.Flush` | internal/sampler/sampler.go:328-331 | alone at work but while time passes, ends with nothing buffered and nothing in flight, and every accepted span written, lost or dropped |
| `Decoder.EncodeSpan` | internal/storage/codec.go:26-40 | appends the bytes `SpanBytes` gives |
| `Decoder.AppendAttributes` | internal/storage/codec.go:48-73 | appends the bytes `AttributesBytes` gives |
| `Decoder.DecodeSpan` | internal/storage/codec.go:187-214 | the decoder with its sticky error accepts and returns exactly what `Decoded` does |
| `Decoder.Decoder.TakeAttributes` | internal/storage/codec.go:147-185 | reads a counted list, refusing a count the rest of the buffer cannot hold |
| `Decoder.Decoder.TakeText` | internal/storage/codec.go:136-145 | refuses a length beyond the rest of the buffer |
| `Decoder.Decoder.TakeUvarint` | internal/storage/codec.go:110-121 | an eleventh byte, or a tenth above 1, fails |
| `Decoder.Decoder.TakeVarint` | internal/storage/codec.go:123-134 | the zig-zag signed form |
| `Codec.UvarintRoundTrip` | internal/storage/codec.go:110-121 | every 64-bit value reads back, whatever follows it |
| `Codec.VarintRoundTrip` | internal/storage/codec.go:123-134 | every signed 64-bit value reads back |
| `Codec.AttributesRoundTrip` | internal/storage/codec.go:147-185 | every attribute list of all five kinds of value reads back, so the count guard never turns a genuine one away |
| `Codec.RoundTrip` | internal/storage/codec.go:20-40 | decoding an encoded span gives that span, for every span |
| `Codec.EncodingIsInjective` | internal/storage/codec.go:20-40 | different spans have different encodings |
| `Codec.SpanExtends` | internal/storage/codec.go:187-214 | what follows a span that reads well is left alone |
| `Codec.AcceptedIsPrefixFree` | internal/storage/codec.go:187-214 | no byte string that decodes is a strict prefix of another, whoever wrote them |
| `Codec.TruncationIsRejected` | internal/storage/codec.go:187-214 | every strict prefix of an encoded span is rejected |
| `Segment.NextRecord` | internal/storage/disk.go:203-225 | a record is read, by the decoder, exactly where `ReadRecord` finds one |
| `Segment.IntactPrefix` | internal/storage/disk.go:186-200 | the loop finds what `Scan` defines: spans up to the first bad record, their length, and whether that was all |
| `Segment.RecordReads` | internal/storage/disk.go:203-225 | a framed span reads back, whatever follows it |
| `Segment.TornRecord` | internal/storage/disk.go:203-225 | a record cut anywhere short of its end does not read |
| `Segment.CutRecords` | internal/storage/disk.go:183-200 | records cut at any byte scan as exactly the whole records before the cut |
| `Segment.ScanKeepsRecords` | internal/storage/disk.go:183-200 | good records followed by any bytes at all are all still found |
| `Segment.IntactPrefixIsIntact` | internal/storage/disk.go:164-173 | a file cut to its intact prefix is intact and holds the same spans |
| `Segment.TailDoesNotMatter` | internal/storage/disk.go:164-173 | however much of the bad tail is cut off, the scan finds the same spans |
| `Recovery.CrashedSegment` | internal/storage/disk.go:152-181 | a torn segment holds its acknowledged spans and then whole records of one batch |
| `Recovery.ShapeSurvives` | internal/storage/disk.go:114-119 | every crash of a directory in shape reopens with the whole log in order, then at most whole records of one batch |
| `Disk.Disk.AtRest` | internal/storage/disk.go:69-91 | between calls any crash loses nothing acknowledged, and with nothing dirty each segment is exactly its acknowledged bytes |
| `Disk.Disk.Encode` | internal/storage/disk.go:246-257 | frames every span, and finds exactly the batches with one too large |
| `Disk.Disk.Append` | internal/storage/disk.go:265-278 | success adds exactly the batch to the log; failure, which takes a failed operation, leaves the log; every state the disk passes through survives a crash |
| `Disk.Disk.Rollback` | internal/storage/disk.go:280-298 | undoes a failed append, or, only if that fails too, closes the segment and marks it dirty |
| `Disk.Disk.Repair` | internal/storage/disk.go:332-354 | cuts exactly what was not acknowledged off the dirty segment, or leaves it dirty |
| `Disk.Disk.Roll` | internal/storage/disk.go:301-330 | leaves the segment of the hour the time is in open at its end, repaired first if dirty, and the log and every segment's share of it as they were; it fails only if an operation did, closing the last segment included |
| `Disk.Disk.Write` | internal/storage/disk.go:227-263 | acknowledged batches are added to the log, in the segment of the hour of the reading and no other, and made visible, others to neither; it fails only if some file operation failed; and whatever moment a crash picks the log survives |
| `Disk.Disk.EvictSegments` | internal/storage/disk.go:383-401 | deletes only segments wholly before the cutoff, all of them but the open one if no operation fails, and the rest keep everything acknowledged |
| `Disk.Disk.EvictExpired` | internal/storage/disk.go:377-402 | without a retention window changes nothing; with one, deletes only segments h with (h + 1) hours at most now - retention since the epoch, and all of those but the open one if no operation fails |
| `Disk.HourInTimes` | internal/storage/disk.go:302 | the hour of a time t from the epoch on is the h with h hours <= t < h + 1 hours; before the epoch seconds round down and hours toward zero, as the code's division does |
| `Disk.OverInHours` | internal/storage/disk.go:395 | the test on hours that deletes a segment is the test on times |
| `Disk.OverIsPast` | internal/storage/disk.go:393-394 | that test holds of an hour exactly if every moment of it, and so of every write filed under it, is before the cutoff |
| `Disk.Disk.Close` | internal/storage/disk.go:406-423 | reports exactly whether the sync and the close worked, and loses nothing either way |
| `Reopen.Replay` | internal/storage/disk.go:152-181 | loads the intact prefix of a segment; a bad record is cut off at the end of the newest and corruption anywhere else; if it fails, no good record of the segment is gone |
| `Reopen.Load` | internal/storage/disk.go:110-120 | reports corruption only of a directory that has some, fails only if an operation did, otherwise serves exactly the recovered spans; opened, failed or half way, the directory has lost at most some of the bad tail of its newest segment |
| `Reopen.TrimmingSurvives` | internal/storage/disk.go:152-181 | every crash of a directory on the way to being opened leaves one that opens to the same log |
| `Reopen.OpenDisk` | internal/storage/disk.go:93-124 | the same, and then evicts: deletes only segments of hours over by now - retention, all of them if no operation fails; at every moment a crash leaves a directory that opens to the spans of the segments it still has |
| `Reopen.Recover` | internal/storage/disk.go:152-181 | reopening after any crash is never refused as corrupt, and finds the log in order and at most whole records of the batch under way |
| `Reopen.Restart` | internal/storage/disk.go:93-124 | with zero retention and nothing dirty, a restart rebuilds the very store that was being served |
| `Reopen.CrashDuring` | internal/storage/disk.go:229-298 | a crash at any moment of a write leaves a directory that opens to the log before it and at most whole records of one unacknowledged batch |
| `Reopen.StopCleanly` | internal/storage/disk.go:406-423 | a store closed and switched off loses nothing, and leaves records of no batch but one whose append failed and was never undone |
| `Reopen.Attempt` | internal/storage/disk.go:93-124 | an attempt to open never finds corruption, fails only if an operation did, and whether it succeeds, fails or is cut short by a crash at any moment loses nothing |
| `Reopen.Lifetime` | internal/storage/disk.go:57-68 | over any run of writes, failures, stops, attempts to open and crashes at any moment, those of opening included: never corrupt, and up or down the log is, act by act and in order, every acknowledged batch whole, nothing of a refused one, and where the store went down at most a beginning of the one batch under way or failed last |
| `Indexes.InsertedAgrees` | internal/storage/memory.go:114-164 | every insert keeps all four indexes in agreement with the traces |
| `Indexes.RemovedAgrees` | internal/storage/memory.go:302-318 | so does every removal, which leaves no empty bucket |
| `Indexes.DurationBucketInRange` | internal/storage/memory.go:362-367 | every duration has a bucket |
| `Indexes.DurationBucketInTimes` | internal/storage/memory.go:362-367 | bucket b holds the durations from 2^(b-1) up to 2^b, bucket 0 the empty ones |
| `Indexes.MinuteInTimes` | internal/storage/memory.go:161 | the minute of a time, with the same rounding before the epoch |
| `Memory.Memory.Insert` | internal/storage/memory.go:114-164 | is the insert step |
| `Memory.Memory.Write` | internal/storage/memory.go:95-112 | a batch with one invalid span stores none of it |
| `Memory.Memory.CandidateIds` | internal/storage/memory.go:232-273 | the traces the chosen index offers |
| `Memory.Memory.Find` | internal/storage/memory.go:190-225 | refuses exactly the queries that ask for nonsense; otherwise summaries of matches only, at most the limit (20 if none is given), later starts first and equal ones by identifier; a match left out starts no later than the last one returned, and then the limit is reached; the matches are those of a full scan, unless the minute index meets a trace with a long gap |
| `Memory.TopIsUnique` | internal/storage/memory.go:214-224 | that answer is the only one |
| `Memory.TopIsNewest` | internal/storage/memory.go:214-224 | sorted by the comparison and cut off, the summaries are newest first in starts and identifiers, and what is cut off is no newer |
| `Sorting.LexLessIs` | internal/storage/memory.go:218 | the comparison of identifiers goes by the first byte in which they differ |
| `Sorting.SortStableFunc` | internal/storage/memory.go:179-180 | sorts, loses and adds nothing, and keeps elements the ordering does not tell apart in their order |
| `Memory.Memory.Trace` | internal/storage/memory.go:167-187 | every span of the trace, ordered by start, and those that start together in the order they are held |
| `Memory.Memory.Remove` | internal/storage/memory.go:302-318 | through the recorded keys, strikes the trace from every index |
| `Memory.Memory.EvictExpired` | internal/storage/memory.go:281-299 | removes exactly the traces whose end is before now - retention |
| `Summary.Summarise` | internal/storage/memory.go:336-360 | headed by the last root, or with no root by the earliest span |
| `Search.OtherIndexesAreExact` | internal/storage/memory.go:232-273 | the service, operation and duration indexes, and none, never miss a match |
| `Search.MinuteIndexIsExact` | internal/storage/memory.go:240-256 | every search on the minute index agrees with a scan if and only if no stored trace has more than 24 * 60 minutes without a span start |
| `Search.DayLongTraceHasNoGap` | internal/storage/memory.go:14-18 | a trace of at most that length is always found |
| `Search.FoundIsScan` | internal/storage/storage.go:101-133 | Find's matches are those of a scan with overlaps and matchesSpan |
| `Search.ScanFinds` | internal/storage/storage.go:96-133 | a scan finds exactly the traces that touch the window and, if a service or a bound on durations is given, have one span with the service, the name and a duration within both bounds |
| `Search.ReachedSearchIsScan` | internal/storage/memory.go:190-273 | so on every store reached by any run of writes and evictions |
| `Search.LongSpanIsMissed` | internal/storage/memory.go:240-256 | any one span longer than the widening is missed by a search of the moment it ends |
| `Search.LongTraceIsMissed` | internal/storage/memory.go:240-256 | for instance a span of a day and a minute |
| `Search.LastWriteWins` | internal/storage/memory.go:131-136 | whatever was written, a span identifier holds the last copy written |
| `Search.BoundsAreWritten` | internal/storage/memory.go:114-148 | a stored trace starts and ends with the earliest start and latest end of every copy written for it, replaced ones included |

## Left out

- internal/ingest, internal/otlp and cmd/spandreld: transport, protobuf translation, flags and start-up.
- internal/trace: hex parsing, random identifiers and display strings; a span's times are always set, so ErrNoStart and ErrNoEnd do not arise.
- Node pointers: a node is named by its span identifier, a placeholder by the parent it stands for, and links are maps; pointer aliasing is not modelled.
- Walk's callback: it answers from the node and depth alone, which is what both callers in the sampler do.
- The Reasons counters, the logger, errors' texts, and the order in which one sweep writes its traces.
- Sampler.Sampler.Decide: the chain's verdict and the service are arbitrary functions of the spans here; module Policy says what they are.
- Sampler.Sampler.Sweep: states what holds with no other caller in between, though time passes; the interleaved case is in Runs.
- Runs.AllowanceLaw: the readings that allowances go by come in order, because one runner sweeps and flushes (internal/sampler/sampler.go:340-354).
- Policy.FractionReadsLowBits: the threshold is any number; the rounding of NewKeepFraction is floating point.
- Saturation of differences of times, NaN and rounding of rates, and slice capacities.
- How well CRC-32C detects damage: nothing here depends on it.
- Disk.Disk.Roll: does not model a clock that runs backwards.
- Disk.Disk.EvictExpired: says nothing about which spans of a long trace a later restart finds, which the code's comment gives up too.
- Reopen.Lifetime: retention is zero; with a window, Reopen.OpenDisk and Disk.Disk.EvictSegments say what stays.
- The context arguments, and Len and Stats, which only read.
