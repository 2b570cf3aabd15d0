# geanstalkd core, modelled in Dafny

geanstalkd is a work queue server that speaks a subset of the beanstalkd
protocol. A client connects over TCP and sends text commands:

- `put <pri> <delay> <ttr> <bytes>` followed by a job body;
- `delete <id>`;
- `quit`.

The server stores each job in three places:

- a registry keyed by job ID;
- a ready queue;
- a delay queue.

The two queues are binary heaps. A job with a run time comes before one without. Two jobs with run times are ordered by those times alone, and equal times tie. Jobs without one are ordered by priority, then ID. A tube queue orders named job queues by their first jobs.

This project models that core:

- **Entity** (entity.go): the job value, its numeric types and the error values. It also covers Go's wrap-around when a number of seconds becomes a `time.Duration`.
- **Sort** (sort.go): the job comparison `Less` as written, and `Precedes`, which is `Less` with IDs compared only between equal priorities. Like `Less`, it orders jobs with run times by time alone, as the code does, so equal times tie; the comment at sort.go:6-7 would go on to priority and ID there. The two differ only between jobs without run times, where `Less` lets a lower ID win over a higher priority.
- **HeapOrder and SlotIndex**: the heap-order invariants that `container/heap` keeps, and the map from a key to the slot holding it. These are proof modules. The two heaps below share them.
- **JobHeap** (inmemory/job_heap.go): the job priority queue. It is a class over a slice of jobs and an ID→slot index. Sift-up, sift-down, `Fix`, `Remove`, `Push` and `Pop` are written out as methods. Each is proved to keep the heap order and the index, and to change the contents by exactly the job pushed or removed.
- **TubeHeap** (inmemory/tube_heap.go): the tube priority queue, built the same way. It orders shared job-queue objects by their current first job.
- **JobRegistry** (inmemory/job_btree.go): the B-tree registry, as a map from ID to job. As written, `GetByID` and `GetLargestID` panic on every stored item (see Findings). The storage service and everything above it use the corrected lookups.
- **Storage** (storage.go): the storage service, which keeps a registry and a ready and a delay queue consistent.
- **Server** (server.go, utils.go): the facade. It has the ID generator, `BuildJob`, `Add` and `DeleteByID`.
- **Strings**: Go's `strings.Split`, `strconv.ParseUint` and `%d` formatting, with their round trips.
- **LineReader** (net/io.go): `readCappedLine` over `bufio.Reader.ReadLine`, both as written and as evidently intended.
- **Net** (net/net.go): the connection handler.
  - `Handle`, `handleSingleRequest` and the quit, put, delete and unknown-command handlers are methods of a `ConnectionHandler` class.
  - Each method is proved equal to a pure function on a `Snapshot` of the connection and the store. The snapshot holds the unread input, the written output, the next ID, the registry keys and the two queues' IDs.
  - Lemmas about those functions cover the protocol as a whole: consistency, progress, fresh IDs, and the replies to net_test's inputs.
  - The handlers use the corrected line reader (`LineReader.ReadCappedLine`) and the corrected parser (`Net.IntegerParser.Parse`, `Net.ParsePutArgs`); see Findings. `Net.RequestAsWritten` keeps the written reader for the command line only.
- **LegacyIO, LegacyNet, LegacyHeap** (io.go, net.go, job_heap.go, tube_heap.go, entities.go): the older single-package snapshot.
  - Its line reader, `fillBuffer` over a reader that delivers bytes in chunks, and its put handler are modelled.
  - Its heap element comparisons are modelled, along with the slice `Swap`, `Push` and `Pop` that keep each element's own `Index` field up to date.
  - Lemmas relate each of these to the newer code.

The clock is read twice for each `put`. The first reading stamps the job with its run time (net/net.go:205). The second decides whether the store queues the job as ready or delayed (storage.go:29). The model takes the two readings of a request as a `Readings` pair. `Handle` takes a clock function that gives the pair for each request of the connection in turn. Nothing constrains the readings, so every result holds for any clock. Jobs are values, so the copies that Go makes through `*Job` pointers are not distinguished from the original.

## Model

| member | source | states |
|---|---|---|
| Entity.Job.Copy | entity.go:26-28 | the copy equals the receiver field for field |
| Entity.WrapInt64 | net/net.go:205-206 | the result is congruent to the input modulo 2^64, lies in int64, and equals the input whenever the input fits |
| Entity.Seconds | net/net.go:205-206 | `time.Duration(n)*time.Second` is n·10^9 nanoseconds modulo 2^64, read as an int64, and exactly n·10^9 whenever that fits |
| Sort.Less | sort.go:10-30 | the comparison as written: timed jobs by time, a timed job before an untimed one, untimed jobs by a lower priority or else a lower ID |
| Sort.Precedes | sort.go:10-30 | `Less` with IDs compared only between equal priorities; jobs with run times by time alone, as the code does |
| Sort.TubeLess | inmemory/tube_heap.go:33-51 | the tube comparison as written: a tube with no job is never less, one with a job is less than an empty one, otherwise `Less` of the first jobs |
| Sort.HeadPrecedes | inmemory/tube_heap.go:33-51 | the tube comparison with `Precedes` in place of `Less` |
| Sort.RunnableFirst | sort.go:11-19 | a job with RunnableAt set comes before one without, and never after, under both `Less` and `Precedes` |
| Sort.TimedComparesByTime | sort.go:11-13 | between two timed jobs, `Less` holds exactly when the first time is earlier |
| Sort.UntimedByPriorityThenID | sort.go:21-29 | between two untimed jobs, a lower priority is less, and at equal priority `Less` holds exactly when the ID is lower |
| Sort.LessIrreflexive | sort.go:10-30 | no job is less than itself under either ordering |
| Sort.LessNotAsymmetric | sort.go:21-27 | as written, two untimed jobs (ID 40, priority 1) and (ID 42, priority 0) are each less than the other |
| Sort.LessDiffersFromPrecedes | sort.go:21-29 | `Less` and `Precedes` differ exactly on untimed pairs with a higher priority and a lower ID |
| Sort.LessAgreesOnTimedJobs | sort.go:11-19 | on timed jobs (every job BuildJob makes) `Less` and `Precedes` coincide |
| Sort.PrecedesIsStrictWeakOrder | sort.go:10-30 | `Precedes` is irreflexive, asymmetric and has transitive incomparability, as container/heap needs |
| Sort.PrecedesNegTransitive | sort.go:10-30 | not-after is transitive under `Precedes` |
| Sort.TestOrderHolds | testing/job_priority_queue.go:133-139 | each job of the queue tests' five-job list precedes the next and not the reverse, under both orderings |
| Sort.EmptyTubesLast | inmemory/tube_heap.go:33-51 | a tube with no job is never less; a tube with a job is less than an empty one |
| Sort.TubeLessAgreesOnTimedHeads | inmemory/tube_heap.go:33-51 | on tubes whose first jobs are absent or timed, the written tube comparison and the one the tube queue uses agree |
| Sort.HeadPrecedesIsStrictWeakOrder | inmemory/tube_heap.go:33-51 | the tube comparison built on `Precedes` is a strict weak order |
| HeapOrder.Swap | inmemory/job_heap.go:34-38 | swapping two slots exchanges exactly those two elements and keeps the multiset |
| HeapOrder.RootIsMinimal | inmemory/job_heap.go:112-121 | in a heap-ordered prefix, no element is less than slot 0 |
| HeapOrder.OverwriteIsDownReady | inmemory/job_heap.go:82-94 | overwriting one slot of a heap leaves it ready for sift-down from that slot |
| HeapOrder.DownStep | inmemory/job_heap.go:98-108 | one sift-down swap with the smaller child keeps the sift-down invariant one level lower |
| HeapOrder.DownDone | inmemory/job_heap.go:98-108 | when no child is less, sift-down is finished: ordered if it moved, ready for sift-up otherwise |
| HeapOrder.UpStep | inmemory/job_heap.go:125-134 | one sift-up swap with the parent keeps the sift-up invariant one level higher |
| HeapOrder.UpDone | inmemory/job_heap.go:125-134 | when the parent is not greater, sift-up leaves the heap ordered |
| HeapOrder.AppendIsUpReady | inmemory/job_heap.go:125-134 | appending to an ordered heap gives a heap ready for sift-up from the new last slot |
| HeapOrder.SwapLastIsDownReady | inmemory/job_heap.go:138-151 | swapping a slot with the last one leaves the prefix without the last slot ready for sift-down |
| SlotIndex.BothWays | inmemory/job_heap.go:34-45 | the ID→slot index, read slot by slot and key by key, names each element's slot |
| SlotIndex.KeysAreElementKeys | inmemory/job_heap.go:16-19 | a key is in the index exactly when some slot holds an element with that key |
| SlotIndex.SwapKeeps | inmemory/job_heap.go:34-38 | exchanging two slots and re-recording both keeps the index exact |
| SlotIndex.AppendKeeps | inmemory/job_heap.go:40-45 | appending an element with a new key and recording it keeps the index exact |
| SlotIndex.DropLastKeeps | inmemory/job_heap.go:47-57 | dropping the last slot and forgetting its key keeps the index exact |
| SlotIndex.ReplaceKeeps | inmemory/job_heap.go:82-94 | replacing an element by one with the same key keeps the index exact |
| JobHeap.JobHeapPriorityQueue.constructor | inmemory/job_heap.go:67-79 | a new queue is empty and well formed |
| JobHeap.JobHeapPriorityQueue.HasID | inmemory/job_heap.go:16-19 | true exactly when some queued job has the ID |
| JobHeap.JobHeapPriorityQueue.Head | inmemory/job_heap.go:116-120 | the job in slot 0, or none for an empty queue |
| JobHeap.JobHeapPriorityQueue.LessAt | inmemory/job_heap.go:28-32 | slot i is less than slot j when its job precedes the other's |
| JobHeap.JobHeapPriorityQueue.Swap | inmemory/job_heap.go:34-38 | the slots are exchanged, the index follows them, and the IDs and multiset are unchanged |
| JobHeap.JobHeapPriorityQueue.PushItem | inmemory/job_heap.go:40-45 | the job is appended and its ID recorded at the new last slot |
| JobHeap.JobHeapPriorityQueue.PopItem | inmemory/job_heap.go:47-57 | the last job is removed and returned, and its ID forgotten |
| JobHeap.JobHeapPriorityQueue.Up | inmemory/job_heap.go:125-134 | sift-up restores heap order, keeping the multiset and the IDs |
| JobHeap.JobHeapPriorityQueue.DownRound | inmemory/job_heap.go:98-108 | one sift-down step either stops with no child less, or moves the hole down keeping the invariant |
| JobHeap.JobHeapPriorityQueue.Down | inmemory/job_heap.go:98-108 | sift-down either orders the heap or reports that it did not move, leaving it ready for sift-up |
| JobHeap.JobHeapPriorityQueue.Fix | inmemory/job_heap.go:82-94 | `heap.Fix` restores a valid heap after one slot changed, keeping the multiset and IDs |
| JobHeap.JobHeapPriorityQueue.HeapPush | inmemory/job_heap.go:125-134 | `heap.Push` adds exactly the job and its ID and keeps the heap valid |
| JobHeap.JobHeapPriorityQueue.SwapOutRoot | inmemory/job_heap.go:98-108 | the root moves to the last slot and the rest is re-ordered |
| JobHeap.JobHeapPriorityQueue.HeapPop | inmemory/job_heap.go:98-108 | `heap.Pop` removes and returns the root and keeps the heap valid |
| JobHeap.JobHeapPriorityQueue.SwapOut | inmemory/job_heap.go:138-151 | slot i moves to the last slot and the rest is re-ordered |
| JobHeap.JobHeapPriorityQueue.HeapRemove | inmemory/job_heap.go:138-151 | `heap.Remove` removes and returns slot i and keeps the heap valid |
| JobHeap.JobHeapPriorityQueue.Update | inmemory/job_heap.go:82-94 | an unknown ID fails with JobMissing and changes nothing; otherwise the queued job with that ID is replaced by the new one and the heap stays valid |
| JobHeap.JobHeapPriorityQueue.Pop | inmemory/job_heap.go:98-108 | an empty queue fails with EmptyQueue; otherwise the old head, the job `Peek` would have returned, which no queued job precedes, is removed with its ID |
| JobHeap.JobHeapPriorityQueue.Peek | inmemory/job_heap.go:112-121 | an empty queue fails with EmptyQueue; otherwise the queued job that no job precedes is returned and nothing changes |
| JobHeap.JobHeapPriorityQueue.Push | inmemory/job_heap.go:125-134 | a queued ID fails with JobAlreadyExist and changes nothing; otherwise exactly the job is added |
| JobHeap.JobHeapPriorityQueue.RemoveByID | inmemory/job_heap.go:138-151 | an unknown ID fails with JobMissing and changes nothing; otherwise exactly the job with that ID is removed |
| TubeHeap.TubeHeapPriorityQueue.constructor | inmemory/tube_heap.go:87-99 | a new tube queue is empty and well formed |
| TubeHeap.TubeHeapPriorityQueue.HasID | inmemory/tube_heap.go:21-24 | true exactly when some slot holds a tube of that name |
| TubeHeap.TubeHeapPriorityQueue.LessAt | inmemory/tube_heap.go:33-51 | slot i is less than slot j exactly when its first job precedes the other's, with empty tubes last |
| TubeHeap.TubeHeapPriorityQueue.Swap | inmemory/tube_heap.go:53-57 | the slots and their remembered heads are exchanged, the index follows, and the names and multiset are unchanged |
| TubeHeap.TubeHeapPriorityQueue.PushItem | inmemory/tube_heap.go:59-64 | the tube is appended and its name recorded at the new last slot |
| TubeHeap.TubeHeapPriorityQueue.PopItem | inmemory/tube_heap.go:66-76 | the last tube is removed and returned, and its name forgotten |
| TubeHeap.TubeHeapPriorityQueue.Up | inmemory/tube_heap.go:129-138 | sift-up by the queues' current first jobs keeps the multiset and the names; when only the edge into the start slot was broken, the heap ends ordered |
| TubeHeap.TubeHeapPriorityQueue.DownRound | inmemory/tube_heap.go:102-113 | one sift-down step either stops with no child less than the hole, or moves the hole down, keeping the sift-down invariant whenever it held |
| TubeHeap.TubeHeapPriorityQueue.Down | inmemory/tube_heap.go:102-113 | sift-down keeps the multiset and names; from a heap broken only at the start slot it either orders the heap or reports that it did not move |
| TubeHeap.TubeHeapPriorityQueue.Fix | inmemory/tube_heap.go:102-113 | `heap.Fix` sifts one slot by the current first jobs, keeping the multiset and names, and leaves a valid tube heap when only that slot was out of place |
| TubeHeap.TubeHeapPriorityQueue.HeapPush | inmemory/tube_heap.go:129-138 | `heap.Push` adds exactly the tube and its name and keeps the heap valid |
| TubeHeap.TubeHeapPriorityQueue.SwapOut | inmemory/tube_heap.go:142-155 | slot i moves to the last slot and the rest is re-ordered |
| TubeHeap.TubeHeapPriorityQueue.HeapRemove | inmemory/tube_heap.go:142-155 | `heap.Remove` removes and returns slot i and keeps the heap valid |
| TubeHeap.TubeHeapPriorityQueue.FixByTube | inmemory/tube_heap.go:102-113 | accepts any state, as the source does: an unknown name fails with QueueMissing and moves nothing; a known one is sifted by the queues' current first jobs, keeping the multiset and names, and the heap is ordered afterwards when only that tube was out of place, in particular when every other queue is unchanged |
| TubeHeap.TubeHeapPriorityQueue.Peek | inmemory/tube_heap.go:117-125 | in any state: an empty heap fails with EmptyQueue, otherwise the root's queue is returned; when the heap is ordered and its first jobs current, no tube's first job precedes the returned one's, and it has a job whenever any tube has one |
| TubeHeap.TubeHeapPriorityQueue.Push | inmemory/tube_heap.go:129-138 | a known name fails with QueueAlreadyExist and changes nothing; otherwise exactly the tube is added |
| TubeHeap.TubeHeapPriorityQueue.RemoveByTube | inmemory/tube_heap.go:142-155 | an unknown name fails with QueueMissing and changes nothing; otherwise exactly the tube of that name is removed |
| TubeHeap.NonEmptyTubeAtRoot | inmemory/tube_heap.go:33-51 | in an ordered two-tube heap with current first jobs, a tube with a job sits above one without |
| TubeHeap.TwoTubes | inmemory/tube_heap_test.go:41-80 | a queue holding job 42 pushed under "default", then an empty queue under "testTube", leaves "default" at the root |
| TubeHeap.FixOtherTubeThenPeek | inmemory/tube_heap_test.go:83-98 | pushing job 41 to the "default" queue, then fixing "testTube", then peeking returns the "default" queue |
| JobRegistry.LargestExists | inmemory/job_btree.go:73-79 | every non-empty set of IDs has a largest element |
| JobRegistry.Largest | inmemory/job_btree.go:73-79 | the result is in the set and no element exceeds it |
| JobRegistry.BTreeJobRegistry.constructor | inmemory/job_btree.go:17 | a new registry is empty |
| JobRegistry.BTreeJobRegistry.Insert | inmemory/job_btree.go:23-32 | a registered ID fails with JobAlreadyExist and changes nothing; otherwise the job is stored under its ID |
| JobRegistry.BTreeJobRegistry.Update | inmemory/job_btree.go:34-43 | an unknown ID fails with JobMissing and changes nothing; otherwise the job replaces the one with its ID |
| JobRegistry.BTreeJobRegistry.GetByID | inmemory/job_btree.go:55-63 | succeeds exactly when the ID is registered, with that job; otherwise JobMissing |
| JobRegistry.BTreeJobRegistry.DeleteByID | inmemory/job_btree.go:65-71 | an unknown ID fails with JobMissing and changes nothing; otherwise exactly that ID is removed |
| JobRegistry.BTreeJobRegistry.GetLargestID | inmemory/job_btree.go:73-79 | an empty registry fails with EmptyRegistry; otherwise the largest registered ID |
| JobRegistry.ItemToJob | inmemory/job_btree.go:45-53 | the type assertion returns the job of a pointer item and panics on a value item |
| JobRegistry.BTreeJobRegistry.GetByIDAsWritten | inmemory/job_btree.go:55-63 | as written: JobMissing for an unknown ID, and a panic for every registered one |
| JobRegistry.BTreeJobRegistry.GetLargestIDAsWritten | inmemory/job_btree.go:73-79 | as written: EmptyRegistry for an empty registry, and a panic otherwise |
| JobRegistry.BTreeJobRegistry.LookupPanicsAsWritten | inmemory/job_btree.go:45-63 | as written, a lookup panics exactly where the corrected `GetByID` finds the job, and otherwise returns what it returns |
| JobRegistry.BTreeJobRegistry.LargestPanicsAsWritten | inmemory/job_btree.go:73-79 | as written, asking for the largest ID panics exactly where the corrected `GetLargestID` answers, and otherwise returns what it returns |
| Storage.StorageService.constructor | storage.go:17-21 | the service holds the given registry and two distinct queues |
| Storage.IsReady | storage.go:29 | a job is ready when it has a run time and the clock reading is strictly after it |
| Storage.StorageService.Add | storage.go:25-35 | a registered ID fails with JobAlreadyExist and changes nothing; otherwise the job is registered and pushed to the ready queue if its time has passed, else to the delay queue, keeping registry and queues consistent |
| Storage.StorageService.PushIgnoringError | storage.go:30-32 | a push whose error is dropped adds the job unless its ID is already queued |
| Storage.StorageService.Update | storage.go:39-46 | an unknown ID fails with JobMissing; otherwise the registry and whichever queue holds the ID get the new job, and the queues' IDs are unchanged |
| Storage.StorageService.DeleteByID | storage.go:50-57 | an unknown ID fails with JobMissing; otherwise the ID leaves the registry and both queues |
| Storage.StorageService.Read | storage.go:61-63 | succeeds exactly when the ID is registered, with that job; otherwise JobMissing |
| Storage.StorageService.PeekNextDelayed | storage.go:67-73 | an empty delay queue fails with NoJobDelayed; otherwise its first job, which no delayed job precedes |
| Storage.StorageService.PopNextReady | storage.go:77-83 | an empty ready queue fails with NoJobReady; otherwise a ready job no other precedes is removed from the ready queue |
| Server.NextID | utils.go:13-14 | the generator's next ID is one more, wrapping to 0 after the largest uint64 |
| Server.BuiltJob | server.go:27-35 | the built job has the given ID, priority, time-to-run and body and RunnableAt set to the given time |
| Server.BuiltJobsOrderByTime | server.go:27-35 | built jobs are ordered by run time alone, where `Less` and `Precedes` agree and are asymmetric |
| Server.Server.constructor | utils.go:10 | the first ID handed out is 1 |
| Server.Server.BuildJob | server.go:27-35 | the job takes the next ID and the generator advances |
| Server.Server.Add | server.go:38-41 | as `StorageService.Add`: JobAlreadyExist for a registered ID, otherwise registered and queued by readiness |
| Server.Server.DeleteByID | server.go:44-46 | as `StorageService.DeleteByID`: JobMissing for an unknown ID, otherwise removed everywhere |
| Strings.Split | net/net.go:126 | `strings.Split` returns at least one part and no part contains the separator |
| Strings.JoinSplit | net/net.go:126 | joining the parts of a split gives back the string |
| Strings.SplitJoin | net/net.go:126 | splitting parts joined by a separator none of them contains gives back the parts |
| Strings.SplitWithoutSeparator | net/net.go:126 | a prefix without the separator stays whole at the front of the first part |
| Strings.Text | net/net.go:117 | the string of a byte slice has one character per byte, of the same value |
| Strings.Bytes | net/net_test.go:67-74 | the bytes of an 8-bit string, which read back as the same string |
| Strings.DigitValue | net/net.go:161-167 | a decimal digit's value is below 10 |
| Strings.Digit | net/net.go:220 | the digit character of a value below 10 reads back as that value |
| Strings.ParseUint | net/net.go:161-167 | no error only for a non-empty string of digits; a syntax error gives 0; a range error gives the largest uint64 |
| Strings.ParseDigits | net/net.go:161-167 | the digit loop: no error only for digits, never below its start, 0 on a syntax error, the largest uint64 on overflow |
| Strings.ParseDigitsAppend | net/net.go:161-167 | parsing a concatenation continues from the value of the first part |
| Strings.FormatUint | net/net.go:220 | `%d` gives a non-empty string of digits without a leading zero |
| Strings.ParseFormatUint | net/net.go:220 | parsing what `%d` writes gives the number back with no error |
| Strings.FormatUintWidth | net/net.go:220 | a number below 10^k has at most k digits |
| Strings.FormatUint64Width | net/net.go:220 | a uint64 has at most 20 digits |
| Strings.FormattedHasNoSpace | net/net.go:220 | a formatted number contains no space, so it stays one word |
| LineReader.IndexOf | net/io.go:15 | the first position of a byte, or the length when it is absent |
| LineReader.NextLine | net/io.go:15 | `bufio.Reader.ReadLine`: EOF exactly on empty input; otherwise a fragment of at most one buffer with no line feed, taken from the front of the input, which gets shorter; `more` only for a non-empty fragment followed by the rest |
| LineReader.CappedLoop | net/io.go:13-32 | the loop of `readCappedLine`: fragments are joined until one ends the line, the joined line passes the cap (LineTooLong) or a read fails |
| LineReader.CappedLineIsLinePrefix | net/io.go:13-34 | the joined line is what was already joined followed by a prefix of the input |
| LineReader.CappedLineHasNoLineFeed | net/io.go:13-34 | the joined line contains no line feed |
| LineReader.CappedLineBounded | net/io.go:23-26 | the loop reports LineTooLong exactly when the line is longer than the cap, and the line is never more than one buffer past the cap |
| LineReader.StopsAtLineEnd | net/io.go:27-29 | a first fragment that ends the line within the cap is the whole line |
| LineReader.TerminatedLine | net/io.go:13-34 | a short line ended by CRLF is read whole, and the input after CRLF is left |
| LineReader.ErrorStopsWithoutAppending | net/io.go:16-19 | a read error stops the loop with the line joined so far and the input untouched |
| LineReader.Filled | net/net.go:191-192 | `io.ReadFull` into a zeroed slice of n bytes: the available bytes, then zeros |
| LineReader.Reader.constructor | net/net.go:68 | the reader starts at the given input |
| LineReader.Reader.ReadLine | net/io.go:15 | one `ReadLine` call returns the next fragment and consumes it |
| LineReader.Reader.ReadFull | net/net.go:191-192 | `io.ReadFull` reads `Filled` and consumes what it read |
| LineReader.ReadFragments | net/io.go:13-31 | the loop of `readCappedLine` returns what `CappedLoop` describes |
| LineReader.ReadCappedLineAsWritten | net/io.go:13-34 | as written, the line and remaining input of the loop, with a nil error whatever happened |
| LineReader.ReadCappedLine | net/io.go:13-34 | the loop's line and its error: no error means a line within the cap that consumed input; LineTooLong means longer than the cap by at most a buffer; the line is always a line-feed-free prefix of the input |
| LineReader.ConsumesInput | net/io.go:13-34 | the loop leaves a suffix of its input, strictly shorter when it succeeds |
| LineReader.LongLineIsTooLong | net/io_test.go:9-22 | 10000 bytes without a line end, capped at 1024, fail as too long after one buffer |
| LineReader.ShortLineIsRead | net/io_test.go:24-35 | "Hello!\n" is read as "Hello!" with no error |
| Net.CommandOfJoined | net/net.go:126-143 | a line made of a name and space-free arguments selects quit, put or delete for those names, with the arguments, and the unknown-command handler for any other name |
| Net.CommandOf | net/net.go:126-143 | the handler a line selects by its first space-separated word, with the other words as arguments |
| Net.PutArgsOf | net/net.go:170-187 | the put arguments are accepted exactly when there are four and each parses as a uint64 |
| Net.PutArgsRoundTrip | net/net.go:170-187 | four formatted numbers parse back to those numbers |
| Net.DeleteArgOf | net/net.go:224-238 | the delete argument is accepted exactly when there is one and it parses as a uint64 |
| Net.DeleteArgRoundTrip | net/net.go:224-238 | a formatted ID parses back to itself |
| Net.InsertedReplyNamesTheJob | net/net.go:220 | the INSERTED reply splits into two words whose second is the ID, which `delete` accepts |
| Net.IntegerParser.constructor | net/net.go:177 | a new parser holds no error |
| Net.IntegerParser.ParseAsWritten | net/net.go:161-167 | as written: returns the parsed value, and records the new error only when an error is already held |
| Net.IntegerParser.Parse | net/net.go:161-167 | returns the parsed value and keeps the first error met |
| Net.ParsePutArgsAsWritten | net/net.go:177-182 | as written, four parses never report an error, whatever the arguments |
| Net.ParsePutArgs | net/net.go:177-182 | four parses report no error exactly when all four arguments are numbers, and then give `PutArgsOf` |
| Net.NonNumberPassesAsWritten | net/net.go:161-167 | an argument that is not a number passes the written parser with no error, and the corrected one reports an error |
| Net.Session | net/net.go:71-96 | `Handle` always ends with the connection closed, request k reading the clock as `clock(k)` |
| Net.PutPlan | net/net.go:189-208 | the body is `nbytes` bytes read as `io.ReadFull` does; a trailer that fails or is not empty gives EXPECTED_CRLF; otherwise the job built from the arguments, the next ID and the clock |
| Net.PutEffect | net/net.go:169-221 | BAD_FORMAT unless the arguments parse, otherwise the body step |
| Net.BodyEffect | net/net.go:189-221 | EXPECTED_CRLF, or the job stamped with the first clock reading and added under the second, taking the next ID |
| Net.AddEffect | net/net.go:209-220 | a taken ID exits the process; otherwise INSERTED with the ID, the job registered and queued as ready or delayed by the clock reading |
| Net.DeleteEffect | net/net.go:223-238 | BAD_FORMAT unless there is exactly one numeric argument, otherwise the delete of that ID |
| Net.DeleteIdEffect | net/net.go:240-251 | DELETED and the ID removed everywhere when registered, otherwise NOT_FOUND and nothing changes |
| Net.Request | net/net.go:107-149 | read a capped command line; close on an error, otherwise run the handler it selects |
| Net.AfterLine | net/net.go:117-145 | after the line is read: close on an error, otherwise run the selected handler on the input after it |
| Net.HandlerEffect | net/net.go:128-145 | quit closes, put and delete run their handlers, anything else is answered UNKNOWN_COMMAND |
| Net.RequestAsWritten | net/io.go:33 | a request whose command line is read with the loop's error dropped; the rest of the request is read as `AfterLine` reads it |
| Net.RequestKeepsConsistent | net/net.go:107-149 | every request keeps the ready and delay IDs disjoint and within the registry |
| Net.PutKeepsConsistent | net/net.go:169-221 | a put keeps the store consistent |
| Net.AddKeepsConsistent | net/net.go:209-220 | adding a built job keeps the store consistent |
| Net.DeleteKeepsConsistent | net/net.go:223-252 | a delete keeps the store consistent |
| Net.RequestProgresses | net/net.go:107-149 | a request only appends to the output and leaves a suffix of the input, strictly shorter unless the connection closes |
| Net.HandlerProgresses | net/net.go:132-145 | a handler only appends to the output and leaves a suffix of the input |
| Net.PutProgresses | net/net.go:169-221 | a put only appends to the output and leaves a suffix of the input |
| Net.BodyProgresses | net/net.go:189-221 | reading the body and trailer only appends to the output and leaves a suffix of the input |
| Net.AddAppends | net/net.go:209-220 | adding only appends to the output and reads no input |
| Net.FreshIdsNeverCollide | net/net.go:203-217 | a request takes at most one ID; while IDs stay below the generator and it has not wrapped, no put hits a taken ID, so the process never exits |
| Net.HandlerTakesFreshId | net/net.go:132-145 | a handler takes at most one ID and never a registered one |
| Net.PutTakesFreshId | net/net.go:203-217 | a put takes at most one ID and never a registered one |
| Net.JoinedCommand | net/net.go:126 | space-joined words of command characters form a command line of bounded length |
| Net.PutCommand | net/net.go:19 | a formatted put line fits in the 1024-byte line cap |
| Net.RequestOfLine | net/net.go:107-145 | a request on a short command line followed by CRLF runs the handler that line selects on the input after it |
| Net.PutCommandSelectsPut | net/net.go:132-141 | a formatted put line selects the put handler with its own four numbers |
| Net.BodyIsInserted | net/net.go:189-208 | a body of the announced length followed by CRLF builds a job with that body and the announced priority, delay and time-to-run |
| Net.BodyEffectInserts | net/net.go:189-220 | a body of the announced length followed by CRLF adds a job stamped with the first clock reading, under the second |
| Net.PutRequestIsInserted | net/net.go:169-221 | a well-formed put request adds the built job under the next ID |
| Net.DeleteCommand | net/net.go:19 | a formatted delete line fits in the line cap |
| Net.DeleteRequestDeletes | net/net.go:223-252 | a delete request for a registered ID answers DELETED and removes it everywhere; otherwise NOT_FOUND and nothing changes |
| Net.DeleteLineSelectsDelete | net/net.go:223-252 | a delete request line runs the delete of that ID on the input after it |
| Net.DeleteCommandSelectsDelete | net/net.go:132-143 | a formatted delete line selects the delete handler with its own ID |
| Net.EndOfInputCloses | net/net.go:117-119 | at the end of the input, a request and the session close the connection and change nothing else |
| Net.SessionUnfolds | net/net.go:86-95 | the session stops after a request that closes and otherwise goes on from its state |
| Net.HelloPutLine | net/net_test.go:17 | the put line of the tests is "put 0 0 10 5" |
| Net.PutIsInsertedUnderNextId | net/net.go:203-220 | a well-formed put with a free next ID answers INSERTED with that ID, registers it and advances the generator |
| Net.PutAtOnceIsReadyWhenClockAdvanced | storage.go:29-33 | a put with delay 0 is queued as ready exactly when the store's reading is later than the job's stamp, and as delayed otherwise |
| Net.HelloIsReadyOnceClockMoves | storage.go:29-33 | `put 0 0 10 5` on a fresh connection leaves job 1 ready, and only ready, when the store's clock reading is later than the stamping one, and delayed otherwise |
| Net.AddEffectInserts | net/net.go:209-220 | adding a job with a new ID answers INSERTED with its ID and registers it |
| Net.FirstHelloGetsOne | net/net_test.go:15-18 | on a new connection the first put of "hello" is answered INSERTED 1 |
| Net.SecondHelloGetsTwo | net/net_test.go:15-18 | the second put of "hello" is answered INSERTED 2 |
| Net.TwoPutsGetIdsOneAndTwo | net/net_test.go:15-18 | `TestJobIdIsIncreased`: two puts are answered INSERTED 1 and INSERTED 2 |
| Net.OneRequestSession | net/net.go:86-95 | one request that leaves no input and stays open makes the whole session |
| Net.ShortWordsLine | net/net.go:126 | a few short words make a line within the cap whose words have no spaces |
| Net.SingleLineSession | net/net.go:71-96 | a session on one command line is that line's handler followed by closing |
| Net.PutWithTooFewArgs | net/net_test.go:25-31 | `TestPutWithBadFormat`: a put with fewer than four arguments is answered BAD_FORMAT and stores nothing |
| Net.UnknownCommandIsAnswered | net/net.go:254-258 | a line whose first word names no command is answered UNKNOWN_COMMAND and stores nothing |
| Net.ThisIsATestIsUnknown | net/net_test.go:33-36 | `TestUnknownCommand`: "this is a test" is answered UNKNOWN_COMMAND |
| Net.QuitEndsSession | net/net_test.go:38-42 | `TestQuitCommand`: quit closes the connection with no output and reads nothing after it |
| Net.QuitLineSelectsQuit | net/net.go:136-137 | the line "quit" selects the quit handler |
| Net.OnePutGetsIdOne | net/net_test.go:20-23 | `TestPut`: one put is answered INSERTED 1 |
| Net.EndOfInputLoopsAsWritten | net/io.go:33 | with the nil error as written, a request at the end of the input answers UNKNOWN_COMMAND, consumes nothing and keeps the connection open |
| Net.ConnectionHandler.constructor | net/net.go:62-69 | a handler over a server and a connection, with nothing written and the connection open |
| Net.ConnectionHandler.QuitHandler | net/net.go:151-155 | closes the connection and writes nothing |
| Net.ConnectionHandler.UnknownCommandHandler | net/net.go:254-258 | writes UNKNOWN_COMMAND and nothing else |
| Net.ConnectionHandler.PutHandler | net/net.go:169-221 | the connection and store change as `PutEffect` describes: the job is stamped with the first clock reading and queued by the second |
| Net.ConnectionHandler.ReadBodyAndAdd | net/net.go:189-221 | the body, trailer, job and reply as `BodyEffect` describes: `BuildJob` gets the first clock reading, `Add` the second |
| Net.ConnectionHandler.ReadBody | net/net.go:191-193 | reads `Filled` bytes and then the trailer line, which is accepted exactly when it reads without error and is empty |
| Net.ConnectionHandler.AddAndReply | net/net.go:209-220 | adds the job and replies as `AddEffect` describes |
| Net.ConnectionHandler.AddToStore | net/net.go:209 | succeeds exactly when the ID is new, then registers and queues the job; otherwise changes nothing |
| Net.ConnectionHandler.DeleteHandler | net/net.go:223-252 | the connection and store change as `DeleteEffect` describes |
| Net.ConnectionHandler.DeleteAndReply | net/net.go:240-251 | deletes and replies as `DeleteIdEffect` describes |
| Net.ConnectionHandler.HandleSingleRequest | net/net.go:107-149 | one request changes the connection and store as `Request` describes for that request's two clock readings |
| Net.ConnectionHandler.ReadCommandLine | net/net.go:117 | reads the command line with the corrected capped reader |
| Net.ConnectionHandler.RunHandler | net/net.go:128-145 | runs the selected handler as `HandlerEffect` describes, a put stamping its job with the first clock reading and queueing it by the second |
| Net.ConnectionHandler.Handle | net/net.go:71-96 | the whole connection runs as `Session` describes, request k reading the clock as `clock(k)`, and ends closed |
| LegacyIO.ReadCappedLine | io.go:10-30 | the older reader returns what `LegacyLoop` describes: an empty line on a read error, a one-fragment line at once, LineTooLong past the cap |
| LegacyIO.LegacyLoop | io.go:10-30 | the older loop: an empty line on a read error, a line read in one fragment returned at once, LineTooLong once a joined line passes the cap |
| LegacyIO.JoinedLineWithinCap | io.go:21-24 | once a line spans several fragments, no error means within the cap, and LineTooLong means past it |
| LegacyIO.AgreesWithCappedLoop | io.go:10-30 | the older and newer readers leave the same input, read the same line when neither fails, and agree on the error except for a single-fragment line past the cap |
| LegacyIO.ShortcutSkipsCap | io.go:17-20 | a single-fragment line longer than the cap is returned with no error by the older reader and refused by the newer one |
| LegacyIO.LongSingleFragmentLine | io.go:17-20 | a 2000-byte line ended by CRLF passes a 1024-byte cap in the older reader |
| LegacyIO.LongLineIsTooLong | io_test.go:9-22 | 10000 bytes without a line end fail as too long after one buffer |
| LegacyIO.ShortLineIsRead | io_test.go:24-35 | "Hello!\n" is read as "Hello!" with no error |
| LegacyNet.ChunkReader.constructor | net.go:176 | the reader delivers the given chunks in order |
| LegacyNet.ChunkReader.Read | net.go:180 | one `Read` copies at most the requested bytes from the front of the input into the buffer window, touches nothing else, and reports EOF only when nothing is left |
| LegacyNet.FillBuffer | net.go:176-187 | `fillBuffer` fills the buffer from the front of the input, returns no error exactly when the input covered it, and otherwise reports EOF with the rest untouched |
| LegacyNet.ReadBody | net.go:211-212 | the body read into a zeroed slice is `Filled`, the same as `io.ReadFull` gives |
| LegacyNet.LegacySession | net.go:79-104 | the older `Handle` always ends with the connection closed |
| LegacyNet.LegacyPutPlan | net.go:209-228 | the older body read with `fillBuffer`, then the trailer with the older reader, and the job built as in net/net.go |
| LegacyNet.LegacyBodyEffect | net.go:209-240 | EXPECTED_CRLF, or the job stamped with the first clock reading and added under the second |
| LegacyNet.LegacyHandlerEffect | net.go:134-150 | quit, delete and unknown commands as in net/net.go; put with the older body read. The put and delete arguments are parsed with the corrected parser, `Net.PutArgsOf` and `Net.DeleteArgOf`, not the written `integerParser` of net.go:168-174 (see Findings) |
| LegacyNet.LegacyRequest | net.go:115-156 | a command line read with the older reader; close on an error, otherwise the selected handler |
| LegacyNet.LegacyConsumes | io.go:10-30 | the older reader leaves a suffix of its input, strictly shorter when it succeeds |
| LegacyNet.LegacyRequestProgresses | net.go:115-156 | an older request only appends to the output and consumes input unless it closes |
| LegacyNet.LegacyHandlerProgresses | net.go:134-150 | an older handler only appends to the output and leaves a suffix of the input |
| LegacyNet.LegacyBodyProgresses | net.go:209-240 | the older body read only appends to the output and leaves a suffix of the input |
| LegacyNet.NoLongLinesInSuffix | io.go:17-20 | having no over-cap single-fragment line holds of what is left after reading |
| LegacyNet.LegacyPutPlanAgrees | net.go:209-228 | without an over-cap trailer, the older body read builds the same job as the newer one |
| LegacyNet.LegacyHandlerAgrees | net.go:134-150 | without over-cap lines, the older handlers act as the newer ones |
| LegacyNet.LegacyBodyAgrees | net.go:209-240 | without over-cap lines, the older body step acts as the newer one |
| LegacyNet.LegacyRequestAgrees | net.go:115-156 | without over-cap lines, an older request acts as a newer one |
| LegacyNet.LegacySessionAgrees | net.go:79-104 | without over-cap lines, an older session produces the same state as a newer one |
| LegacyNet.LongCommandLineIsAnswered | io.go:17-20 | a 2000-byte command line gets UNKNOWN_COMMAND from the older server, while the newer one closes the connection |
| LegacyNet.UnknownWord | net.go:134-150 | a space-free word longer than six characters selects the unknown-command handler |
| LegacyHeap.KeyLessIrreflexive | job_heap.go:8-21 | no job key is less than itself |
| LegacyHeap.KeyLess | job_heap.go:8-21 | as written: a lower priority wins, and otherwise a lower ID wins, whatever the priorities |
| LegacyHeap.KeyPrecedes | job_heap.go:8-21 | the intended order: by priority, and by ID between equal priorities |
| LegacyHeap.JobLess | job_heap.go:8-21 | `runnableAtJobHeap.Less` on two jobs: `KeyLess` of their priority and ID |
| LegacyHeap.KeyLessBothWays | job_heap.go:8-21 | as written, keys (priority 1, ID 2) and (priority 2, ID 1) are each less than the other |
| LegacyHeap.KeyLessExtendsPrecedes | job_heap.go:8-21 | the written comparison accepts every intended pair, plus exactly the pairs with a higher priority and a lower ID |
| LegacyHeap.KeyPrecedesIsStrictTotalOrder | job_heap.go:8-21 | the intended key order is irreflexive, asymmetric, transitive and total |
| LegacyHeap.LegacyJob.constructor | entities.go:16-26 | a job with the given fields and index 0 |
| LegacyHeap.JobLessReadsOnlyKeys | job_heap.go:8-21 | jobs with equal priority and ID compare alike, whatever their run times |
| LegacyHeap.LegacyTube.constructor | entities.go:29-32 | a tube with the given jobs and index 0 |
| LegacyHeap.EmptyTubeLessThanItself | tube_heap.go:13-15 | as written, a tube with no jobs is less than itself |
| LegacyHeap.TubeLessCases | tube_heap.go:8-32 | true when the right tube is empty, false when only the left one is, otherwise the first jobs' comparison |
| LegacyHeap.TubeLess | tube_heap.go:8-32 | as written: true when the right tube is empty, false when only the left one is, otherwise `JobLess` of the first jobs |
| LegacyHeap.TubePrecedes | tube_heap.go:8-32 | the intended order: tubes with jobs by their first jobs' keys, empty tubes last |
| LegacyHeap.TubePrecedesIsStrict | tube_heap.go:8-32 | the intended tube order is irreflexive and asymmetric, and implies the written one |
| LegacyHeap.RunnableAtJobHeap.constructor | job_heap.go:4 | an empty heap slice |
| LegacyHeap.RunnableAtJobHeap.IndexFinds | job_heap.go:23-27 | with positions recorded, a job's index finds it and it occurs once |
| LegacyHeap.RunnableAtJobHeap.Less | job_heap.go:8-21 | compares the jobs in slots i and j with `JobLess` |
| LegacyHeap.RunnableAtJobHeap.Swap | job_heap.go:23-27 | exchanges two slots and records their new positions, keeping every position right |
| LegacyHeap.RunnableAtJobHeap.Push | job_heap.go:29-34 | appends the job with the old length as its position |
| LegacyHeap.RunnableAtJobHeap.Pop | job_heap.go:36-46 | removes and returns the last job, marked with position -1 |
| LegacyHeap.TubeHeap.constructor | tube_heap.go:4 | an empty heap slice |
| LegacyHeap.TubeHeap.Less | tube_heap.go:8-32 | compares the tubes in slots i and j with `TubeLess` |
| LegacyHeap.TubeHeap.Swap | tube_heap.go:34-38 | exchanges two slots and records their new positions, keeping every position right |
| LegacyHeap.TubeHeap.Push | tube_heap.go:40-45 | appends the tube with the old length as its position |
| LegacyHeap.TubeHeap.Pop | tube_heap.go:47-57 | removes and returns the last tube, marked with position -1 |

## Left out

- Concurrency: the mutexes of `LockService`, the goroutines of `handleSingleRequest` and `Handle`, and the textproto pipeline ordering. Requests are handled one after another, in the order the input gives them.
- `tcpListener.Serve`, the socket and its closing: a connection is a byte sequence in and a string out.
- The DRAINING reply (net/net.go:210-215) cannot happen in the source. `Server.Add` calls `LockService.Add` (concurrency.go:23-34), which returns only what `StorageService.Add` returns, and that is never `ErrDraining`. The model has no DRAINING branch. `LockService` adds only locking and wake-ups, so `Server` calls the storage service directly.
- `log.Fatalln` on any other `Add` error: it is modelled as the connection closing with an `exited` flag set.
- `make([]byte, nbytes)` panics on an absurd `nbytes`. The model allocates any size.
- `bufio.Reader` internals: the reader is a byte sequence read at most 4096 bytes at a time, or, in the older package, a list of chunks.
- `JobHeap.JobHeapPriorityQueue.LessAt` compares with `Precedes`, the corrected comparison, not with `Less` as written (inmemory/job_heap.go:31). As written, `Less` is not a strict weak order on jobs without run times, so no heap invariant can be stated with it. The two agree on every job `BuildJob` makes (`Sort.LessAgreesOnTimedJobs`).
- `JobHeap.JobHeapPriorityQueue.Pop` states queue order with `Precedes`, not `Less`, for the same reason.
- `JobHeap.JobHeapPriorityQueue.Peek` states queue order with `Precedes`, not `Less`, for the same reason.
- `TubeHeap.TubeHeapPriorityQueue.LessAt` compares first jobs with `HeadPrecedes`, built on `Precedes`, not with `Less` as written (inmemory/tube_heap.go:50). The two agree whenever the first jobs are absent or have run times (`Sort.TubeLessAgreesOnTimedHeads`).
- `TubeHeap.TubeHeapPriorityQueue.Peek` states tube order with `HeadPrecedes`, not the written comparison, for the same reason.
- `TubeHeap.TubeHeapPriorityQueue.FixByTube` restores tube order under `HeadPrecedes`, not the written comparison, for the same reason.
- The sift and update methods of both heaps (`Up`, `DownRound`, `Down`, `Fix`, `HeapPush`, `HeapPop`, `SwapOutRoot`, `SwapOut`, `HeapRemove`, `Update`, `Push`, `RemoveByID`, `RemoveByTube`) keep heap order under `Precedes` and `HeadPrecedes`, not under the written comparisons, for the same reason.
- `Storage.StorageService.PeekNextDelayed` states queue order with `Precedes`, not `Less`, for the same reason.
- `Storage.StorageService.PopNextReady` states queue order with `Precedes`, not `Less`, for the same reason.
- `Net.RequestAsWritten` drops the reader's error on the command line only. The put trailer read as written, which at the end of the input returns an empty trailer with no error and so stores the job where the model answers EXPECTED_CRLF, is not modelled.
- `Net.NonNumberPassesAsWritten`: shows only that the corrected parser reports some error, not which one.
- `LegacyHeap.RunnableAtJobHeap.Swap` and `LegacyHeap.TubeHeap.Swap`: when the same object fills both slots, they promise only that the second slot's position is recorded.
- The `JobRegistry` and `JobPriorityQueue` interfaces of `behaviour.go` (behaviour.go:4, 38), and the `TubePriorityQueue` interface, which is declared in a file of the package outside `behaviour.go` and only referred to at inmemory/tube_heap.go:78, are stated on their single implementations (`BTreeJobRegistry`, `JobHeapPriorityQueue`, `TubeHeapPriorityQueue`), not as abstract interfaces. The `Remove` declared at behaviour.go:61 has no implementation in the source.
- The older package's `server` type and its `Add` and `Delete` are not part of this model. They are taken to behave as the newer `Server.Add` and `Server.DeleteByID`.
- The older heaps are driven by `container/heap`, which is not part of this model. Only their `Less`, `Swap`, `Push` and `Pop` are modelled. The entity fields `runnableAt`, `timeToRun` and `body` are carried but never read.
- Name mismatches in the source that would stop it compiling are read as evidently intended:
  - `job.Id` for `job.ID`;
  - `Server.Delete` for `DeleteByID`;
  - `lineTooLong` for `errLineTooLong` in the io tests;
  - `s.Storage.DeleteByID` (server.go:45) on a `*LockService`, which has only `Delete` (concurrency.go:56);
  - `ls.storage.Delete` (concurrency.go:59) for `StorageService.DeleteByID`;
  - `BTreeJobRegistry.Insert` and `Update` take a `Job`, where the `JobRegistry` interface (behaviour.go:7, 11) takes a `*Job`;
  - `ch.Server.Add(job)` (net/net.go:209) passes the `Job` that `BuildJob` returns, where `Add` takes a `*Job`.
- The B-tree of the registry is a map: only its contents are modelled, not its balancing.
- `Time` is an unbounded count of nanoseconds. The addition `time.Now().Add(d)` does not saturate as Go's does at the ends of its range.
- The numbers `Strings.FormatUint` and `%d` write are decimal only; `ParseUint` is base 10 with 64 bits, the only form the handlers use.

## Findings

| source | as written | input that shows it | evidently intended | confidence | as-written member | corrected member |
|---|---|---|---|---|---|---|
| sort.go:21-27 | without run times, a higher priority falls through to the ID comparison | job (ID 40, priority 1) and job (ID 42, priority 0): each is `Less` than the other | compare IDs only between equal priorities | not executed | Sort.LessNotAsymmetric | Sort.PrecedesIsStrictWeakOrder |
| net/io.go:33 | `readCappedLine` returns a nil error after a read error or an over-long line | empty input: the request reads an empty line, answers UNKNOWN_COMMAND and never closes | return the loop's error so the connection closes | not executed | Net.EndOfInputLoopsAsWritten | Net.EndOfInputCloses |
| net/net.go:161-167 | `integerParser.Parse` records an error only when one is already held, so it never records one | `put 0 0 10 five`: the arguments pass with no error, so there is no BAD_FORMAT | record the first error (`i.Err == nil`) | not executed | Net.NonNumberPassesAsWritten | Net.ParsePutArgs |
| net.go:168-174 | the older package's `integerParser.Parse` is the same code and has the same test: it records an error only when one is already held, so its put (net.go:196-206) and delete (net.go:247-248) never see one | `put 0 0 10 five` to the older server: the arguments pass with no error, so there is no BAD_FORMAT | record the first error (`i.Err == nil`) | not executed | Net.NonNumberPassesAsWritten | Net.ParsePutArgs |
| io.go:17-20 | a line read in one fragment is returned before the cap check | a 2000-byte command line ended by CRLF, with a 1024-byte cap, is returned with no error | check the cap on every line | not executed | LegacyIO.ShortcutSkipsCap | LineReader.ReadCappedLine |
| job_heap.go:8-21 | a higher priority falls through to the ID comparison | keys (priority 1, ID 2) and (priority 2, ID 1) are each less than the other | compare IDs only between equal priorities | not executed | LegacyHeap.KeyLessBothWays | LegacyHeap.KeyPrecedesIsStrictTotalOrder |
| tube_heap.go:13-15 | `Less` is true whenever the right tube is empty | an empty tube is less than itself | an empty tube is less than none | not executed | LegacyHeap.EmptyTubeLessThanItself | LegacyHeap.TubePrecedesIsStrict |
| inmemory/job_btree.go:45-53 | `itemToJob` asserts a `*jobIDJobBTreeItem`, but `Insert` and `Update` store `jobIDJobBTreeItem` values | `GetByID` of any registered ID: the type assertion panics | assert the value type and return its job | not executed | JobRegistry.BTreeJobRegistry.LookupPanicsAsWritten | JobRegistry.BTreeJobRegistry.GetByID |
| inmemory/job_btree.go:73-79 | `GetLargestID` passes the largest item through the same `itemToJob` | `GetLargestID` of a registry holding one job: the type assertion panics | as above | not executed | JobRegistry.BTreeJobRegistry.LargestPanicsAsWritten | JobRegistry.BTreeJobRegistry.GetLargestID |
