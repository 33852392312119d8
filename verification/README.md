# Verification of the Pronto job server

The job server in this repository hands jobs to the workers of a small cluster. Three parts of it
carry the load, and this project models them and proves what they are meant to guarantee:

- the scheduling protocol: HTTP handlers admit jobs, schedulers choose a worker by best fit, a
  rescheduler retries what did not fit, a dispatcher for each worker sends jobs out, and clients
  report back when they are done;
- the JSON code that reads every request body and prints every dispatched job;
- the incremental HTTP parser and the decoder for chunked bodies.

`dafny verify dfyconfig.toml` checks the whole project.

## How it is laid out

| file | subject |
|---|---|
| `Wrappers`, `CInts`, `PriorityQueue`, `Cluster`, `Rescheduler` | optional values and the C integer types; the linked priority queue; the workers, their capacity and best fit; the draining pass on linked queues |
| `Protocol`, `ProtocolSafety`, `ProtocolTight`, `SchedulerWorker` | all threads as a transition system; its invariants; the run that reaches the bound; the loops as sequences of its steps, and passes among the steps of all threads |
| `Bytes`, `Chunked`, `ChunkedRoundTrip` | the chunked decoder as an automaton and in place; encoding and decoding |
| `HttpGrammar`, `HttpIncremental`, `HttpParser` | the parser of request heads as functions of the bytes; growing buffers, the shortcut and the read loop; the scanning loops and the read loop |
| `HttpRoundTrip`, `HttpExact` | what a head by RFC 7230 parses to; nothing else parses |
| `JsonStrings`, `JsonText`, `JsonGrammar` | escapes and Unicode; the renderer; the parser as functions of an offset |
| `JsonSyntax`, `JsonParses`, `JsonExact`, `JsonStandard`, `JsonRoundTrip` | derivations by the grammar of RFC 8259; all derived texts are parsed; nothing else is; the strings and numbers of the standard; what is printed is such a text |
| `JsonItems`, `JsonTrees`, `JsonParser`, `JsonPrinter` | items and child lists on the heap; trees of items; the parser that builds them; the printer that walks them |
| `JsonMinify`, `JsonMinifyUndoes`, `JsonMinifyKeeps`, `JsonCompare`, `JsonTreeCompare`, `JsonEndToEnd` | the minifier in place and what it does to printed text and to any JSON text with comments; comparison and duplication; all of it together |

Code that changes state is modelled by methods on classes and arrays. Each is proved against a pure
function (`Insert`, `BestFit`, `Drain`, `Run`, `FromScratch`, `ParseValue`, `Render`, `Outside`,
`Compare`), and the properties are then proved of those functions. Trees of items are described by
`Tree`, `Value` and `Shows` in `JsonTrees`: the items under a root, their child lists, and the value
they stand for.

The protocol has one step for every critical section and semaphore operation, so choosing a worker
and reserving on it are two steps with a pending decision in between. It is proved for any number of
handlers, schedulers, workers and clients, one rescheduler, and every interleaving.

## Results worth knowing

- Workers can be overcommitted. The comment at srv/lib/pronto.c:122 says that a capacity cannot be
  negative; that would hold if the choice of a worker and the reservation were serialised. If at most
  p decisions are pending on a worker at a time and requests are up to m, its resources never fall
  below -(p - 1) * m. With D deciding threads (schedulers and the rescheduler, so D is at least two
  where anything is scheduled) this is -(D - 1) * m, and some run reaches it exactly, for every D
  above one and every positive m with 2 * m below 2 to the 31st. The early exit on the total capacity
  is sound exactly when the total is negative or no worker has more than the total; that is so as long
  as no worker is negative.
- A pass of the rescheduler is complete among all steps of the other threads but one, a release after
  its last look, provided that no worker is overcommitted at that look. It stays so until the next
  release, if the schedulers too look while no worker is overcommitted and none of them is about to
  defer a job that fits by now.
- `prio_queue_fifo_dequeue` is not first-in-first-out among equal requests: the newest of the
  smallest requests comes first.
- The HTTP shortcut never changes a success, and its rejections are final. It can reject later than a
  parse from scratch, by waiting for a blank line behind a malformed one, and also earlier, on a CR
  without LF that the parse has not reached yet; the exact condition is proved.
- The handler tests the size of a request after the read, in a buffer of just the maximal size. All
  reads end inside that buffer exactly when the request is not found too large; the buffer would
  need room for one more read. `HttpParser.ReadRequest` is proved for reads that end inside.
- The JSON parser accepts every text of RFC 8259 (with integers for numbers) and more: any byte up to the
  space as white space, leading zeros, control characters in strings, and literals with bad digits,
  which it reads as a NUL. Outside of that nothing is accepted.
- The chunked decoder refuses a size of more than 16 digits, although the grammar in section 4.1
  of RFC 7230 sets no limit and leading zeros do not change the size.
- `cJSON_PrintPreallocated` succeeds exactly when the buffer has one byte more than the text and its
  NUL take. The header asks for five bytes more (srv/lib/h/c_json.h:162).
- `cJSON_Minify` takes the closing quote of a string that ends in a backslash for an escaped quote;
  on JSON texts without such strings it keeps the value.
  It undoes formatting exactly when there is no such string or key, except as the very last leaf,
  followed by closing brackets only.
- `cJSON_Compare` takes an item to be equal to itself without looking further. Otherwise it looks up
  the first member of a name only, so a tree is equal to a copy of it exactly when members of one
  object that share a name have equal values; on such trees it is equality up to the order of members,
  and so an equivalence.

## Model

Members are written as declared, qualified by module and class. Line numbers are those of the sources
in this repository.

| member | source | states |
|---|---|---|
| `CInts.NarrowingUndoesWrapping` | srv/lib/pronto.c:120 | a resource in 32-bit signed range survives the round through `unsigned long` and back to `int` |
| `PriorityQueue.InsertAscending` | srv/lib/prio_queue.c:25-46 | insertion keeps the queue in ascending order of requests |
| `PriorityQueue.InsertOrdered` | srv/lib/prio_queue.c:25-46 | a job newer than all others is placed so that among equal requests the newer stands first |
| `PriorityQueue.InsertMultiset` | srv/lib/prio_queue.c:13-54 | insertion adds exactly the one job |
| `PriorityQueue.InsertAt` | srv/lib/prio_queue.c:28-46 | the place found by walking past the smaller requests is the place of sorted insertion |
| `PriorityQueue.AnyRun` | srv/lib/prio_queue.c:13-69 | over any run of operations the queue is ordered, holds distinct jobs, and queue plus removed jobs are the added ones |
| `PriorityQueue.DequeueTakesNewestOfSmallest` | srv/lib/prio_queue.c:56-69 | after any run, what is dequeued is the newest among the smallest requests |
| `PriorityQueue.PrioQueue.FindPosition` | srv/lib/prio_queue.c:25-35 | the pointer walk stops behind the smaller requests, at the node and its predecessor |
| `PriorityQueue.PrioQueue.Link` | srv/lib/prio_queue.c:36-53 | linking on top, at the bottom or between puts the node at its place in the sequence and keeps head, tail and size exact |
| `PriorityQueue.PrioQueue.Enqueue` | srv/lib/prio_queue.c:13-54 | the linked list refines sorted insertion, with head, tail and size exact |
| `PriorityQueue.PrioQueue.FifoDequeue` | srv/lib/prio_queue.c:56-69 | hands out the head and leaves the rest; NULL exactly when the queue is empty |
| `PriorityQueue.Put` | srv/lib/pronto.c:135-159 | a job in a node of its own goes to its place in one of several queues; the others keep their contents, and no queue shares a node with another |
| `PriorityQueue.Take` | srv/lib/prio_queue.c:56-69 | likewise the removal of the first job of one of them |
| `Cluster.FitScanChooses` | srv/lib/pronto.c:110-127 | in the fixed-width types, the loop holds the first worker with the most resources among those that fit, or -1 when none does |
| `Cluster.BestFitIsFirstMaximal` | srv/lib/pronto.c:99-133 | while each worker is in 32-bit range, only a worker that truly fits is returned, the first with maximal resources |
| `Cluster.BestFitChooses` | srv/lib/pronto.c:99-133 | -1 exactly when the early exit on a non-negative total fires or no worker fits |
| `Cluster.NoFitMeansNoneFits` | srv/lib/pronto.c:103-106 | when no worker is overcommitted the early exit is sound: -1 means none fits |
| `Cluster.EarlyExitSoundExactly` | srv/lib/pronto.c:103-106 | the early exit hides no fitting worker, whatever the value, if and only if the total is negative or no worker has more than the total |
| `Cluster.EarlyExitCanMissAWorker` | srv/lib/pronto.c:103-106 | with an overcommitted worker it is not: a concrete cluster where a fitting worker is missed |
| `Cluster.ShiftRepresented` | srv/lib/pronto.c:177-206 | wrapped additions on the fields are additions on the true values they stand for |
| `Cluster.SchedulableExactly` | srv/lib/pronto.c:82-92 | a value is admitted if and only if it is not negative, below the sum of the maxima and within some maximum, in true integers; and then everything from 0 up to it is admitted |
| `Cluster.AdmittedFitsIdleCluster` | srv/lib/pronto.c:82-92 | an admitted value is not negative and fits an idle cluster |
| `Cluster.Pronto.constructor` | srv/lib/pronto.c:18-80 | the cluster starts with every worker idle, the total equal to the sum of the maxima (as an `int`), and all queues empty and apart |
| `Cluster.Pronto.IsSchedulable` | srv/lib/pronto.c:82-92 | decides that: the C conversions of the comparisons change nothing |
| `Cluster.Pronto.BestCurrentFit` | srv/lib/pronto.c:99-133 | the loop computes best fit on the wrapped fields |
| `Cluster.Pronto.FitOfRepresented` | srv/lib/pronto.c:99-133 | best fit on the wrapped fields is best fit on the true resources they stand for |
| `Cluster.Pronto.ReserveCapacity` | srv/lib/pronto.c:195-206 | total, worker and job count move together, with wrap-around, and still stand for the true values |
| `Cluster.Pronto.FreeCapacity` | srv/lib/pronto.c:177-191 | the inverse movement, likewise |
| `Cluster.ClusterWorker.AddJob` | srv/lib/cluster_worker.c:113-124 | a new node with the job is linked into the worker's queue: it holds exactly one job more, is ascending if it was, and no other queue of the cluster changes |
| `Cluster.ClusterWorker.TakeJob` | srv/lib/cluster_worker.c:52-56 | a post is consumed and the first node unlinked, NULL exactly when the queue was empty; no other queue changes |
| `Cluster.Pronto.AddJob` | srv/lib/pronto.c:135-146 | a new node with the job is linked into the job queue, and no other queue changes |
| `Cluster.Pronto.AddWaitingJob` | srv/lib/pronto.c:148-159 | likewise into the waiting queue |
| `Rescheduler.DrainComplete` | srv/lib/rescheduler.c:21-46 | a pass without interference over an ascending queue leaves a suffix of it in which no job fits any worker, and overcommits nobody |
| `Rescheduler.DrainConserves` | srv/lib/rescheduler.c:21-46 | a pass loses no job, keeps free plus queued requests of every worker, and posts once for each job moved |
| `Rescheduler.InitiallyModels` | srv/lib/pronto.c:18-80 | a new cluster stands for empty queues and idle workers |
| `Rescheduler.Book` | srv/lib/rescheduler.c:35-40 | reserving, linking into the worker's queue and posting carry a decision out on the objects, and nothing else in the cluster changes |
| `Rescheduler.PlaceHead` | srv/lib/rescheduler.c:34-40 | the head is popped and booked on the worker found for it |
| `Rescheduler.Round` | srv/lib/rescheduler.c:21-45 | one round of the loop: the head is placed, or nothing happens because there is no head or no worker fits it |
| `Rescheduler.Pass` | srv/lib/rescheduler.c:19-47 | the loop terminates and leaves the objects in the state that Drain describes |
| `SchedulerWorker.ScheduleOne` | srv/lib/scheduler_worker.c:26-59 | the first job of the linked job queue is booked on its best fit or inserted into the waiting queue; with no job, nothing changes |
| `SchedulerWorker.BookSteps` | srv/lib/scheduler_worker.c:48-54 | the three protocol steps of a decision do together what booking does |
| `SchedulerWorker.SchedulerSteps` | srv/lib/scheduler_worker.c:41-54 | uninterrupted steps of a scheduler do to the protocol's state what ScheduleOne does to the objects |
| `SchedulerWorker.PlaceSteps` | srv/lib/rescheduler.c:27-40 | five protocol steps make one placement of the rescheduler |
| `SchedulerWorker.PassSteps` | srv/lib/rescheduler.c:21-47 | uninterrupted steps of the rescheduler drain the waiting queue as Pass does and end asleep |
| `SchedulerWorker.AlwaysAscend` | srv/lib/prio_queue.c:25-46 | in every state of every run all queues are ascending and no maximum has changed |
| `SchedulerWorker.AlwaysModest` | srv/lib/pronto.c:82-92 | no request admitted in any run is too large for an `int` |
| `SchedulerWorker.LookGivesUp` | srv/lib/rescheduler.c:21-44 | when the look at the head finds no worker and none is overcommitted, no waiting job fits any worker |
| `SchedulerWorker.WaitingIsLocked` | srv/lib/rescheduler.c:19-46 | while the rescheduler holds the mutex, no step of another thread changes the waiting queue |
| `SchedulerWorker.KeptWhileLeaving` | srv/lib/rescheduler.c:43-46 | until the unlock, every step but a release keeps it that no waiting job fits, reservations by schedulers included |
| `SchedulerWorker.PassUnderInterference` | srv/lib/rescheduler.c:19-46 | in any run, with any steps of all other threads in between: when the rescheduler is about to unlock, no waiting job fits any worker, if none was overcommitted at its last look and nothing was released since |
| `SchedulerWorker.PassIsBounded` | srv/lib/rescheduler.c:21-45 | whatever the others do, releases included, a pass takes at most five steps of the rescheduler for each job that was waiting at the lock, and one more, before the unlock |
| `SchedulerWorker.PassIsNeverStuck` | srv/lib/rescheduler.c:19-46 | in every reachable state in which a rescheduler holds the lock its next step is enabled, so with that bound every pass ends |
| `SchedulerWorker.SettledStep` | srv/lib/scheduler_worker.c:41-52 | every step but a release keeps it that nothing waiting or about to wait fits, if schedulers look while no worker is overcommitted |
| `SchedulerWorker.SettledUntilARelease` | srv/lib/scheduler_worker.c:41-52 | so after a pass this lasts until the next release, through any steps of all threads |
| `SchedulerWorker.PassOnAnyRun` | srv/lib/rescheduler.c:21-47 | from any reachable state without an overcommitted worker, the pass that nobody interrupts ends with no waiting job that fits any worker, and no worker overcommitted |
| `ProtocolSafety.AccountedStep` | srv/lib/scheduler_worker.c:26-37 | every step keeps: each queue is as long as its semaphore's value plus consumers woken but not yet dequeued plus producers that have not yet posted |
| `ProtocolSafety.BalancedStep` | srv/lib/pronto.c:177-206 | every step keeps: free plus queued plus otherwise reserved requests of a worker are its maximum, its job count is that of those jobs, and the total is the sum over the workers |
| `ProtocolSafety.PlacedStep` | srv/lib/handler.c:80-81 | every step keeps: every admitted job is in exactly one place and no other job is anywhere |
| `ProtocolSafety.HeadChosenStep` | srv/lib/rescheduler.c:27-36 | the mutex keeps the head of the waiting queue the job that the worker was chosen for |
| `ProtocolSafety.InvStep` | srv/lib/handler.c:25-88 | every step of every thread keeps the whole invariant |
| `ProtocolSafety.AlwaysInv` | srv/lib/handler.c:25-88 | so every state of every run, with any number of handlers, schedulers and workers, satisfies it |
| `ProtocolSafety.DequeuesFindAJob` | srv/lib/cluster_worker.c:53-65 | a woken scheduler always finds a job, so the branch reporting a bug is unreachable, and no dispatcher dequeues NULL |
| `ProtocolSafety.ReleasesAreCounted` | srv/lib/handler.c:53-54 | in every run, every release has woken the rescheduler once, is still in its semaphore, or is about to be posted: no waking is lost and none is made up |
| `ProtocolSafety.DecisionFits` | srv/lib/pronto.c:99-133 | under the bound, a decision counts on resources that are really there when it is taken |
| `ProtocolSafety.OthersPending` | srv/lib/scheduler_worker.c:41-48 | when a decision is the p-th pending on a worker at most, what the others have pending on it is at most (p - 1) times the largest request |
| `ProtocolSafety.MarginStep` | srv/lib/scheduler_worker.c:41-52 | every step keeps a worker's resources minus its pending decisions at or above -(p - 1) * m |
| `ProtocolSafety.PendingBounds` | srv/lib/scheduler_worker.c:41-52 | in every run in which at most p decisions are ever pending on one worker and requests are up to m, that bound holds in every state |
| `ProtocolSafety.FreeBounded` | srv/lib/scheduler_worker.c:41-52 | the resources themselves stay between -(p - 1) * m and the maximum |
| `ProtocolSafety.SerialisedNeverOvercommits` | srv/lib/scheduler_worker.c:41-52 | if choosing and reserving are serialised for each worker, no worker is ever overcommitted, by any number of deciding threads |
| `ProtocolSafety.DecidersArePending` | srv/lib/scheduler_worker.c:41-52 | the number D of deciding threads never changes and bounds the decisions pending |
| `ProtocolSafety.OvercommitBounded` | srv/lib/scheduler_worker.c:41-52 | so in every interleaving of D deciding threads with requests up to m, a worker's resources, and they minus its pending decisions, are at least -(D - 1) * m in every state |
| `ProtocolTight.BoundIsReached` | srv/lib/scheduler_worker.c:41-52 | the bound is tight: for every D above one and every positive m with 2 * m below 2 to the 31st there is a run that reaches it, first with the decisions pending and then in the resources themselves |
| `Bytes.DecodeHexExactly` | srv/lib/picohttpparser.c:530-541 | a digit decodes to its place in `0123456789abcdef` or `0123456789ABCDEF`, and no other byte to that value |
| `Bytes.OnlyHexDecodes` | srv/lib/picohttpparser.c:530-541 | every byte that is not in them gives -1 |
| `Chunked.StepSane` | srv/lib/picohttpparser.c:543-656 | each byte keeps the accumulated size below 16 to the number of its digits |
| `Chunked.SizeFits` | srv/lib/picohttpparser.c:555-570 | so the size never leaves `size_t` |
| `Chunked.RunAppend` | srv/lib/picohttpparser.c:543-656 | reading s and then t is reading both; once s decides, t changes nothing |
| `Chunked.SplitInvariance` | srv/lib/picohttpparser.c:543-656 | however the stream is cut, it decodes to the same bytes, verdict and leftover as when fed at once |
| `Chunked.Decoder.ReadSize` | srv/lib/picohttpparser.c:552-575 | the loop over the hexadecimal digits is the automaton on them |
| `Chunked.Decoder.CopyData` | srv/lib/picohttpparser.c:592-608 | a run of chunk data is moved down in one piece, as the automaton would byte by byte |
| `Chunked.Decoder.ReadTrailer` | srv/lib/picohttpparser.c:622-642 | the trailer section is skipped as the automaton does |
| `Chunked.Decoder.Round` | srv/lib/picohttpparser.c:549-644 | one turn of the state machine advances the automaton, dst never passing src |
| `Chunked.Decoder.Decode` | srv/lib/picohttpparser.c:543-656 | the bulk in-place decoder refines the byte-at-a-time automaton: decoded bytes in front, leftover behind them, position and count as reported |
| `ChunkedRoundTrip.LongSizeIsRefused` | srv/lib/picohttpparser.c:553-570 | a size of more than 16 digits is refused at the seventeenth, leading zeros or not |
| `ChunkedRoundTrip.RoundTrip` | srv/lib/picohttpparser.c:543-656 | a body encoded per section 4.1 of RFC 7230, followed by anything, decodes to the concatenated chunks and leaves exactly what follows the final CRLF, if and only if no size in it has more than 16 digits; otherwise it is refused |
| `ChunkedRoundTrip.RoundTripKeepingTrailers` | srv/lib/picohttpparser.c:582-591 | without `consume_trailer` it stops behind the last chunk's line and leaves the trailers too, under the same condition |
| `ChunkedRoundTrip.HexDigitsAreASize` | srv/lib/picohttpparser.c:530-541 | every size that fits has a hexadecimal form that the decoder reads back |
| `ChunkedRoundTrip.MissingSizeIsRefused` | srv/lib/picohttpparser.c:551-562 | where a size should begin, behind any number of chunks, a byte that is no digit is refused and left to the caller |
| `ChunkedRoundTrip.JunkBehindDataIsRefused` | srv/lib/picohttpparser.c:605-617 | behind the data of a chunk, and any CRs, a byte other than LF is refused |
| `HttpIncremental.DecisionsAreFinal` | srv/lib/picohttpparser.c:355-399 | success and -1 of a parse from scratch never change when bytes are appended |
| `HttpIncremental.SucceedsWithTheHead` | srv/lib/picohttpparser.c:355-399 | a parse succeeds exactly when the whole head is there and depends on nothing behind it |
| `HttpIncremental.SearchMeetsTheEnd` | srv/lib/picohttpparser.c:197-223 | the search for two line ends that starts three bytes back finds the end of a complete head in time |
| `HttpIncremental.SearchNeverFails` | srv/lib/picohttpparser.c:197-223 | inside a head that parses, the search never answers -1 |
| `HttpIncremental.ShortcutAgrees` | srv/lib/picohttpparser.c:401-427 | on the way to a head that succeeds, a call with any `last_len` before its end answers as a parse from scratch |
| `HttpIncremental.ShortcutRejectsForGood` | srv/lib/picohttpparser.c:401-427 | -1 from the shortcut means that no extension of the buffer can succeed |
| `HttpIncremental.ShortcutAnswersAsScratch` | srv/lib/picohttpparser.c:401-427 | after an incomplete old part, a call with `last_len` answers as a parse from scratch if and only if its search succeeds, or goes on and that parse does not reject, or rejects and that parse does not go on |
| `HttpIncremental.ShortcutDelaysRejection` | srv/lib/picohttpparser.c:401-427 | a concrete input on which the rejection comes later than from scratch |
| `HttpIncremental.ShortcutHastensRejection` | srv/lib/picohttpparser.c:401-427 | and one on which it comes earlier |
| `HttpIncremental.LoopFollows` | srv/lib/handler.c:171-256 | the read loop follows the parse of whatever its reads are the beginning of |
| `HttpIncremental.EmptyReadBreaks` | srv/lib/handler.c:191-196 | the end of the stream breaks a request that the loop still waits for, and changes nothing once it has decided |
| `HttpIncremental.ReadsDoNotMatter` | srv/lib/handler.c:171-256 | however the bytes are cut into reads, the loop succeeds exactly when one parse of all of them does and the reads up to there are within the limit, with the same length, method, path, version and headers |
| `HttpIncremental.TooLargeExactly` | srv/lib/handler.c:171-203 | a request is found too large if and only if the reads up to the first after which a call decides, or all of them, bring more bytes than the limit |
| `HttpIncremental.SearchEnds` | srv/lib/picohttpparser.c:197-223 | the search rejects exactly when a CR without LF stands before the first two line ends in a row, and succeeds exactly when it meets those first; said in bytes |
| `HttpIncremental.BrokenForGood` | srv/lib/handler.c:171-256 | when the loop gives up on a head, no continuation of the stream could have parsed |
| `HttpIncremental.LoopEnds` | srv/lib/handler.c:171-256 | the loop ends with a parsed head exactly when all bytes parse, and otherwise broken exactly when a later search meets a CR without LF before a blank line, or the first parse or one behind a blank line rejects |
| `HttpIncremental.LoopAnswersAsOneParse` | srv/lib/handler.c:171-256 | its three ends are the three answers of one parse of all bytes if and only if no search meets a CR without LF in what that parse waits for, and some call rejects what that parse rejects |
| `HttpIncremental.ReadsFitTheLimit` | srv/lib/handler.c:147-203 | in a buffer of `max_request_size` bytes the reads stay inside if and only if those up to the first decision bring no more than that, which is when the request is not found too large: the size is tested after the read |
| `HttpIncremental.RoomNeeded` | srv/lib/handler.c:173-203 | all reads of up to `request_buffer_size` bytes stay inside, whatever arrives, if and only if the buffer has room for one of them more than the limit |
| `HttpIncremental.FourReadsOverrun` | srv/lib/handler.c:173-203 | with the configured sizes four full reads do not fit |
| `HttpParser.ParseToken` | srv/lib/picohttpparser.c:245-277 | the scan finds the end of a token in front of the given character, or reports an invalid or missing one |
| `HttpParser.FindCtl` | srv/lib/picohttpparser.c:134-171 | the loop unrolled by eight stops at the same control character as the plain scan |
| `HttpParser.GetTokenToEol` | srv/lib/picohttpparser.c:134-195 | token and line end as in the grammar, for CRLF, bare LF and truncated input |
| `HttpParser.ParseHeaders` | srv/lib/picohttpparser.c:298-353 | fills the array with exactly the headers of the grammar, continuation lines and limit included |
| `HttpParser.ParseRequestLine` | srv/lib/picohttpparser.c:355-396 | method, path and version of the request line, or the same rejection |
| `HttpParser.ParseFromScratch` | srv/lib/picohttpparser.c:355-399 | the whole head, as the grammar has it |
| `HttpParser.SearchLineEnds` | srv/lib/picohttpparser.c:197-223 | the loop over the new bytes computes the shortcut's answer |
| `HttpParser.PhrParseRequest` | srv/lib/picohttpparser.c:401-427 | shortcut first, then the parse from scratch |
| `HttpParser.ReadRequest` | srv/lib/handler.c:171-256 | the loop on the request buffer computes the read loop's outcome in any buffer that the reads it takes stay inside; what it reports parsed is the parse of the bytes in the buffer |
| `HttpRoundTrip.CharactersExactly` | srv/lib/picohttpparser.c:96-103 | the token characters are the visible ones but the delimiters of section 3.2.6 of RFC 7230, and field values consist of what section 3.2 allows |
| `HttpRoundTrip.LineIsParsed` | srv/lib/picohttpparser.c:298-353 | a header line, with any optional white space before and after its value and CRLF or LF at its end, parses to the slices of its name and of its value without that white space; a continuation line (obs-fold) to a header without a name |
| `HttpRoundTrip.LinesAreParsed` | srv/lib/picohttpparser.c:298-353 | and so does a list of them, in order, up to the empty line; one line more than the array holds is refused |
| `HttpRoundTrip.HeadIsParsed` | srv/lib/picohttpparser.c:355-399 | a head of HTTP/1.x by section 3 of RFC 7230, with what section 3.5 tells servers to put up with, parses with its own length whatever follows it, or is refused for its number of lines |
| `HttpRoundTrip.RoundTrip` | srv/lib/picohttpparser.c:355-399 | the slices reported for such a head hold its method, its target and the name and value of every line, and the minor version is the one written |
| `HttpRoundTrip.AnyReadsParse` | srv/lib/handler.c:171-256 | the read loop finds the same parts however the bytes arrive, unless the reads up to the end of the head exceed the limit; then the request is too large |
| `HttpExact.HeadIsFound` | srv/lib/picohttpparser.c:355-399 | whatever parses is such a head, and the slices reported are those of its parts |
| `HttpExact.ParsesExactly` | srv/lib/picohttpparser.c:355-399 | a buffer parses if and only if it begins with such a head of not too many lines |
| `HttpExact.MethodByteIsRefused` | srv/lib/picohttpparser.c:264-273 | any byte in the method that is no token character is refused as soon as it is read, whatever follows |
| `HttpExact.TargetByteIsRefused` | srv/lib/picohttpparser.c:66-94 | and so is a control character or DEL in the target |
| `HttpExact.VersionIsRefused` | srv/lib/picohttpparser.c:279-296 | and anything but HTTP/1 and a digit where the version should stand |
| `HttpExact.LineEndIsRefused` | srv/lib/picohttpparser.c:387-396 | and anything but a line end behind the version |
| `HttpExact.NameByteIsRefused` | srv/lib/picohttpparser.c:316-325 | and any byte in a field name that is no token character, and an empty name |
| `HttpExact.ValueByteIsRefused` | srv/lib/picohttpparser.c:134-195 | and a control character other than a tab in a value, a CR without LF included |
| `HttpExact.LastCrIsRefused` | srv/lib/picohttpparser.c:303-306 | and a CR without LF where the head should end |
| `JsonStandard.CharsAreScanned` | srv/lib/c_json.c:786-809 | the first pass goes past the characters of any string by section 7 of RFC 8259, escaped quotes included |
| `JsonStandard.CharsAreDecoded` | srv/lib/c_json.c:821-877 | the second pass gives what the characters of such a string stand for: bytes as they are, the eight short escapes, literals and surrogate pairs in UTF-8 |
| `JsonStandard.UnknownEscapeIsRefused` | srv/lib/c_json.c:869-870 | a string with a backslash before any other letter is refused as a whole |
| `JsonStandard.RawBytesAreKept` | srv/lib/c_json.c:821-828 | all bytes but quotes and backslashes are kept as they are, control characters included |
| `JsonStandard.CStringExactly` | srv/lib/c_json.c:875-880 | the string handed out ends before the first NUL |
| `JsonRoundTrip.QuotedIsParsed` | srv/lib/c_json.c:773-899 | printing and parsing is the identity on NUL-free strings, byte for byte |
| `JsonStrings.Hex4Reads` | srv/lib/c_json.c:615-648 | four hexadecimal digits of any case are read as the sum of their values with weights 4096, 256, 16 and 1 |
| `JsonStrings.Hex4Exactly` | srv/lib/c_json.c:615-648 | and anything else as 0 |
| `JsonStrings.BadDigitsAreNul` | srv/lib/c_json.c:652-720 | so a literal with a bad digit is not refused, but read as a NUL |
| `JsonStrings.Utf8RoundTrip` | srv/lib/c_json.c:709-760 | the bytes written for a code point decode, by the definition in section 3 of RFC 3629, to that code point, in the shortest form |
| `JsonStrings.LiteralIsUtf8` | srv/lib/c_json.c:652-770 | every escape outside the surrogates becomes the UTF-8 form of its code point |
| `JsonStrings.PairIsUtf8` | srv/lib/c_json.c:675-706 | and so does every other code point written as the pair of section 2.1 of RFC 2781 |
| `JsonStrings.LoneSurrogatesFail` | srv/lib/c_json.c:667-699 | a surrogate that does not begin a pair is refused |
| `JsonStrings.Advance` | srv/lib/c_json.c:786-803 | a stretch of n bytes takes the first pass at least half as many rounds |
| `JsonStrings.RoundFits` | srv/lib/c_json.c:821-877 | a round of the second pass never writes more than the first pass has counted, in step with it or not, for every buffer and every malformed escape |
| `JsonParses.NumeralIsParsed` | srv/lib/c_json.c:308-388 | an integer of up to 63 characters parses to its value and ends at the first character no number contains |
| `JsonParses.ValueIsParsed` | srv/lib/c_json.c:1312-1364 | a value derived by the grammar, with white space of any length anywhere it may stand, parses to what it stands for, wherever it stands, and ends where its text does, or is refused if it is nested too deep there |
| `JsonParses.ElementsAreParsed` | srv/lib/c_json.c:1478-1515 | likewise the items of an array, in order |
| `JsonParses.EntriesAreParsed` | srv/lib/c_json.c:1638-1690 | likewise the members of an object, in order and with duplicates |
| `JsonParses.DocumentIsParsed` | srv/lib/c_json.c:1095-1152 | the text as a whole, with white space around it and with or without a byte order mark, parses to its value if it is nested at most 1000 deep, and is refused otherwise |
| `JsonParses.TrailingBytes` | srv/lib/c_json.c:1126-1135 | where a terminating NUL is required, a text is accepted if and only if nothing but white space stands between the value and the end of the buffer |
| `JsonParses.GarbageIsRefused` | srv/lib/c_json.c:1126-1135 | any other byte between the text and the NUL is refused |
| `JsonStandard.JsonTextIsParsed` | srv/lib/c_json.c:1095-1152 | every JSON text by RFC 8259 (with integers for numbers) is parsed to the value it stands for, or refused for its nesting |
| `JsonExact.DocumentIsFound` | srv/lib/c_json.c:1095-1152 | whatever is accepted is derived by the grammar, with the wider lexical rules of the parser, and the value is the one derived |
| `JsonExact.AcceptsExactly` | srv/lib/c_json.c:1095-1152 | a buffer is accepted if and only if it is such a text, nested at most 1000 deep, between an optional byte order mark and its last NUL |
| `JsonRoundTrip.DigitsAreUnique` | srv/lib/c_json.c:565-568 | the digits printed are the only ones without leading zeros that stand for the number |
| `JsonRoundTrip.SyntaxIsRendered` | srv/lib/c_json.c:1367-1438 | what is printed, formatted or not, is the text of a derivation with its white space in given places: each member on a line of its own, one tab further in than its braces, a tab behind each colon, a space before each item but the first |
| `JsonRoundTrip.RenderIsText` | srv/lib/c_json.c:1367-1438 | what is printed is a JSON text by RFC 8259 for the value |
| `JsonRoundTrip.UnformattedIsShortest` | srv/lib/c_json.c:1367-1438 | and no JSON text for that value is shorter than the unformatted one |
| `JsonRoundTrip.RoundTrip` | srv/lib/c_json.c:1312-1825 | for every tree of null, booleans, 32-bit integers, NUL-free strings, arrays and objects the formatted or unformatted text parses to the same tree, up to its NUL, if it is nested at most 1000 deep, and is refused otherwise |
| `JsonParser.ParseHex4` | srv/lib/c_json.c:615-648 | the loop computes the number that four digits stand for, 0 if any is bad |
| `JsonParser.EncodeUtf8` | srv/lib/c_json.c:735-757 | writing from the last byte to the first gives the UTF-8 form |
| `JsonParser.Utf16LiteralToUtf8` | srv/lib/c_json.c:652-770 | one or two literals, with every refusal, and nothing written on refusal |
| `JsonParser.UnescapeOne` | srv/lib/c_json.c:823-876 | one round of the second loop |
| `JsonParser.ScanString` | srv/lib/c_json.c:786-809 | the closing quote and the number of bytes skipped, or failure |
| `JsonParser.UnescapeAll` | srv/lib/c_json.c:818-877 | the second loop decodes the string and stays inside what the first loop allocated, whatever the escapes are |
| `JsonParser.ParseBuffer.BufferSkipWhitespace` | srv/lib/c_json.c:1038-1061 | skips what is at most 32 and steps back onto the last byte at the end |
| `JsonParser.ParseBuffer.ParseNumber` | srv/lib/c_json.c:308-388 | copies at most 63 characters for strtod and moves past what it used |
| `JsonParser.ParseBuffer.ParseString` | srv/lib/c_json.c:773-899 | the offset behind the closing quote and the C string decoded, or failure with the offset in the buffer |
| `JsonParser.ParseBuffer.ParseValue` | srv/lib/c_json.c:1312-1364 | the item becomes the root of a tree that stands for the value in the grammar; depth is restored |
| `JsonParser.ParseBuffer.ParseItem` | srv/lib/c_json.c:1478-1514 | a new item is linked to the list and filled in |
| `JsonParser.ParseBuffer.ParseItems` | srv/lib/c_json.c:1474-1520 | the loop strings together the items of the grammar |
| `JsonParser.ParseBuffer.ParseArray` | srv/lib/c_json.c:1441-1536 | establishes the child list: next pointers in order, prev its inverse, the head's prev the tail |
| `JsonParser.ParseBuffer.ParseMember` | srv/lib/c_json.c:1638-1688 | the same with the name read as a string of the item and moved |
| `JsonParser.ParseBuffer.ParseMembers` | srv/lib/c_json.c:1634-1694 | the loop strings together the members of the grammar |
| `JsonParser.ParseBuffer.ParseObject` | srv/lib/c_json.c:1601-1711 | establishes the child list of an object |
| `JsonParser.ParseWithLengthOpts` | srv/lib/c_json.c:1095-1172 | a new tree for the value of the text, or NULL, with the terminator required or not |
| `JsonPrinter.TextHasNoNul` | srv/lib/c_json.c:525-535 | the text of a printable value holds no NUL, so strlen measures it |
| `JsonPrinter.PrintBuffer.Ensure` | srv/lib/c_json.c:439-522 | grants the bytes exactly when they fit the limit, keeping what was written, in a buffer of the doubled or the largest size |
| `JsonPrinter.PrintBuffer.UpdateOffset` | srv/lib/c_json.c:525-535 | lands on the end of the text |
| `JsonPrinter.PrintBuffer.WriteEscape` | srv/lib/c_json.c:972-1013 | one character in its escaped form, the NUL of sprintf included |
| `JsonPrinter.PrintBuffer.PrintStringPtr` | srv/lib/c_json.c:902-1021 | the quoted string, by the fast path or the escaping one, exactly when it fits |
| `JsonPrinter.CountEscapes` | srv/lib/c_json.c:928-951 | the counting loop computes the length of the escaped form |
| `JsonPrinter.PrintBuffer.PrintValue` | srv/lib/c_json.c:1367-1438 | appends the renderer's text for the item's value and a NUL, leaving what stood before; succeeds exactly when text and two bytes fit the limit |
| `JsonPrinter.PrintBuffer.PrintItems` | srv/lib/c_json.c:1565-1587 | the loop over the children of an array appends their texts and separators |
| `JsonPrinter.PrintBuffer.PrintArray` | srv/lib/c_json.c:1539-1598 | the text of an array, exactly when it fits |
| `JsonPrinter.PrintBuffer.PrintMembers` | srv/lib/c_json.c:1741-1800 | the loop over the members appends tabs, keys, colons, values and line ends |
| `JsonPrinter.PrintBuffer.PrintObject` | srv/lib/c_json.c:1714-1825 | the text of an object, exactly when it fits |
| `JsonPrinter.Print` | srv/lib/c_json.c:1187-1249 | the renderer's text and a NUL, exactly when it is within INT_MAX |
| `JsonPrinter.PrintBuffered` | srv/lib/c_json.c:1262-1290 | the same text from any starting size |
| `JsonPrinter.PrintPreallocated` | srv/lib/c_json.c:1292-1309 | the same text in the caller's buffer, exactly when it has one byte more than text and NUL take |
| `JsonMinify.MinifyString` | srv/lib/c_json.c:2816-2837 | the string state of the transducer, in place |
| `JsonMinify.Minify` | srv/lib/c_json.c:2839-2884 | rewrites the array in place to the transducer's output and a NUL, output never passing input |
| `JsonMinifyUndoes.OnelineCommentIsDropped` | srv/lib/c_json.c:2789-2801 | a comment to the end of the line vanishes, with its line end |
| `JsonMinifyUndoes.MultilineCommentIsDropped` | srv/lib/c_json.c:2803-2814 | a comment between its delimiters vanishes |
| `JsonMinifyUndoes.LoneSlashIsDropped` | srv/lib/c_json.c:2859-2872 | a slash that begins no comment vanishes |
| `JsonMinifyUndoes.UnendedCommentDropsTheRest` | srv/lib/c_json.c:2789-2814 | a comment without an end takes the rest of the text with it |
| `JsonMinifyUndoes.RestIsCopied` | srv/lib/c_json.c:2816-2837 | any string of RFC 8259 is copied; if it ends in an escaped backslash the minifier is still inside a string behind it |
| `JsonMinifyUndoes.ValueIsMinified` | srv/lib/c_json.c:2839-2884 | minifying the text of a harmless value, formatted or not, gives its unformatted text |
| `JsonMinifyUndoes.ValueDiffers` | srv/lib/c_json.c:2839-2884 | otherwise the output differs from it at some place |
| `JsonMinifyUndoes.MinifyUndoesFormatting` | srv/lib/c_json.c:2839-2884 | minifying formatted text gives the unformatted text if and only if no string or key ends in a backslash, save a string with only closing brackets behind it |
| `JsonMinifyUndoes.MinifyGivesUnformatted` | srv/lib/c_json.c:2839-2884 | and unformatted text of such a tree is left unchanged |
| `JsonMinifyUndoes.LeftAsItIs` | srv/lib/c_json.c:2839-2884 | a text is left unchanged if and only if it has no blank and no slash outside of what the minifier takes for strings |
| `JsonMinifyUndoes.MinifyIsIdempotent` | srv/lib/c_json.c:2839-2884 | minifying any text once more changes nothing |
| `JsonMinifyUndoes.BackslashKeepsTheSpace` | srv/lib/c_json.c:2816-2837 | a concrete tree on which it fails |
| `JsonMinifyKeeps.WsIsDropped` | srv/lib/c_json.c:2839-2872 | any white space of RFC 8259 and any comments outside of strings vanish |
| `JsonMinifyKeeps.MinifyKeepsTheValue` | srv/lib/c_json.c:2839-2884 | a JSON text with comments, none of whose strings ends in an escaped backslash, becomes the JSON text of the same value without white space and comments, and is parsed to that value |
| `JsonItems.GetArraySize` | srv/lib/c_json.c:1828-1849 | the walk counts the children |
| `JsonItems.GetArrayItem` | srv/lib/c_json.c:1851-1878 | the child at a position, NULL past the end or before the start |
| `JsonItems.AddItemToArray` | srv/lib/c_json.c:1956-1987 | appending to the child list is appending to the sequence |
| `JsonItems.DetachItemViaPointer` | srv/lib/c_json.c:2187-2221 | removing any child, head, tail or only one, removes it from the sequence and leaves it loose |
| `JsonItems.DetachItemFromArray` | srv/lib/c_json.c:2223-2231 | by position, nothing happening outside the list |
| `JsonItems.InsertItemInArray` | srv/lib/c_json.c:2263-2290 | insertion before any position, or at the end past the last one |
| `JsonItems.ReplaceItemViaPointer` | srv/lib/c_json.c:2292-2339 | replacing any child replaces it in the sequence |
| `JsonItems.ReplaceItemInArray` | srv/lib/c_json.c:2341-2349 | by position |
| `JsonTrees.DuplicateKids` | srv/lib/c_json.c:2746-2776 | the loop links copies of all children, both ways |
| `JsonTrees.Duplicate` | srv/lib/c_json.c:2706-2787 | all new items; with recursion a tree for the same value with proper child lists, without it the item alone |
| `JsonCompare.IntegersCompareExactly` | srv/lib/c_json.c:538-542 | the tolerance never takes two integers of fewer than 52 bits for one |
| `JsonCompare.CompareIsSymmetric` | srv/lib/c_json.c:2986-3109 | comparison is symmetric on all trees |
| `JsonCompare.CompareIsEqualityUpToOrder` | srv/lib/c_json.c:2986-3109 | comparison with a consistent tree holds exactly of consistent trees equal to it up to the order of object members |
| `JsonCompare.CopiesOfConsistentTrees` | srv/lib/c_json.c:2986-3109 | a tree compares equal to a separate copy of it if and only if members of one object that share a name have equal values |
| `JsonCompare.CompareIsAnEquivalence` | srv/lib/c_json.c:2986-3109 | among such trees, which include all without duplicate names, it is an equivalence |
| `JsonCompare.DistinctIsConsistent` | srv/lib/c_json.c:1880-1910 | trees without duplicate names are among them |
| `JsonCompare.ReorderedMembersCompareEqual` | srv/lib/c_json.c:3060-3104 | reordering the members of an object does not matter |
| `JsonTreeCompare.OneTree` | srv/lib/c_json.c:2986-3012 | the heap determines the tree under an item |
| `JsonTreeCompare.GetObjectItem` | srv/lib/c_json.c:1880-1910 | the first child of that name, case sensitive |
| `JsonTreeCompare.Compare` | srv/lib/c_json.c:2986-3109 | the walk over any two trees of items, shared items included: an item is equal to itself whatever it contains, trees with equal values are equal, and trees that share nothing or are not ambiguous are compared by their values alone |
| `JsonTreeCompare.CompareLists` | srv/lib/c_json.c:3040-3058 | the loop over two arrays: as many children, each the same as its counterpart |
| `JsonTreeCompare.AllFound` | srv/lib/c_json.c:3060-3085 | either of the loops over the members of an object: each the same as the first member of that name in the other |
| `JsonTreeCompare.SameIsCompare` | srv/lib/c_json.c:2986-3109 | what the walk decides is comparison of the values, but for items shared by ambiguous trees, and it then only errs towards equality |
| `JsonTreeCompare.CompareWithDuplicate` | srv/lib/c_json.c:2706-2787 | a recursive duplicate compares equal to its source exactly when the source is consistent |
| `JsonEndToEnd.PrintAndParse` | srv/lib/cluster_worker.c:65-80 | an item printed and parsed becomes a new tree for the same value, unless its text is too long to print or the value nested too deep to parse |
| `JsonEndToEnd.PrintMinifyAndParse` | srv/lib/c_json.c:2839-2884 | and so it does with the formatted text minified in between |
| `JsonEndToEnd.PrintParseAndCompare` | srv/lib/c_json.c:2986-3109 | the copy compares equal to the original exactly when the original is consistent |

## Left out

- Sockets, epoll, non-blocking reads and their retries, curl and thread creation: foreign I/O. What a read delivers is a parameter, and sends and `/done` messages are protocol steps.
- `http_response.c`, `connection_context.c`, `utils.c`, `server.c`, `http_request.c`, the route table, and the looking up of `qty`, `worker` and `freed_qty` in request bodies: string assembly and thin helpers.
- Forged or repeated `/done` messages: a message stands for the end of one dispatched job and carries its worker and value, as client/src/main.rs:43-54 sends them. A send that fails leaves its reservation in place for ever.
- Liveness and fairness: small jobs overtake large ones, and a job can be put into the waiting queue just after the release that would have made room for it, so no job is promised to run.
- Fields that leave the C types: overcommitment is bounded for clusters whose maxima are below 2 to the 31st and whose bound is at most that; the wrapped arithmetic itself is modelled everywhere.
- Floating point: numbers are the integers that print as `%d`; `strtod` is an optional minus sign and digits on the characters copied for it; `compare_double` is in exact arithmetic, where the products it forms of such integers are exact anyway. Minus zero is zero.
- The bit operations that build UTF-8 bytes and combine surrogates are written as the arithmetic they amount to.
- Allocation failure, custom hooks, freeing, raw items, reference items, constant keys and NULL arguments.
- JsonParser.ParseWithLengthOpts: asks for a buffer that ends with a NUL, as the call at srv/lib/handler.c:286-295 supplies it.
- JsonParser.ParseBuffer.ParseNumber: its `strtod` ends a number at a fraction or an exponent.
- The positions that a failed parse reports, beyond their being inside the buffer, and the contents of a buffer in which printing failed.
- Case-insensitive lookup and comparison.
- JsonExact.AcceptsExactly: takes the strings that the parser accepts beyond the standard (control characters, literals with bad digits) as its two passes read them.
- Which malformed heads that still wait for more bytes are already past saving: a wrong version is refused only when nine bytes of it are there, an empty method at the version.
- The SSE4.2 branches of `picohttpparser.c`, response parsing and `phr_parse_headers`: the portable request branch is modelled, including the loop unrolled by eight.
