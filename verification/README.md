# Verification of the multithreading labs

A Dafny model of the four concurrent programs of the repository, with proofs that hold for every
input, every schedule and every way a byte stream is cut.

* **Thread pool (lab_3).** `BoundedQueue` holds the critical sections of the bounded queue and the
  class that runs them in place. `PoolProtocol` is the pool as a step system: workers, any number of
  producers and controllers, `notify_one` under the mutex, `notify_all` as a step of its own after
  the mutex is released, and spurious wakeups (ISO/IEC 14882:2011, section 30.5.1). `PoolDrain` is
  about the two shutdowns. `Statistics` is the statistics object, `FullQueueTime` its clock on
  serialised runs, `ThreadPools` the worker loop and the pool object, whose calls and joins follow
  the steps of `PoolProtocol` from its initial state on.
* **Minimum and count (lab_2).** `MinCount` has the sequential search and the mutex version,
  `AtomicMinCount` the lock-free version with one step per atomic operation and spurious
  compare-exchange failures (ISO/IEC 14882:2011, section 29.6.5). `AtomicRefinement` shows on which
  schedules the lock-free version is the mutex version; `CountSafety` and `CountSchedules` show for
  which inputs its count is right on all schedules.
* **Minimum and maximum (lab_1, lab_4).** `MinMax` has the two sequential and the two fork-join
  searches, over the block partition of `Blocks`.
* **Matrix server (lab_4).** `Wire` and `MatrixCodec` are the number formats and payloads (network
  byte order, RFC 791, Appendix B), `Framing` the messages on a stream that is cut into arbitrary
  pieces, `MatrixServer` one connection with its handler and its worker thread, `ConnectionLoops`
  the loops of server and client, `EndToEnd` and `EndToEndRun` a client and its connection together,
  `OversizedMatrix` a client whose matrix is over the limit of a message.

A step system is a state, a predicate `Enabled` and a function `Next` over labelled steps; `Legal`
and `Exec` lift them to runs. A theorem about all runs quantifies over all lists of steps. `Folds`
has the sums over threads that the invariants use.

Where a promise of the programs turned out not to hold for all runs, the model keeps the code as it
is and the project states exactly when it does hold, next to a concrete failing case:

* the lock-free count: `CountSchedules.CountExactExactlyWhen`, `TwoEqualElementsMiscounted`;
* a shutdown that a later `pause()` leaves hanging: `PoolDrain.ShutdownReturnsExactlyWhen` and, for a
  caller who sees only its calls, `CallsLetShutdownReturn`; `PauseAfterStopHangs`;
* graceful shutdown of a pool without workers: `PoolDrain.GracefulRunsEachTaskOnce`,
  `NoWorkerNeverRuns`;
* the least full-queue interval, which starts over at an interval of length zero:
  `Statistics.MinIsExactExactlyWhen`, `ZeroIntervalIsForgotten`;
* full-queue time after a shutdown, to which a refused push can add again:
  `FullQueueTime.RefusedPushOpensExactlyWhen`, `ReopenedAfterShutdown`;
* a START after a result, which assigns to a joinable thread handle (ISO/IEC 14882:2011,
  section 30.3.1.4), and a matrix whose size test passes by wrapping, for which the vector
  constructor throws out of a detached thread (lab_4/cpp/src/server.cpp:266-267): each ends the whole process.
  `MatrixServer.StartCrashesExactlyWhen`, `DataCrashesExactlyWhen`, and for lists of commands under
  every schedule `CrashFreeExactlyWhen`; `SecondStartCrashes`, `WrappedSizeCrashes`.

## Model

| member | source | states |
|---|---|---|
| `BoundedQueue.PushMeaning` | lab_3/queue.cpp:6-17 | below capacity and before a stop a push is accepted and appended, the full flag is raised exactly by the push that takes the last slot, a refusal changes nothing, and the capacity is never exceeded |
| `BoundedQueue.WaitPopMeaning` | lab_3/queue.cpp:19-40 | a task is taken exactly if neither paused nor stopped at once and one is there, it is the front, an empty-handed return means stopped and drained, and sleep leaves the queue alone |
| `BoundedQueue.PauseMeaning` | lab_3/queue.cpp:42-45 | a pause puts every consumer to sleep, stop or no stop, unless stopNow was called, and touches nothing else |
| `BoundedQueue.ResumeMeaning` | lab_3/queue.cpp:47-53 | after a resume the next consumer gets the first task if there is one; nothing else changes |
| `BoundedQueue.StopGracefulMeaning` | lab_3/queue.cpp:55-63 | producers are refused, consumers get the tasks in order, paused or not, and leave when there is none |
| `BoundedQueue.StopNowMeaning` | lab_3/queue.cpp:65-77 | producers are refused, the queue is empty, consumers leave even if a pause follows |
| `BoundedQueue.ThreadSafeQueue.Push` | lab_3/queue.cpp:6-17 | the method is the push section on the object state and keeps the queue invariant |
| `BoundedQueue.ThreadSafeQueue.WaitPop` | lab_3/queue.cpp:19-40 | one pass under the mutex is the pop section, and the third guard on an empty queue is never reached |
| `BoundedQueue.ThreadSafeQueue.Pause` | lab_3/queue.cpp:42-45 | sets the pause flag, whatever the other flags say, and nothing else |
| `BoundedQueue.ThreadSafeQueue.Resume` | lab_3/queue.cpp:47-53 | takes the pause back and nothing else |
| `BoundedQueue.ThreadSafeQueue.StopGraceful` | lab_3/queue.cpp:55-63 | closes the queue, sets stop, lifts a pause, keeps the tasks |
| `BoundedQueue.ThreadSafeQueue.StopNow` | lab_3/queue.cpp:65-77 | the popping loop empties the queue and all flags are set |
| `PoolProtocol.NoLostWakeup` | lab_3/queue.cpp:6-77 | in every run, if the wait predicate holds, some worker is asleep un-notified and no notify_all is due, the notified workers are at least as many as the queued tasks; and with a worker at all they are never all asleep with runnable work |
| `PoolProtocol.StepKeepsWakeups` | lab_3/queue.cpp:15-62 | every step, with notify_all apart from the unlock and spurious wakeups, keeps the wakeup invariant |
| `PoolProtocol.PoolConservation` | lab_3/queue.cpp:6-77 | in every run the accepted tasks in order are those popped followed by those queued (after stopNow: discarded), popped tasks have run or are in one worker's hands, the length is within capacity, accepting is the negation of stop, drops plus accepted are the completed enqueues, waits sampled are executed tasks plus workers past their last wait |
| `PoolProtocol.StepKeepsOrder` | lab_3/queue.cpp:12-75 | every step keeps the arrival order of accepted tasks |
| `PoolProtocol.StepKeepsHandedOver` | lab_3/worker.cpp:16-33 | no step loses or duplicates a task between the queue, the workers and the executed log |
| `PoolProtocol.StepKeepsAccounted` | lab_3/thread_pool.cpp:19-27 | every step keeps the drop and wait counters in line with the history |
| `PoolProtocol.StepKeepsLeaves` | lab_3/worker.cpp:25-27 | a worker leaves only when a stop is set and the queue is empty, and that stays so |
| `PoolProtocol.StepDiscipline` | lab_3/queue.cpp:21-76 | no pop while paused or after stopNow, pops take the front, stop flags are never taken back, nothing is accepted after a stop |
| `PoolProtocol.PauseHoldsTasks` | lab_3/queue.cpp:19-45 | in every run, stop or no stop, no task is popped from a pause until a resume or a stop |
| `PoolProtocol.ResumeReleasesTasks` | lab_3/queue.cpp:19-53 | after a resume and its notify_all every worker that is not busy can take the first task |
| `PoolProtocol.AlwaysPossible` | lab_3/worker.cpp:16-33 | in every state callers are never held up, and every worker but a sleeper or one that has exited can make its next step |
| `PoolDrain.WorkerStepShrinks` | lab_3/worker.cpp:16-33 | while draining each worker step lowers the measure |
| `PoolDrain.DrainBound` | lab_3/queue.cpp:55-63 | after a stop, in every run without a pause, worker steps taken plus those left never exceed those possible at the start, whatever producers and controllers do |
| `PoolDrain.StopBoundsAllWork` | lab_3/thread_pool.cpp:37-56 | a stop leaves at most 3 * capacity + 4 * workers worker steps |
| `PoolDrain.DrainProgress` | lab_3/thread_pool.cpp:37-45 | while draining with notifications delivered, a worker that has not exited can move |
| `PoolDrain.FinalAccount` | lab_3/worker.cpp:16-33 | when all have exited, accepted tasks are those executed, still queued or discarded, as multisets; with a worker the queue is empty; waits are executed tasks plus workers |
| `PoolDrain.GracefulShutdownCompletes` | lab_3/thread_pool.cpp:37-45 | at the standstill after a graceful stop with no later pause all workers have exited, the queue is empty and each accepted task has run exactly once |
| `PoolDrain.GracefulRunsEachTaskOnce` | lab_3/thread_pool.cpp:5-13 | once all have exited each accepted task has run exactly once if and only if the pool has a worker or nothing was accepted |
| `PoolDrain.NoWorkerNeverRuns` | lab_3/thread_pool.cpp:5-13 | a concrete run: no worker, one accepted task, a graceful stop, and the task has not run |
| `PoolDrain.ImmediateRunsOrDiscards` | lab_3/thread_pool.cpp:47-56 | after an immediate shutdown accepted tasks are exactly those run plus those discarded |
| `PoolDrain.ShutdownReturnsExactlyWhen` | lab_3/queue.cpp:42-63 | with a stop set the joins can return without another control call, and on every schedule that comes to rest have returned, if and only if the pool is not paused, or stopNow is set, or all workers are already leaving |
| `PoolDrain.CallsLetShutdownReturn` | lab_3/queue.cpp:42-77 | after a stop that finds a worker busy or asleep, for every list of later control calls: all schedules with these calls that come to rest have all workers exited if and only if the calls leave no pause in force |
| `PoolDrain.LaterPauseHangs` | lab_3/queue.cpp:42-45 | in any reachable state with an unfinished graceful stop, one pause makes the shutdown hang |
| `PoolDrain.PauseAfterStopHangs` | lab_3/queue.cpp:42-45 | a concrete run: one worker, one task, stop, pause |
| `Statistics.StatsTracker.SetCreatedThreads` | lab_3/stats_tracker.cpp:3-6 | records the thread count only |
| `Statistics.StatsTracker.RecordWaitTime` | lab_3/stats_tracker.cpp:8-19 | adds the sample as often as asked, and the running mean stays the exact mean of all samples |
| `Statistics.StatsTracker.RecordDroppedTask` | lab_3/stats_tracker.cpp:21-24 | adds one drop |
| `Statistics.StatsTracker.NoteQueueFullIfNeeded` | lab_3/stats_tracker.cpp:26-36 | opens an interval only at a positive capacity that is reached and if none is open |
| `Statistics.StatsTracker.NoteQueueNotFullIfNeeded` | lab_3/stats_tracker.cpp:38-48 | closes the open interval below capacity and logs its clamped length |
| `Statistics.StatsTracker.FinalizeQueueFullIfNeeded` | lab_3/stats_tracker.cpp:50-56 | closes and logs an open interval |
| `Statistics.StatsTracker.RecordQueueFull` | lab_3/stats_tracker.cpp:63-74 | total, greatest and least-since-zero follow the log of intervals, negative lengths count as zero |
| `Statistics.StatsTracker.GetSnapshot` | lab_3/stats_tracker.cpp:58-61 | the average is the sum of all waits over their number, and least <= greatest <= total = sum of the intervals |
| `Statistics.MeanStep` | lab_3/stats_tracker.cpp:14-18 | one step of the incremental mean is exact |
| `Statistics.MinIsExactExactlyWhen` | lab_3/stats_tracker.cpp:68-70 | the recorded minimum is the true one if and only if no interval was zero or the last one is |
| `Statistics.MinSinceZeroMeaning` | lab_3/stats_tracker.cpp:68-70 | in general the recorded minimum is that of the intervals after the last one of length zero |
| `Statistics.ZeroIntervalIsForgotten` | lab_3/stats_tracker.cpp:26-74 | a concrete case of four notes of which the first two come out of order: the first interval is clamped to zero and the reported minimum is 5 |
| `Statistics.FullTimeBounds` | lab_3/stats_tracker.cpp:63-74 | for k positive intervals k * least <= total <= k * greatest |
| `FullQueueTime.TracksFullTime` | lab_3/stats_tracker.cpp:26-48 | on serialised runs with a monotone clock, up to the finalisation of a shutdown, the flag says whether the queue is at its positive capacity, and recorded time plus the open interval is the time spent full |
| `FullQueueTime.EventKeepsExact` | lab_3/thread_pool.cpp:19-27 | each push or pop with its note keeps that bookkeeping exact |
| `FullQueueTime.ShutdownClosesBooks` | lab_3/thread_pool.cpp:37-39 | the finalisation of a shutdown leaves exactly the time spent full |
| `FullQueueTime.RefusedPushOpensExactlyWhen` | lab_3/thread_pool.cpp:19-27 | after a stop, in every run, a push is refused and opens a new full-queue interval if and only if the queue is at its positive capacity and a finalisation has come after the last push |
| `FullQueueTime.ReopenedAfterShutdown` | lab_3/thread_pool.cpp:19-45 | a concrete run: of 9 units spent full, 6 are recorded |
| `ThreadPools.QueueWorker.Run` | lab_3/worker.cpp:16-33 | an undisturbed worker runs all queued tasks in order unless a pause or stopNow bars it, samples one wait per return, and leaves exactly when a stop is in force |
| `ThreadPools.QueueWorker.TakeTurn` | lab_3/worker.cpp:18-30 | one round: the pop, one wait sample that is the time from the start of the call of waitPop to its return, in milliseconds, the note that may close a full interval, the task |
| `ThreadPools.ThreadPool.constructor` | lab_3/thread_pool.cpp:5-13 | starts as many workers as asked for, at most six, all ready, on one empty, open queue and one fresh tracker; the object is the initial state of the protocol with these workers |
| `ThreadPools.ThreadPool.Enqueue` | lab_3/thread_pool.cpp:19-27 | the push with its wakeup as a step of the protocol, one drop per refusal, and the full flag with its start time |
| `ThreadPools.ThreadPool.ShutdownGraceful` | lab_3/thread_pool.cpp:37-45 | returns with every worker exited and its handle joined, the queue empty and each accepted task run exactly once if there is a worker, one wait per task and worker sampled, the full-queue figures finalised at a time within the call |
| `ThreadPools.ThreadPool.ShutdownNow` | lab_3/thread_pool.cpp:47-56 | flag set, queued tasks discarded, returns with every worker exited and joined, accepted tasks are those run plus those discarded |
| `ThreadPools.ThreadPool.Join` | lab_3/worker.cpp:10-14 | a join lets any worker run until the one it waits for has exited; it returns, nothing is taken in meanwhile, and who has left stays so |
| `ThreadPools.TurnDrains` | lab_3/worker.cpp:16-33 | one round of a worker is a run of the protocol that brings a draining pool nearer to its end |
| `MinCount.FindMinAndCount` | lab_2/main.cpp:20-39 | zero and zero for an empty array, else the minimum and its multiplicity |
| `MinCount.MutexIsExact` | lab_2/main.cpp:42-84 | for every array, thread count and order of critical sections the shared pair is minimum and multiplicity of the elements processed so far, and at the end of the array |
| `MinCount.LockStepKeepsInv` | lab_2/main.cpp:65-73 | each critical section keeps that |
| `MinCount.DoneStep` | lab_2/main.cpp:65-66 | one section adds exactly its element to those processed |
| `MinCount.DoneAtEnd` | lab_2/main.cpp:52-81 | when all blocks are finished each element has been processed once |
| `MinCount.MinCountUnique` | lab_2/main.cpp:20-39 | minimum and multiplicity determine the result, so exact versions agree |
| `MinCount.FindMinAndCountParallelMutex` | lab_2/main.cpp:42-84 | the parallel search with any scheduler returns minimum and multiplicity |
| `AtomicMinCount.LockFreeMinimum` | lab_2/main.cpp:93-142 | in every interleaving with spurious failures the minimum is INT_MAX or an element, no processed element and no compared value is below it, and at the end it is the minimum |
| `AtomicMinCount.StepFrame` | lab_2/main.cpp:118-129 | the shared minimum never increases, a step moves only its own thread, and a spurious failure is one of an exchange and changes nothing |
| `AtomicMinCount.LockFreeCountBounds` | lab_2/main.cpp:99-141 | in every interleaving the count is at most the elements that made their store or add; at the end it is between 1 and n, and n if all are INT_MAX |
| `AtomicMinCount.LockFreeTermination` | lab_2/main.cpp:116-131 | spurious failures aside every schedule makes at most n * (n + 4) steps, and until all is processed some thread can step |
| `AtomicMinCount.CostShrinks` | lab_2/main.cpp:120-125 | each step that is not a spurious failure lowers its thread's cost; a failed exchange is paid by the descent of the minimum through array values |
| `CountSafety.FindMinAndCountParallelAtomic` | lab_2/main.cpp:93-142 | with any scheduler and finitely many spurious failures the search returns minimum and count of some complete interleaving of the atomic operations: the minimum, a count between 1 and n, and the multiplicity on every input that satisfies the condition |
| `AtomicRefinement.StepRefines` | lab_2/main.cpp:113-132 | a step with no other thread between its decisive access and its write is a critical section of the mutex version or none |
| `AtomicRefinement.UndisturbedIsExact` | lab_2/main.cpp:113-141 | every run in which no other thread steps between an exchange and its store or an equality load and its add refines a mutex run, and ends with minimum and multiplicity |
| `CountSafety.LoneMinimumExact` | lab_2/main.cpp:113-141 | with a minimum that occurs once and no matchable element in another block the count is right on every schedule |
| `CountSafety.EqualMeansMatchable` | lab_2/main.cpp:127-128 | a thread that finds its element equal to the shared minimum owns a matchable element |
| `CountSafety.SafeIsExact` | lab_2/main.cpp:93-142 | the condition on array and thread count is sufficient for a right count on all schedules |
| `CountSchedules.LateAdd` | lab_2/main.cpp:127-129 | if an element can meet its value and another block holds the minimum, some schedule counts one too many |
| `CountSchedules.LateStore` | lab_2/main.cpp:121-123 | if a store of 1 can come after two minima were processed, some schedule counts too few |
| `CountSchedules.CountExactExactlyWhen` | lab_2/main.cpp:93-142 | the lock-free count is right on all schedules if and only if the input satisfies the condition |
| `CountSchedules.TwoEqualElementsMiscounted` | lab_2/main.cpp:93-142 | a concrete input with a wrong count: two threads over two equal elements |
| `Blocks.HandOutBlocks` | lab_2/main.cpp:52-77 | the blocks are adjacent from 0 to n, the first n % k of them one longer than n / k and the rest n / k long; block i starts at i * (n / k) + min(i, n % k) |
| `Blocks.Owner` | lab_2/main.cpp:52-58 | the blocks cover the range |
| `Blocks.OwnerUnique` | lab_2/main.cpp:52-58 | the blocks are disjoint |
| `Blocks.BlockNonEmpty` | lab_4/cpp/include/minmax.h:43-57 | with no more threads than rows no block is empty |
| `MinMax.FindMinMaxSequential` | lab_4/cpp/include/minmax.h:14-25 | least and greatest element of the data |
| `MinMax.FindMinMaxParallel` | lab_4/cpp/include/minmax.h:27-92 | for every thread count, zero included, and every order of completion the least and greatest element; zeros for no data |
| `MinMax.ForkJoin` | lab_4/cpp/include/minmax.h:54-79 | each slot ends with the result of its rows, in whatever order the threads finish |
| `MinMax.MergeSlots` | lab_4/cpp/include/minmax.h:81-91 | merging the slots gives the result of all rows |
| `MinMax.MinMaxUnique` | lab_4/cpp/include/minmax.h:27-92 | there is only one such result, so the variants agree |
| `MinMax.FindMinMax` | lab_1/main.cpp:18-32 | least and greatest element of the matrix |
| `MinMax.MinMaxWorker` | lab_1/main.cpp:35-49 | least and greatest element of the rows of a block |
| `MinMax.FindMinMaxParallelRows` | lab_1/main.cpp:52-93 | for every thread count from one on, more threads than rows included, the least and greatest element |
| `MinMax.ForkJoinRows` | lab_1/main.cpp:60-79 | working slots hold their rows' result, idle slots the first element |
| `MinMax.MergeRowSlot` | lab_1/main.cpp:82-90 | a working slot adds its rows to the merge, an idle slot is neutral |
| `Wire.U32Bytes` | lab_4/cpp/include/protocol.h:48-54 | the four bytes of an unsigned number, most significant first |
| `Wire.I32Bytes` | lab_4/cpp/include/protocol.h:64-70 | the four bytes of a signed number, those of the number 2^32 above it if it is negative |
| `Wire.ReadMeaning` | lab_4/cpp/include/protocol.h:123-144 | a read at an offset gives the number written there and moves behind it, and fails if the buffer ends before |
| `Wire.U32RoundTrip` | lab_4/cpp/include/protocol.h:48-54 | decoding undoes encoding of unsigned numbers |
| `Wire.U32RoundTripBytes` | lab_4/cpp/include/protocol.h:48-54 | encoding undoes decoding of four bytes |
| `Wire.U16RoundTrip` | lab_4/cpp/include/protocol.h:56-62 | the same for 16-bit numbers |
| `Wire.I32RoundTrip` | lab_4/cpp/include/protocol.h:64-70 | decoding undoes encoding of signed numbers |
| `Wire.I32RoundTripBytes` | lab_4/cpp/include/protocol.h:64-70 | encoding undoes decoding of signed numbers |
| `Framing.EncodedBytes` | lab_4/cpp/include/protocol.h:11-12 | the bytes of every message: 4D 4D 58 31, 0 1, then type, length and payload |
| `Framing.PayloadLimit` | lab_4/cpp/include/protocol.h:13 | a receiver takes payloads of at most 268435456 bytes |
| `Framing.ParseOfEncode` | lab_4/cpp/include/protocol.h:147-201 | an encoded message followed by anything is received as that message and leaves that rest, unless its payload is over the limit; then it is refused |
| `Framing.ParseIsExact` | lab_4/cpp/include/protocol.h:173-201 | what is received was encoded, and success consumes exactly 12 bytes and the payload |
| `Framing.TruncatedIsNotParsed` | lab_4/cpp/include/protocol.h:173-201 | a message cut short is never reported |
| `Framing.ParseAllOfEncodeAll` | lab_4/cpp/include/protocol.h:147-201 | a list of messages followed by no message is received as that list |
| `Framing.CutStreamYieldsWholeMessages` | lab_4/cpp/include/protocol.h:147-201 | a stream cut inside its last message yields all messages but the last |
| `Framing.Socket.RecvAll` | lab_4/cpp/include/protocol.h:94-106 | for every split into pieces success means the next bytes of the stream, and below 2^31 bytes it succeeds exactly if enough of them come |
| `Framing.Socket.SendAll` | lab_4/cpp/include/protocol.h:80-92 | for every size and split success means all bytes went out in order, failure a proper prefix and, below 2^31 bytes, that a call of send has failed; from 2^31 to 2^32 bytes the cast to int makes it fail with nothing sent |
| `Framing.Socket.SendMessage` | lab_4/cpp/include/protocol.h:147-170 | for every length of 32 bits success means the encoding went out, failure a proper prefix of it and, below 2^31 bytes, that a call of send has failed; a payload from 2^31 bytes on fails |
| `Framing.Socket.RecvMessage` | lab_4/cpp/include/protocol.h:173-201 | for every split the first message of the stream with the rest left, or failure |
| `Framing.Socket.RecvMessages` | lab_4/cpp/src/server.cpp:162-168 | repeated receiving yields the messages of the stream up to the first failure |
| `MatrixCodec.DataLayout` | lab_4/cpp/src/client.cpp:116-124 | rows, columns, threads and then element i at byte 12 + 4 * i |
| `MatrixCodec.DataExample` | lab_4/cpp/src/client.cpp:116-124 | the bytes of a matrix with a negative element |
| `MatrixCodec.TakenExactlyWhenEncoded` | lab_4/cpp/src/server.cpp:54-84 | a payload is taken as a request if and only if it is the encoding of that request with rows * cols elements, in wrapping size arithmetic |
| `MatrixCodec.DecodeOfEncode` | lab_4/cpp/src/client.cpp:116-124 | decoding undoes the client's encoding |
| `MatrixCodec.EncodeOfDecode` | lab_4/cpp/src/server.cpp:54-84 | a taken payload has exactly 12 + 4 * rows * cols bytes and is given back by encoding |
| `MatrixCodec.ExpectedSizeWraps` | lab_4/cpp/src/server.cpp:70-77 | a size test that passes by wrapping: 12 bytes announce 2^62 elements, and the vector of them throws |
| `MatrixCodec.ThrowsExactlyWhen` | lab_4/cpp/src/server.cpp:70-77 | the vector constructor throws if and only if 2^62 elements or more are announced and the payload has the bytes of their number modulo 2^62 |
| `MatrixCodec.ReadLoopSucceeds` | lab_4/cpp/src/server.cpp:70-84 | behind size test and vector the read loop never runs out of bytes: a shape of positive numbers is refused exactly by the size test |
| `MatrixCodec.ReadData` | lab_4/cpp/src/server.cpp:54-84 | the parsing half of the handler is the decoder, the throwing vector included, and its read loop cannot fail |
| `MatrixCodec.ReadElements` | lab_4/cpp/src/server.cpp:76-84 | the read loop succeeds exactly if all elements are there |
| `MatrixCodec.BuildPayload` | lab_4/cpp/src/client.cpp:116-124 | the C++ client builds the encoding |
| `MatrixCodec.BuildGoData` | lab_4/go_client/main.go:46-91 | the Go client's buffer is the same message, as long as its size fits 32 bits |
| `MatrixCodec.StatusRoundTrip` | lab_4/cpp/src/server.cpp:44-51 | the status answer survives the trip |
| `MatrixCodec.StatusRoundTripBytes` | lab_4/cpp/src/client.cpp:168-178 | an answer is read exactly if its 16 bytes are there, and encoding gives them back |
| `MatrixCodec.StatusLayout` | lab_4/cpp/src/server.cpp:44-51 | status, minimum, maximum, error |
| `MatrixCodec.StatusExample` | lab_4/cpp/src/server.cpp:44-51 | the bytes of an answer with distinct minimum and maximum |
| `MatrixCodec.ReadStatus` | lab_4/cpp/src/client.cpp:168-178 | the C++ client's reads are the decoder |
| `MatrixCodec.ReadGoStatus` | lab_4/go_client/main.go:203-210 | the Go client's slices are the same decoder |
| `MatrixServer.StatusMeansWhatItSays` | lab_4/cpp/src/server.cpp:22-157 | in every run: data iff not idle, internal error iff error, data of the announced size, done means stored results are those of the current data, the handle is joinable exactly in running, done and error, and the worker is past the mutex unless running |
| `MatrixServer.StepKeepsInv` | lab_4/cpp/src/server.cpp:54-195 | every step of handler and worker keeps the connection invariant |
| `MatrixServer.HandlerDiscipline` | lab_4/cpp/src/server.cpp:160-197 | commands are served one at a time until the connection ends, a join under the mutex lets only the worker's exit pass, and the connection is closed only without a worker |
| `MatrixServer.RunningKeepsData` | lab_4/cpp/src/server.cpp:86-90 | the matrix does not change while a job runs |
| `MatrixServer.StatusReplyIsTrue` | lab_4/cpp/src/server.cpp:151-157 | a status answer carries the current status, true results if done and zeros otherwise |
| `MatrixServer.StatusNumbers` | lab_4/cpp/src/server.cpp:86-143 | the states by number and what leads from one to the next, with the job the worker gets and the results it may store |
| `MatrixServer.CommandAndReplyBytes` | lab_4/cpp/include/protocol.h:15-39 | the bytes of START, STATUS, DATA_OK, START_OK and of the three refusals |
| `MatrixServer.SessionBytes` | lab_4/cpp/src/server.cpp:44-51 | the bytes of a DATA command and of the answer to STATUS when its search is done |
| `MatrixServer.RefusedExactlyWhen` | lab_4/cpp/src/server.cpp:54-183 | a command is refused, with no change of state, if and only if one of the listed reasons holds, and the number of the error is 1, 2 or 3 exactly by the reason; a wrapped size is none of them |
| `MatrixServer.DataReplacesMatrix` | lab_4/cpp/src/server.cpp:86-104 | a well-formed matrix in any state but running becomes the current one, after a join exactly if a result was there |
| `MatrixServer.JoinUnderMutexReturns` | lab_4/cpp/src/server.cpp:86-93 | whenever the handler joins under the mutex the worker needs the mutex no more, and the join returns after at most the worker's exit |
| `MatrixServer.FinalJoinReturns` | lab_4/cpp/src/server.cpp:192-196 | the join at the end of a connection returns after at most three steps |
| `MatrixServer.StartCrashesExactlyWhen` | lab_4/cpp/src/server.cpp:108-128 | a start overwrites a joinable handle if and only if the status is done or error |
| `MatrixServer.DataCrashesExactlyWhen` | lab_4/cpp/src/server.cpp:66-77 | a DATA command brings the process down, in any state, if and only if it announces 2^62 elements or more with the bytes of their number modulo 2^62 |
| `MatrixServer.FatalExactlyWhen` | lab_4/cpp/src/server.cpp:54-183 | no other command does, and only a crash or a pending join leaves a command without an answer |
| `MatrixServer.CrashFreeExactlyWhen` | lab_4/cpp/src/server.cpp:54-183 | for every list of commands: no schedule of handler and worker brings the process down on it or on a part of it received so far, if and only if no size test passes by wrapping and at most one START follows the first well-formed matrix |
| `MatrixServer.SecondStartCrashes` | lab_4/cpp/src/server.cpp:108-143 | a concrete run: a matrix, a START, the worker fails, a START |
| `MatrixServer.WrappedSizeCrashes` | lab_4/cpp/src/server.cpp:54-77 | a concrete message that every receiver takes and that ends the process in every state |
| `MatrixServer.ClientState.HandleDataCommand` | lab_4/cpp/src/server.cpp:54-105 | the method is the handler step, together with the return of the join if there is one, and keeps the invariant; there is no reply exactly when the process is terminated |
| `MatrixServer.ClientState.HandleStartCommand` | lab_4/cpp/src/server.cpp:108-148 | the method is the handler step; there is no reply exactly when the process is terminated |
| `MatrixServer.ClientState.HandleStatusCommand` | lab_4/cpp/src/server.cpp:151-157 | the method is the handler step and changes nothing |
| `MatrixServer.ClientState.RunWorker` | lab_4/cpp/src/server.cpp:128-144 | the worker stores the true result of its copy or the internal error |
| `ConnectionLoops.HandleClient` | lab_4/cpp/src/server.cpp:160-197 | every execution of the command loop is a run of the step system on the messages of the stream; it serves them all, sends exactly the run's answers and ends closed with no joinable handle, unless a call of send fails, which leaves the last answer unfinished, or the process is terminated, which never happens on a stream of safe commands |
| `ConnectionLoops.Dispatch` | lab_4/cpp/src/server.cpp:172-185 | one command extends the run by its receipt, a pending join and one answer; the process is terminated exactly by a start in done or error and by a wrapped size |
| `ConnectionLoops.RunClient` | lab_4/cpp/src/client.cpp:126-192 | the client ends with the outcome of the answers on its stream and has sent exactly the questions that go with them, or fails exactly if a call of send fails, with a proper prefix sent |
| `ConnectionLoops.WrongAnswerFails` | lab_4/cpp/src/client.cpp:35-59 | the client fails on an error, on an answer of another type than the one asked for, on the end of the stream, and on a status answer that is cut short or reports a failure |
| `ConnectionLoops.ConversationShape` | lab_4/cpp/src/client.cpp:126-184 | whatever it is answered, the client asks DATA, START and then STATUS repeated |
| `ConnectionLoops.ConversationIsSafe` | lab_4/cpp/src/client.cpp:126-184 | so no schedule of the server crashes on it |
| `EndToEnd.ResultIsTrue` | lab_4/cpp/src/client.cpp:116-192 | for every matrix a message can carry, every thread count, every cut of the streams and every interleaving a printed result is the minimum and maximum of the matrix sent, the client gives up only if the worker failed, and the server does not crash |
| `EndToEnd.NeverStuck` | lab_4/cpp/src/client.cpp:134-192 | while the client waits some byte can move or a whole message can be handled |
| `EndToEnd.ReactMeaning` | lab_4/cpp/src/client.cpp:157-192 | for every answer, of whatever server: what ends the exchange with a failure, what with a result, and which bytes the result is read from |
| `EndToEnd.ReactToAnswer` | lab_4/cpp/src/client.cpp:157-192 | the client's reaction to a true answer is right |
| `EndToEnd.ParsedIsTheMessage` | lab_4/cpp/include/protocol.h:173-201 | a message in pieces is only ever parsed as itself |
| `EndToEndRun.SomeRunFinishes` | lab_4/cpp/src/client.cpp:126-184 | for every matrix and thread count some run ends with the result |
| `EndToEndRun.EveryRunCanFinish` | lab_4/cpp/src/client.cpp:126-184 | from every reachable point of an exchange some continuation ends it, with the result or, if the worker has failed by then, with a failure |
| `EndToEndRun.PollingEnds` | lab_4/cpp/src/client.cpp:157-184 | once the worker has finished or failed, at most 139 more steps of client, handler and streams are made, in every interleaving |
| `OversizedMatrix.OversizedIsNeverServed` | lab_4/cpp/src/client.cpp:116-131 | a client whose matrix is over the limit, with the length cut to 32 bits, never prints a result, and the server takes nothing from it |

## Left out

- lab_5: an append-only cache with linear search and Win32 file serving; it would only add easy members.
- Socket set-up, accept loop, logging, console encoding, random generation and benchmark timing: plumbing around the modelled code. `Framing.Socket` has no separate error code: a receive error is a stream that ends there.
- Weak memory orders of lab_2: the atomic operations interleave sequentially consistently.
- Integer widths of counters: counts, sizes and clock readings are unbounded; 64-bit wrapping is modelled only in the size test of the DATA handler, 32-bit widths in the wire formats.
- Floating-point rounding of the average wait: the mean is over the reals.
- Task bodies are labels that terminate; the sleeping tasks and cancellation of lab_3/main.cpp are demo code.
- Shortage of memory and failure to create a thread: not modelled, except that a worker of the server may fail at any time and report the internal error. A vector too long for any memory is modelled: its constructor throws.
- The crash of one connection ends the process and with it all other connections; the model has one connection.
- Timing of the full-queue notes that are not serialised with their push or pop: the notes run outside the queue mutex and may come out of order. `FullQueueTime` is about serialised runs. The notes are no steps of `PoolProtocol`, which has no clock.
- ThreadPools.QueueWorker.Run: is the loop without interference by other threads, because a call that sleeps in the middle is not a Dafny method; the interleaved loop is the steps WaitPop, RecordWait and Finish of `PoolProtocol`, and in a join of `ThreadPools.ThreadPool` the workers interleave round by round.
- ThreadPools.ThreadPool.ShutdownGraceful: lets the workers run only while it joins them, a whole round at a time; the finer interleavings and a pause in between are the subject of `PoolDrain`.
- ThreadPools.ThreadPool.ShutdownNow: the same.
- CountSafety.FindMinAndCountParallelAtomic: does not give an exact count outside the condition, because there some schedule miscounts; `CountSchedules.CountExactExactlyWhen` says so.
- MatrixServer.ClientState.JoinWorker: stands for a join that waits, because waiting is not a Dafny method; `MatrixServer.JoinUnderMutexReturns` shows that the wait ends.
- ConnectionLoops.HandleClient: leaves open how far the worker gets between two commands, because that is up to the scheduler; `EndToEndRun.EveryRunCanFinish` and `PollingEnds` are about its progress.
- ConnectionLoops.RunClient: does not say that a result is true, because that needs the server at the other end; `EndToEnd.ResultIsTrue` says it.
- The replies of the server are sent under its mutex; in `EndToEnd` the worker may also step while a reply goes out, which only adds runs. The Go client skips the check of magic and version on answers; its control flow after an answer is that of the C++ client and not modelled twice.
