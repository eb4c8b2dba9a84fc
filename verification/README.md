# night-crawler-libs: bucket queues and the hash-sharded executor, in Dafny

This project models the core of two small Kotlin libraries and proves properties about them.

**Bucket queue.** `BucketQueue` is a key-bucketed accumulator. Every element is filed under the bucket key that a resolver maps its key to. The queue holds three pieces of state:
- a map from bucket key to the bucket's elements, in insertion order;
- a `TreeSet` of the known bucket keys;
- a running element count.

`pop(k)` removes every bucket whose key is at most `k` and returns their elements, lowest key first.

**Time-bucketed queue.** `ConcurrentTimeBucketQueue` is a bucket queue over instants. Its default resolver files an instant under the start of its time slot, computed with the JVM's truncating Long division. Instants are modelled as epoch milliseconds.

**Hash-sharded executor.** `HashExecutorService` holds a fixed array of shard executors and a bucket mapper. The mapper sends each task to one shard.
- The lifecycle calls (`shutdown`, `shutdownNow`, `isShutdown`, `isTerminated`, `awaitTermination`) fan out to every shard through `doSafe`. `doSafe` gathers the per-shard failures into one aggregate exception.
- `invokeAll` (untimed and timed) dispatches every task, then waits on the futures. It cancels them on failure, on a deadline or on an interruption.
- `invokeAny` submits tasks one at a time and returns the first successful completion.
- `cancelAll` and `blockWait` are the list helpers these calls use.

## Modules

| file | module | models |
|---|---|---|
| `results.dfy` | `Results` | Option and Result wrappers for throwing paths |
| `jvm_arith.dfy` | `JvmArith` | the JVM's `/` and `%` (rounded toward zero), with their defining identity |
| `bucket_queue.dfy` | `BucketQueues` | the `BucketQueue` class |
| `time_bucket_queue.dfy` | `TimeBuckets` | the slot resolver, the time-bucketed queue and its documented walk-through |
| `futures.dfy` | `Futures` | future states, the throwables, `cancelAll` and `blockWait` |
| `hash_executor.dfy` | `HashExecutors` | routing, `doSafe` and the lifecycle calls, `invokeAll` (both forms) and `invokeAny` |

Modelling conventions:
- `BucketQueue` is a class whose fields the methods update.
- The `TreeSet` is a strictly ascending sequence, and `Insert` plays `TreeSet.add`.
- A thrown exception is the `Failure`/`None` branch of a result.
- Futures live in an array that `cancelAll`, `blockWait` and both forms of `invokeAll` update in place. `DoInvokeAny` keeps no futures array: it returns the shards the tasks went to, the completions it drew and the indices of the futures it cancelled.
- What the environment decides becomes a parameter of the operation:
  - what a shard answers to a lifecycle call;
  - what a blocking or timed `get` ends with;
  - whether the deadline has passed;
  - what the completion queue yields.

## Model

| member | source | states |
|---|---|---|
| JvmArith.QuotRem | collections/src/main/kotlin/nightcrawler/collections/ConcurrentTimeBucketQueue.kt:10 | JVM division: `(a / b) * b + a % b == a`; the remainder is smaller than the divisor in magnitude and has the dividend's sign |
| BucketQueues.Insert | collections/src/main/kotlin/nightcrawler/collections/BucketQueue.kt:22 | TreeSet.add keeps the keys ascending and adds exactly the new key; adding a present key changes nothing, adding a new one grows the set by one |
| BucketQueues.InsertAtEnd | collections/src/main/kotlin/nightcrawler/collections/BucketQueue.kt:22 | a key above every known key is appended at the end |
| BucketQueues.HeadCount | collections/src/main/kotlin/nightcrawler/collections/BucketQueue.kt:50 | `headSet(k, true)` is a prefix of the ascending keys: the keys in it are at most `k`, the keys after it are above `k` |
| BucketQueues.HeadMembership | collections/src/main/kotlin/nightcrawler/collections/BucketQueue.kt:50 | a known key is in the head set iff it is at most the bound, and in the rest iff it is above |
| BucketQueues.AboveBound | collections/src/main/kotlin/nightcrawler/collections/BucketQueue.kt:50-59 | removing the head-set keys from the bucket map leaves exactly the buckets keyed above the bound |
| BucketQueues.PopSplit | collections/src/main/kotlin/nightcrawler/collections/BucketQueue.kt:49-63 | all held elements are the popped buckets' elements followed by the remaining buckets' elements |
| BucketQueues.AppendConsistent | collections/src/main/kotlin/nightcrawler/collections/BucketQueue.kt:16-26 | the `compute` step keeps the invariant (ascending known keys equal to the map's keys, no empty bucket, count equals contents) and adds exactly the new elements to the contents, as a multiset |
| BucketQueues.AscendingDistinct | collections/src/main/kotlin/nightcrawler/collections/BucketQueue.kt:12 | the known keys have no repetition, as in a set |
| BucketQueues.NonEmptyBuckets | collections/src/main/kotlin/nightcrawler/collections/BucketQueue.kt:66-67 | buckets that are never empty hold at least one element each |
| BucketQueues.BucketQueue.constructor | collections/src/main/kotlin/nightcrawler/collections/BucketQueue.kt:6-13 | a new queue has no buckets, no known keys and count 0, and keeps the given resolver |
| BucketQueues.BucketQueue.AppendToBucket | collections/src/main/kotlin/nightcrawler/collections/BucketQueue.kt:16-26 | the bucket becomes its old contents followed by the new elements; its key becomes known; the count grows by the number of elements; the invariant holds |
| BucketQueues.BucketQueue.Add | collections/src/main/kotlin/nightcrawler/collections/BucketQueue.kt:15-27 | a throwing resolver changes nothing; otherwise the element is appended to its resolved bucket, which is returned, and the count grows by one |
| BucketQueues.BucketQueue.AddAll | collections/src/main/kotlin/nightcrawler/collections/BucketQueue.kt:29-47 | the key is resolved first; an empty batch is handed back unchanged and changes nothing; otherwise the batch is appended to the resolved bucket and the count grows by its size |
| BucketQueues.BucketQueue.Pop | collections/src/main/kotlin/nightcrawler/collections/BucketQueue.kt:49-64 | returns the buckets keyed at most `k`, lowest key first; the old contents are the popped elements followed by the new contents; exactly the buckets above `k` remain; the count drops by the number popped; with nothing at or below `k` nothing changes |
| BucketQueues.BucketQueue.Size | collections/src/main/kotlin/nightcrawler/collections/BucketQueue.kt:66 | the running count equals the number of elements held |
| BucketQueues.BucketQueue.NumBuckets | collections/src/main/kotlin/nightcrawler/collections/BucketQueue.kt:67 | the size of the bucket map equals the number of known keys and is at most the number of elements |
| BucketQueues.BucketQueue.Buckets | collections/src/main/kotlin/nightcrawler/collections/BucketQueue.kt:68 | the known keys, ascending, and exactly the keys of the bucket map |
| TimeBuckets.BucketStart | collections/src/main/kotlin/nightcrawler/collections/ConcurrentTimeBucketQueue.kt:9-11 | the resolver throws (None) exactly when the resolution is zero |
| TimeBuckets.TimeResolver | collections/src/main/kotlin/nightcrawler/collections/ConcurrentTimeBucketQueue.kt:9-11 | the queue's resolver maps every instant to its slot start; for a positive resolution every instant at or after the epoch gets a slot start that is a multiple of the resolution and lies within one resolution at or below the instant |
| TimeBuckets.SlotOfNonNegative | collections/src/main/kotlin/nightcrawler/collections/ConcurrentTimeBucketQueue.kt:10 | for instants at or after the epoch, the slot start is a multiple of the resolution, not later than the instant and less than one resolution before it |
| TimeBuckets.SlotTruncates | collections/src/main/kotlin/nightcrawler/collections/ConcurrentTimeBucketQueue.kt:10 | for any instant and non-zero resolution, the slot start lies between the epoch and the instant, less than one resolution away |
| TimeBuckets.NegativeInstantRoundsUp | collections/src/main/kotlin/nightcrawler/collections/ConcurrentTimeBucketQueue.kt:10 | before the epoch, the slot start is rounded toward the epoch (-50 ms goes to 0 at 100 ms) |
| TimeBuckets.SlotIdempotent | collections/src/main/kotlin/nightcrawler/collections/ConcurrentTimeBucketQueue.kt:10 | resolving a slot start gives it back |
| TimeBuckets.SlotMonotone | collections/src/main/kotlin/nightcrawler/collections/ConcurrentTimeBucketQueue.kt:10 | at or after the epoch, a later instant never falls in an earlier slot |
| TimeBuckets.SameSlot | collections/src/main/kotlin/nightcrawler/collections/ConcurrentTimeBucketQueue.kt:10 | two instants at or after the epoch share a slot iff they have the same quotient by the resolution |
| TimeBuckets.NewTimeBucketQueue | collections/src/main/kotlin/nightcrawler/collections/ConcurrentTimeBucketQueue.kt:6-18 | a new time-bucketed queue is empty and uses the slot resolver |
| TimeBuckets.AddToSlot | collections/src/test/kotlin/nightcrawler/collections/ConcurrentTimeBucketQueueTest.kt:13-15 | adding instants that share a slot makes the slot known, grows it and the count by one per instant, and leaves every other bucket alone; a slot above all known slots is appended last |
| TimeBuckets.AddInstant | collections/src/main/kotlin/nightcrawler/collections/BucketQueue.kt:15-27 | one `add` of an instant in a slot appends the element to that slot's bucket, makes the slot known, adds one to the count and leaves every other bucket as it was |
| TimeBuckets.FillThreeSlots | collections/src/test/kotlin/nightcrawler/collections/ConcurrentTimeBucketQueueTest.kt:11-29 | three instants per slot at 100 ms give buckets [0] and size 3, then [0, 100] and size 6, then [0, 100, 200] and size 9 |
| TimeBuckets.HundredMillisecondWalkthrough | collections/src/test/kotlin/nightcrawler/collections/ConcurrentTimeBucketQueueTest.kt:10-40 | the documented walk-through: buckets [0] / size 3, [0, 100] / size 6 and [0, 100, 200] / size 9 after each group of adds, `pop(150)` gives 6 elements and leaves slot 200 with size 3, `pop(1000000)` gives 3 and leaves no buckets, size 0 |
| Futures.FutureState.Cancel | concurrent/src/main/kotlin/nightcrawler/concurrent/extensions.kt:10 | `cancel(true)` makes a future that is not done cancelled, and leaves a future that is already done unchanged |
| Futures.CancelAll | concurrent/src/main/kotlin/nightcrawler/concurrent/extensions.kt:8-12 | cancels each future from `startFrom` on, once each and in order; the earlier ones are untouched; afterwards every future from `startFrom` on is done |
| Futures.NotDone | concurrent/src/main/kotlin/nightcrawler/concurrent/extensions.kt:15 | `filterNot { it.isDone }` lists exactly the futures not done, in list order |
| Futures.BlockWait | concurrent/src/main/kotlin/nightcrawler/concurrent/extensions.kt:14-22 | waits, in order, on the futures not done at the start. It ends normally iff no wait is interrupted, and then every future is done. The first interruption stops the waiting at that future and is passed on; no wait before it was interrupted. Failed and cancelled futures are passed over |
| Futures.WaitedAllSettled | concurrent/src/main/kotlin/nightcrawler/concurrent/extensions.kt:14-22 | once every future not done has been waited on without interruption, all are done |
| HashExecutors.Of | concurrent/src/main/kotlin/nightcrawler/concurrent/HashExecutorService.kt:24-31 | `poolSize` fresh accepting shards (none for a negative size), with the hash-modulo mapper |
| HashExecutors.ShardIndex | concurrent/src/main/kotlin/nightcrawler/concurrent/HashExecutorService.kt:234-236 | `pool[task.index]`: routing succeeds iff the mapper succeeds with an index inside the array, and then picks that shard; a throwing mapper passes its error on; an index outside fails with an out-of-bounds error for that index |
| HashExecutors.Dispatch | concurrent/src/main/kotlin/nightcrawler/concurrent/HashExecutorService.kt:41-43 | `execute`/`submit` succeeds iff routing succeeds and the shard still accepts work; routing errors pass through; a shard that no longer accepts work rejects the task with `Rejected` for that shard |
| HashExecutors.RouteByHash | concurrent/src/main/kotlin/nightcrawler/concurrent/HashExecutorService.kt:28-30 | a task with a non-negative hash code goes to shard `hash mod poolSize`, which is in range |
| HashExecutors.SameShard | concurrent/src/main/kotlin/nightcrawler/concurrent/HashExecutorService.kt:28-30 | tasks with non-negative hash codes share a shard iff their hash codes are congruent modulo the pool size |
| HashExecutors.NegativeHashRouting | concurrent/src/main/kotlin/nightcrawler/concurrent/HashExecutorService.kt:29 | a negative hash code gives a remainder in (-poolSize, 0]: shard 0 when it is zero, otherwise an out-of-bounds failure |
| HashExecutors.NegativeHashExample | concurrent/src/main/kotlin/nightcrawler/concurrent/HashExecutorService.kt:29 | hash code -7 over three shards fails with index -1 |
| HashExecutors.NoShards | concurrent/src/main/kotlin/nightcrawler/concurrent/HashExecutorService.kt:24-30 | with no shards every routing fails, by division by zero when the size is zero |
| HashExecutors.OfFloorMod | concurrent/src/main/kotlin/nightcrawler/concurrent/HashExecutorService.kt:24-31 | the factory with a non-negative remainder: the same shards, the floor-mod mapper |
| HashExecutors.FloorModRoutesEverywhere | concurrent/src/main/kotlin/nightcrawler/concurrent/HashExecutorService.kt:28-30 | with the corrected mapper every task reaches a shard whatever its hash code; the index is congruent to the hash code and agrees with the factory on non-negative hash codes |
| HashExecutors.FailureMembers | concurrent/src/main/kotlin/nightcrawler/concurrent/HashExecutorService.kt:148-158 | the errors collected are exactly the throwables of the failing shards |
| HashExecutors.NoFailures | concurrent/src/main/kotlin/nightcrawler/concurrent/HashExecutorService.kt:148-160 | no error is collected iff every shard succeeded, and then the results are every shard's result, in shard order |
| HashExecutors.Aggregate | concurrent/src/main/kotlin/nightcrawler/concurrent/HashExecutorService.kt:160-165 | the aggregate carries all errors and is the interrupted variant iff some error is an interruption |
| HashExecutors.DoSafe | concurrent/src/main/kotlin/nightcrawler/concurrent/HashExecutorService.kt:145-167 | applies the block to every shard in order without stopping; returns the per-shard results without failures, otherwise the aggregate of all failures |
| HashExecutors.FlattenMembers | concurrent/src/main/kotlin/nightcrawler/concurrent/HashExecutorService.kt:50 | `flatten` holds exactly the elements of the shards' lists |
| HashExecutors.Shutdown | concurrent/src/main/kotlin/nightcrawler/concurrent/HashExecutorService.kt:45-47 | fails iff some shard's shutdown fails, with the aggregate; a shard still accepts work afterwards only if its own shutdown failed |
| HashExecutors.ShutdownNow | concurrent/src/main/kotlin/nightcrawler/concurrent/HashExecutorService.kt:49-51 | without failures returns exactly the tasks the shards never started, in shard order; otherwise the aggregate; either way a shard still accepts work afterwards only if its own call failed |
| HashExecutors.AskAllShards | concurrent/src/main/kotlin/nightcrawler/concurrent/HashExecutorService.kt:53-64 | `isShutdown`/`isTerminated`/`awaitTermination` answer true iff every shard answers true; a failing shard gives the aggregate |
| HashExecutors.FirstRejected | concurrent/src/main/kotlin/nightcrawler/concurrent/HashExecutorService.kt:83-86 | every task before it dispatches and the task at it, if any, does not |
| HashExecutors.NewFutures | concurrent/src/main/kotlin/nightcrawler/concurrent/HashExecutorService.kt:80 | one fresh pending future per task, in task order |
| HashExecutors.NoneDone | concurrent/src/main/kotlin/nightcrawler/concurrent/extensions.kt:15 | when no future is done, blockWait waits on every one |
| HashExecutors.DispatchAll | concurrent/src/main/kotlin/nightcrawler/concurrent/HashExecutorService.kt:83-86 | dispatches tasks in order to their shards until the first failure, which is passed on |
| HashExecutors.WaitForAll | concurrent/src/main/kotlin/nightcrawler/concurrent/HashExecutorService.kt:87-92 | blockWait; without interruption every future holds what its wait returned; on an interruption every future is cancelled or settled, and the interruption is passed on |
| HashExecutors.InvokeAll | concurrent/src/main/kotlin/nightcrawler/concurrent/HashExecutorService.kt:78-94 | one future per task in order. A dispatch failure cancels every future and is passed on. Otherwise it succeeds iff no wait is interrupted, and then each future holds its settled state |
| HashExecutors.DispatchBeforeDeadline | concurrent/src/main/kotlin/nightcrawler/concurrent/HashExecutorService.kt:106-113 | dispatches until the deadline or the first failure, whichever comes first, and reports which one stopped it |
| HashExecutors.WaitUntilDeadline | concurrent/src/main/kotlin/nightcrawler/concurrent/HashExecutorService.kt:115-126 | futures before the first unsettled wait hold their settled state. A time-out at `j` cancels from `j` on and ends normally. An interruption cancels all and is passed on |
| HashExecutors.InvokeAllTimed | concurrent/src/main/kotlin/nightcrawler/concurrent/HashExecutorService.kt:96-133 | a deadline passing during dispatch cancels all and returns normally; a dispatch failure cancels all and is passed on; after full dispatch, as WaitUntilDeadline |
| HashExecutors.FailureCause | concurrent/src/main/kotlin/nightcrawler/concurrent/HashExecutorService.kt:216-222 | the ExecutionException for a drawn future carries the task's own failure when the future failed, and a cancellation when it was cancelled |
| HashExecutors.DoInvokeAny | concurrent/src/main/kotlin/nightcrawler/concurrent/HashExecutorService.kt:136-232 | its result, number of tasks submitted and number of completions drawn are exactly those of InvokeAny, the round-by-round definition. No tasks: IllegalArgument. Submitted tasks are a dispatched prefix. A success is the value of the last completion drawn, and every earlier one failed. A failure follows no successful completion, and is a dispatch error, a time-out (timed only, once every task is submitted and one is still outstanding), or, after every task completed unsuccessfully, the last ExecutionException. Every submitted future is cancelled on exit |
| HashExecutors.AnyRounds | concurrent/src/main/kotlin/nightcrawler/concurrent/HashExecutorService.kt:197-228 | the rounds of doInvokeAny as a definition: a round submits the next task, stops or waits only when its poll found nothing, and a timed wait that returns nothing times out; the submitted and drawn counts never go back and never pass the number of tasks |
| HashExecutors.AnyRoundSubmits | concurrent/src/main/kotlin/nightcrawler/concurrent/HashExecutorService.kt:198-203 | a round whose poll finds nothing and whose next task dispatches leaves the outcome to the following round with one more task submitted |
| HashExecutors.AnyRoundDrawsFailure | concurrent/src/main/kotlin/nightcrawler/concurrent/HashExecutorService.kt:198-222 | a round that draws a completion which did not succeed leaves the outcome to the following round with one more completion drawn |
| HashExecutors.AnySubmitsDispatched | concurrent/src/main/kotlin/nightcrawler/concurrent/HashExecutorService.kt:200-203 | every task the rounds submit was dispatched |
| HashExecutors.AnyDrawsFailuresFirst | concurrent/src/main/kotlin/nightcrawler/concurrent/HashExecutorService.kt:214-222 | every completion drawn before the last one failed or was cancelled |
| HashExecutors.AnySuccessIsLastDrawn | concurrent/src/main/kotlin/nightcrawler/concurrent/HashExecutorService.kt:216-217 | a successful result is the value of the last completion drawn |
| HashExecutors.AnyFailureDrewNoSuccess | concurrent/src/main/kotlin/nightcrawler/concurrent/HashExecutorService.kt:214-228 | a failed call drew no successful completion |
| HashExecutors.AnyFailureCases | concurrent/src/main/kotlin/nightcrawler/concurrent/HashExecutorService.kt:200-228 | a failure is the next task's dispatch error, a time-out of a timed wait once every task is submitted and one is outstanding, or, once every task completed, the last completion's ExecutionException |
| HashExecutors.FirstPollSucceeds | concurrent/src/main/kotlin/nightcrawler/concurrent/HashExecutorService.kt:194-217 | when the first task dispatches and the first poll finds it completed successfully, its value is the result, with only that task submitted and one completion drawn |
| HashExecutors.NothingReturnsTimesOut | concurrent/src/main/kotlin/nightcrawler/concurrent/HashExecutorService.kt:194-208 | a timed call whose polls and bounded waits never return anything, with every task dispatching, submits every task, draws nothing and times out |
| HashExecutors.NothingReturnsFrom | concurrent/src/main/kotlin/nightcrawler/concurrent/HashExecutorService.kt:198-208 | from any number of submitted tasks, rounds in which nothing returns submit the rest and then time out |
| HashExecutors.AnyRound | concurrent/src/main/kotlin/nightcrawler/concurrent/HashExecutorService.kt:198-223 | one iteration of the main loop: it ends the call with the outcome of the rounds, or leaves that outcome to the following round with fewer tasks left to submit or draw |
| HashExecutors.AnyLoop | concurrent/src/main/kotlin/nightcrawler/concurrent/HashExecutorService.kt:197-228 | the main loop ends with the outcome of the rounds from the first submission, with the submitted prefix dispatched, the drawn completions in order and every submitted future cancelled |

## Findings

| source | as written | input that shows it | evidently intended | confidence | as-written member | corrected member |
|---|---|---|---|---|---|---|
| concurrent/src/main/kotlin/nightcrawler/concurrent/HashExecutorService.kt:29 | the factory's mapper is `hashCode() % poolSize`, and Kotlin's `%` keeps the dividend's sign, so a negative hash code gives a negative shard index and `pool[index]` throws ArrayIndexOutOfBoundsException | a task with hash code -7 on an executor of three shards: index -1 | every task is routed to some shard: a non-negative remainder (`Math.floorMod`) | high for the arithmetic, not executed | HashExecutors.NegativeHashExample | HashExecutors.FloorModRoutesEverywhere |

The factory `Of` keeps the mapper as written. `NegativeHashRouting` states its behaviour for every negative hash code.

`OfFloorMod` builds the same executor with the corrected mapper. `Dispatch`, `invokeAll` and the lifecycle calls are stated for an arbitrary bucket mapper, so they cover either factory. `DoInvokeAny` applies the mapper to the task itself; this matches the source only for mappers that read nothing but the task's hash code (see "## Left out").

## Left out

- Locking: `ConcurrentBucketQueue` wraps every call in a lock. It is modelled as plain delegation, because the model is sequential. `ConcurrentBucketQueue.kt` is not part of this model otherwise.
- Custom collection initializers: a bucket is always a list in insertion order, the default. `pop` returns a new list. `add`/`addAll` return a snapshot of the bucket's contents, not the live collection, so later mutation through that reference is not modelled.
- Generic keys: bucket keys are integers, ordered by `<`, not an arbitrary comparable type. Instants are epoch milliseconds.
- BucketQueues.BucketQueue.Size: the count is an unbounded integer. The 32-bit wrap-around of `sizeInternal` past 2^31 elements is not modelled.
- TimeBuckets.BucketStart: the 64-bit overflow of `millis / res * res` and of `Instant` arithmetic is not modelled, because the operands are unbounded integers.
- Thread pools and threads: each shard is reduced to whether it still accepts work. Running tasks, `numThreadsPerPool` and `singleThreaded` (which only fixes the thread count) are not modelled.
- HashExecutors.Of: `of(poolSize, numThreadsPerPool)` with a positive pool size and `numThreadsPerPool < 1` throws IllegalArgumentException from `newFixedThreadPool`. `Of` has no thread-count parameter and always returns an executor.
- Time: `System.nanoTime`, the `timeout`/`unit` arguments and the deadline arithmetic are replaced by inputs saying whether the deadline has passed at each step.
- Blocking: `get`, `get(timeout)`, `poll`, `poll(timeout)` and `take` do not block. Each becomes an input sequence or function giving its outcome. A future's state changes only when one of these observes it.
- HashExecutorCompletionService: `HashExecutorCompletionService.kt` is not part of this model beyond the poll, timed-poll and completion inputs of `DoInvokeAny`.
- HashExecutors.DoInvokeAny: an interruption of `take()` or of the timed `poll` is not modelled. The mapper is applied to the task itself, whereas the source passes the completion service's wrapping future. That wrapper takes its hash code from the task, so the routing is the same for mappers that only read `hashCode()`, such as the factory's. A mapper that inspects the task in any other way (casts it, reads its fields) may route differently or throw on the wrapper, and the model does not capture that case. The fallback `ExecutionException(null)` when no completion was drawn is not modelled: it cannot be reached, because the loop only stops once every submitted task has been drawn.
- HashExecutors.InvokeAll: a throwable other than a rejection or a routing error, thrown by a shard's `execute`, is not modelled.
- HashExecutors.InvokeAllTimed: every future is pending when the waiting starts, so the `isDone` check before each wait always passes. A future completing on its own before its wait is not modelled.
- Futures.CancelAll: a `startFrom` outside `0..size` makes `subList` throw. The model requires it to be in range, as every caller in the library ensures.
- Submit variants: `submit(Runnable)` and `submit(Runnable, result)` route exactly as `Dispatch`. The futures they return are not modelled.
- Task identity: the default hash code is an input function `hashCode: Task -> int`. The model follows the code's Kotlin `%`. A negative index names no shard (`pool[index]` at HashExecutorService.kt:42 throws), which is the finding above.
