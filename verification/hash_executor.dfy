/**
 * The hash-sharded executor: a fixed array of shard executors and a bucket
 * mapper that sends every task to the shard its mapped index names. Only the
 * sequential bookkeeping is modelled: routing, the all-shards fan-out of the
 * lifecycle calls, and the dispatch, waiting and cancelling of `invokeAll`
 * and `invokeAny`. A shard is reduced to whether it still accepts work; what
 * a shard answers to a lifecycle call, whether a deadline has passed, and
 * what a wait or a poll returns are inputs.
 */
module HashExecutors {
  import opened Results
  import opened JvmArith
  import opened Futures

  /** One shard executor: it runs what it is given until it is shut down. */
  datatype Shard = Shard(accepting: bool)

  /** The shard array and the bucket mapper; the mapper may throw, which it reports as a failure. */
  datatype HashExecutor<!Task> = HashExecutor(pool: seq<Shard>, bucketMapper: Task -> Result<int, Throwable>)

  /** The mapper of the factory: the task's hash code modulo the pool size, with the JVM's `%`. */
  function HashMapper<Task>(poolSize: int, hashCode: Task -> int): Task -> Result<int, Throwable> {
    t => if poolSize == 0 then Failure(Arithmetic) else Success(Rem(hashCode(t), poolSize))
  }

  /** of(poolSize, numThreadsPerPool): `poolSize` fresh shards (none for a negative size) and the hash mapper. */
  function Of<Task>(poolSize: int, hashCode: Task -> int): (ex: HashExecutor<Task>)
    ensures |ex.pool| == if poolSize < 0 then 0 else poolSize
    ensures forall i :: 0 <= i < |ex.pool| ==> ex.pool[i].accepting
    ensures ex.bucketMapper == HashMapper(poolSize, hashCode)
  {
    HashExecutor(seq(if poolSize < 0 then 0 else poolSize, _ => Shard(true)), HashMapper(poolSize, hashCode))
  }

  /**
   * The shard a task is routed to: `pool[task.index]`. A throwing mapper
   * fails the routing with its own throwable, and an index outside the
   * array fails it with an index-out-of-bounds error.
   */
  function ShardIndex<Task>(ex: HashExecutor<Task>, t: Task): (r: Result<nat, Throwable>)
    ensures r.Success? <==> ex.bucketMapper(t).Success? && 0 <= ex.bucketMapper(t).value < |ex.pool|
    ensures r.Success? ==> r.value < |ex.pool| && ex.bucketMapper(t) == Success(r.value as int)
    ensures ex.bucketMapper(t).Failure? ==> r == Failure(ex.bucketMapper(t).error)
    ensures ex.bucketMapper(t).Success? && r.Failure? ==> r == Failure(IndexOutOfBounds(ex.bucketMapper(t).value))
  {
    match ex.bucketMapper(t)
    case Failure(e) => Failure(e)
    case Success(i) => if 0 <= i < |ex.pool| then Success(i) else Failure(IndexOutOfBounds(i))
  }

  /**
   * execute/submit: hand the task to its shard. The routing errors pass
   * through; a shard that no longer accepts work rejects it.
   */
  function Dispatch<Task>(ex: HashExecutor<Task>, t: Task): (r: Result<nat, Throwable>)
    ensures r.Success? <==> ShardIndex(ex, t).Success? && ex.pool[ShardIndex(ex, t).value].accepting
    ensures r.Success? ==> r == ShardIndex(ex, t)
    ensures ShardIndex(ex, t).Failure? ==> r == ShardIndex(ex, t)
    ensures ShardIndex(ex, t).Success? && !ex.pool[ShardIndex(ex, t).value].accepting ==>
      r == Failure(Rejected(ShardIndex(ex, t).value))
  {
    match ShardIndex(ex, t)
    case Failure(e) => Failure(e)
    case Success(i) => if ex.pool[i].accepting then Success(i) else Failure(Rejected(i))
  }

  /** With the factory mapper, a task whose hash code is not negative goes to shard `hash % poolSize`. */
  lemma RouteByHash<Task>(poolSize: int, hashCode: Task -> int, t: Task)
    requires poolSize > 0 && hashCode(t) >= 0
    ensures ShardIndex(Of(poolSize, hashCode), t) == Success(hashCode(t) % poolSize)
    ensures 0 <= hashCode(t) % poolSize < poolSize
  {
    NonNegativeAgrees(hashCode(t), poolSize);
  }

  /** Two tasks with non-negative hash codes share a shard exactly when their hash codes are congruent. */
  lemma SameShard<Task>(poolSize: int, hashCode: Task -> int, t1: Task, t2: Task)
    requires poolSize > 0 && hashCode(t1) >= 0 && hashCode(t2) >= 0
    ensures ShardIndex(Of(poolSize, hashCode), t1) == ShardIndex(Of(poolSize, hashCode), t2)
        <==> hashCode(t1) % poolSize == hashCode(t2) % poolSize
  {
    RouteByHash(poolSize, hashCode, t1);
    RouteByHash(poolSize, hashCode, t2);
  }

  /**
   * A negative hash code leaves a remainder in (-poolSize, 0]: the task
   * reaches shard 0 when the remainder is zero and otherwise fails with an
   * index-out-of-bounds error for that negative index.
   */
  lemma NegativeHashRouting<Task>(poolSize: int, hashCode: Task -> int, t: Task)
    requires poolSize > 0 && hashCode(t) < 0
    ensures var i := Rem(hashCode(t), poolSize);
      && -poolSize < i <= 0
      && (i == 0 ==> ShardIndex(Of(poolSize, hashCode), t) == Success(0))
      && (i != 0 ==> ShardIndex(Of(poolSize, hashCode), t) == Failure(IndexOutOfBounds(i)))
  {
    QuotRem(hashCode(t), poolSize);
  }

  /** A concrete case: hash code -7 over three shards gives index -1, outside the array. */
  lemma NegativeHashExample<Task>(hashCode: Task -> int, t: Task)
    requires hashCode(t) == -7
    ensures ShardIndex(Of(3, hashCode), t) == Failure(IndexOutOfBounds(-1))
  {
  }

  /** With no shards every routing fails: by division by zero when the size is zero. */
  lemma NoShards<Task>(poolSize: int, hashCode: Task -> int, t: Task)
    requires poolSize <= 0
    ensures ShardIndex(Of(poolSize, hashCode), t).Failure?
    ensures poolSize == 0 ==> ShardIndex(Of(poolSize, hashCode), t) == Failure(Arithmetic)
  {
  }

  /**
   * The routing the factory evidently intends: the hash code reduced to a
   * shard index with a non-negative remainder (`Math.floorMod`, which for a
   * positive pool size is Euclidean `%`).
   */
  function FloorModMapper<Task>(poolSize: int, hashCode: Task -> int): Task -> Result<int, Throwable> {
    t => if poolSize == 0 then Failure(Arithmetic) else Success(hashCode(t) % poolSize)
  }

  /** `of` with the corrected mapper: the same fresh shards. */
  function OfFloorMod<Task>(poolSize: int, hashCode: Task -> int): (ex: HashExecutor<Task>)
    ensures ex.pool == Of(poolSize, hashCode).pool
    ensures ex.bucketMapper == FloorModMapper(poolSize, hashCode)
  {
    HashExecutor(Of(poolSize, hashCode).pool, FloorModMapper(poolSize, hashCode))
  }

  /**
   * With the corrected mapper every task reaches a shard whatever the sign of
   * its hash code; the index differs from the hash code by a multiple of the
   * pool size, and for a non-negative hash code it is the shard the factory
   * as written picks.
   */
  lemma FloorModRoutesEverywhere<Task>(poolSize: int, hashCode: Task -> int, t: Task)
    requires poolSize > 0
    ensures ShardIndex(OfFloorMod(poolSize, hashCode), t).Success?
    ensures exists k :: hashCode(t) == k * poolSize + ShardIndex(OfFloorMod(poolSize, hashCode), t).value
    ensures hashCode(t) >= 0 ==> ShardIndex(OfFloorMod(poolSize, hashCode), t) == ShardIndex(Of(poolSize, hashCode), t)
  {
    var h := hashCode(t);
    assert h == (h / poolSize) * poolSize + h % poolSize;
  }

  // ---------------------------------------------------------------------
  // doSafe and the lifecycle calls
  // ---------------------------------------------------------------------

  /** The failures among per-shard outcomes, in shard order. */
  function Failures<R>(outcomes: seq<Result<R, Throwable>>): (errs: seq<Throwable>)
    ensures |errs| <= |outcomes|
  {
    if outcomes == [] then []
    else
      var errs := Failures(outcomes[..|outcomes| - 1]);
      var last := outcomes[|outcomes| - 1];
      if last.Success? then errs else errs + [last.error]
  }

  /** The failures collected are exactly the throwables of the failing shards. */
  lemma {:induction false} FailureMembers<R>(outcomes: seq<Result<R, Throwable>>, e: Throwable)
    ensures e in Failures(outcomes) <==> exists i :: 0 <= i < |outcomes| && outcomes[i] == Failure(e)
  {
    if outcomes != [] {
      var init := outcomes[..|outcomes| - 1];
      FailureMembers(init, e);
      if e in Failures(init) {
        var i :| 0 <= i < |init| && init[i] == Failure(e);
        assert outcomes[i] == Failure(e);
      }
      if exists i :: 0 <= i < |outcomes| && outcomes[i] == Failure(e) {
        var i :| 0 <= i < |outcomes| && outcomes[i] == Failure(e);
        if i < |init| {
          assert init[i] == Failure(e);
        }
      }
    }
  }

  /** The results among per-shard outcomes, in shard order. */
  function Successes<R>(outcomes: seq<Result<R, Throwable>>): (rs: seq<R>)
    ensures |rs| + |Failures(outcomes)| == |outcomes|
  {
    if outcomes == [] then []
    else
      var rs := Successes(outcomes[..|outcomes| - 1]);
      var last := outcomes[|outcomes| - 1];
      if last.Success? then rs + [last.value] else rs
  }

  /**
   * There are no failures exactly when every shard succeeded, and then the
   * results are every shard's result, in shard order.
   */
  lemma {:induction false} NoFailures<R>(outcomes: seq<Result<R, Throwable>>)
    ensures Failures(outcomes) == [] <==> forall i :: 0 <= i < |outcomes| ==> outcomes[i].Success?
    ensures Failures(outcomes) == [] ==>
      |Successes(outcomes)| == |outcomes| && forall i :: 0 <= i < |outcomes| ==> Successes(outcomes)[i] == outcomes[i].value
  {
    if outcomes != [] {
      var init := outcomes[..|outcomes| - 1];
      NoFailures(init);
      assert forall i :: 0 <= i < |init| ==> init[i] == outcomes[i];
    }
  }

  /** The aggregate doSafe raises: the interrupted variant exactly when some failure is an interruption. */
  function Aggregate(errs: seq<Throwable>): (e: Throwable)
    ensures e.ShardsInterrupted? <==> Interrupted in errs
    ensures e == ShardsFailed(errs) || e == ShardsInterrupted(errs)
  {
    if Interrupted in errs then ShardsInterrupted(errs) else ShardsFailed(errs)
  }

  /**
   * doSafe(block): applies the block to every shard in array order
   * (`outcomes[i]` is what it gives on shard `i`), never stopping at a
   * failure. Without failures the result is the list of per-shard results;
   * otherwise the aggregate of all failures, in shard order.
   */
  method DoSafe<Task, R>(ex: HashExecutor<Task>, outcomes: seq<Result<R, Throwable>>)
    returns (r: Result<seq<R>, Throwable>, attempted: seq<nat>)
    requires |outcomes| == |ex.pool|
    ensures attempted == Range(0, |ex.pool|)
    ensures Failures(outcomes) == [] ==> r == Success(Successes(outcomes))
    ensures Failures(outcomes) != [] ==> r == Failure(Aggregate(Failures(outcomes)))
  {
    var errors: seq<Throwable> := [];
    var hasInterrupted := false;
    var results: seq<R> := [];
    attempted := [];
    var i := 0;
    while i < |ex.pool|
      invariant 0 <= i <= |ex.pool|
      invariant attempted == Range(0, i)
      invariant errors == Failures(outcomes[..i])
      invariant results == Successes(outcomes[..i])
      invariant hasInterrupted <==> Interrupted in errors
    {
      OutcomeStep(outcomes, i);
      attempted := attempted + [i];
      var outcome := outcomes[i];
      if outcome.Success? {
        results := results + [outcome.value];
      } else {
        if outcome.error == Interrupted {
          hasInterrupted := true;
        }
        errors := errors + [outcome.error];
      }
      i := i + 1;
    }
    assert outcomes[..i] == outcomes;
    if errors != [] {
      if hasInterrupted {
        return Failure(ShardsInterrupted(errors)), attempted;
      }
      return Failure(ShardsFailed(errors)), attempted;
    }
    r := Success(results);
  }

  /** Taking in one more shard's outcome extends either the failures or the results by it. */
  lemma OutcomeStep<R>(outcomes: seq<Result<R, Throwable>>, i: nat)
    requires i < |outcomes|
    ensures outcomes[i].Success? ==>
      && Failures(outcomes[..i + 1]) == Failures(outcomes[..i])
      && Successes(outcomes[..i + 1]) == Successes(outcomes[..i]) + [outcomes[i].value]
    ensures outcomes[i].Failure? ==>
      && Failures(outcomes[..i + 1]) == Failures(outcomes[..i]) + [outcomes[i].error]
      && Successes(outcomes[..i + 1]) == Successes(outcomes[..i])
  {
    assert outcomes[..i + 1][..i] == outcomes[..i];
  }

  /** The concatenation of a list of lists, in order. */
  function Flatten<X>(xss: seq<seq<X>>): (r: seq<X>)
  {
    if xss == [] then [] else Flatten(xss[..|xss| - 1]) + xss[|xss| - 1]
  }

  /** An element is in the flattening exactly when it is in one of the lists. */
  lemma {:induction false} FlattenMembers<X>(xss: seq<seq<X>>, x: X)
    ensures x in Flatten(xss) <==> exists i :: 0 <= i < |xss| && x in xss[i]
  {
    if xss != [] {
      var init := xss[..|xss| - 1];
      FlattenMembers(init, x);
      assert forall i :: 0 <= i < |init| ==> init[i] == xss[i];
      if x in Flatten(init) {
        var i :| 0 <= i < |init| && x in init[i];
        assert x in xss[i];
      }
    }
  }

  /** `all { it }`: every answer is true. */
  predicate All(bs: seq<bool>)
  {
    forall i :: 0 <= i < |bs| ==> bs[i]
  }

  /** The executor after every shard was asked to stop: a shard whose call went through no longer accepts work. */
  function StopShards<Task, R>(ex: HashExecutor<Task>, outcomes: seq<Result<R, Throwable>>): (after: HashExecutor<Task>)
    requires |outcomes| == |ex.pool|
    ensures after.bucketMapper == ex.bucketMapper && |after.pool| == |ex.pool|
    ensures forall i :: 0 <= i < |ex.pool| ==>
      after.pool[i].accepting == (ex.pool[i].accepting && outcomes[i].Failure?)
  {
    ex.(pool := seq(|ex.pool|, i requires 0 <= i < |ex.pool| =>
      Shard(ex.pool[i].accepting && outcomes[i].Failure?)))
  }

  /**
   * shutdown: doSafe over every shard (`outcomes[i]` is what the shard's
   * shutdown gives); a shard whose shutdown goes through stops accepting work.
   */
  method Shutdown<Task>(ex: HashExecutor<Task>, outcomes: seq<Result<(), Throwable>>)
    returns (after: HashExecutor<Task>, r: Result<(), Throwable>)
    requires |outcomes| == |ex.pool|
    ensures r.Success? <==> Failures(outcomes) == []
    ensures r.Failure? ==> r.error == Aggregate(Failures(outcomes))
    ensures after.bucketMapper == ex.bucketMapper && |after.pool| == |ex.pool|
    ensures forall i :: 0 <= i < |ex.pool| ==>
      after.pool[i].accepting == (ex.pool[i].accepting && outcomes[i].Failure?)
  {
    var res, _ := DoSafe(ex, outcomes);
    after := StopShards(ex, outcomes);
    r := if res.Success? then Success(()) else Failure(res.error);
  }

  /**
   * shutdownNow: doSafe over every shard, each giving the tasks it never
   * started; the result is their concatenation in shard order. As with
   * shutdown, a shard whose call goes through stops accepting work.
   */
  method ShutdownNow<Task>(ex: HashExecutor<Task>, outcomes: seq<Result<seq<Task>, Throwable>>)
    returns (after: HashExecutor<Task>, r: Result<seq<Task>, Throwable>)
    requires |outcomes| == |ex.pool|
    ensures after.bucketMapper == ex.bucketMapper && |after.pool| == |ex.pool|
    ensures forall i :: 0 <= i < |ex.pool| ==>
      after.pool[i].accepting == (ex.pool[i].accepting && outcomes[i].Failure?)
    ensures Failures(outcomes) == [] ==> r == Success(Flatten(Successes(outcomes)))
    ensures Failures(outcomes) != [] ==> r == Failure(Aggregate(Failures(outcomes)))
    ensures Failures(outcomes) == [] ==> forall t :: t in r.value <==>
      exists i :: 0 <= i < |outcomes| && outcomes[i].Success? && t in outcomes[i].value
  {
    var res, _ := DoSafe(ex, outcomes);
    after := StopShards(ex, outcomes);
    if res.Failure? {
      return after, Failure(res.error);
    }
    r := Success(Flatten(res.value));
    NoFailures(outcomes);
    if Failures(outcomes) == [] {
      forall t
        ensures t in r.value <==> exists i :: 0 <= i < |outcomes| && outcomes[i].Success? && t in outcomes[i].value
      {
        FlattenMembers(res.value, t);
        assert forall i :: 0 <= i < |outcomes| ==> res.value[i] == outcomes[i].value;
      }
    }
  }

  /**
   * isShutdown, isTerminated and awaitTermination: doSafe over every shard,
   * each answering the same question; the answer is true exactly when every
   * shard answers true.
   */
  method AskAllShards<Task>(ex: HashExecutor<Task>, answers: seq<Result<bool, Throwable>>)
    returns (r: Result<bool, Throwable>)
    requires |answers| == |ex.pool|
    ensures r.Success? <==> Failures(answers) == []
    ensures r.Failure? ==> r.error == Aggregate(Failures(answers))
    ensures r.Success? ==> (r.value <==> forall i :: 0 <= i < |answers| ==> answers[i] == Success(true))
  {
    var res, _ := DoSafe(ex, answers);
    if res.Failure? {
      return Failure(res.error);
    }
    NoFailures(answers);
    r := Success(All(res.value));
  }

  // ---------------------------------------------------------------------
  // invokeAll
  // ---------------------------------------------------------------------

  /** The index of the first task whose dispatch fails, or the number of tasks when none does. */
  function FirstRejected<Task>(ex: HashExecutor<Task>, tasks: seq<Task>): (k: nat)
    ensures k <= |tasks|
    ensures forall i :: 0 <= i < k ==> Dispatch(ex, tasks[i]).Success?
    ensures k < |tasks| ==> Dispatch(ex, tasks[k]).Failure?
  {
    if tasks == [] || Dispatch(ex, tasks[0]).Failure? then 0 else 1 + FirstRejected(ex, tasks[1..])
  }

  /** `tasks.map { FutureTask(it) }`: one pending future per task, in task order. */
  method NewFutures<Task, T>(tasks: seq<Task>) returns (futures: array<Future<Task, T>>)
    ensures fresh(futures) && futures.Length == |tasks|
    ensures forall i :: 0 <= i < |tasks| ==> futures[i] == Future(tasks[i], Pending)
  {
    futures := new Future<Task, T>[|tasks|](i requires 0 <= i < |tasks| => Future(tasks[i], Pending));
  }

  /** When no future is done yet, every index is one blockWait waits on. */
  lemma {:induction false} NoneDone<Task, T>(fs: seq<Future<Task, T>>)
    requires forall i :: 0 <= i < |fs| ==> fs[i].state == Pending
    ensures NotDone(fs) == Range(0, |fs|)
  {
    if fs != [] {
      NoneDone(fs[..|fs| - 1]);
    }
  }

  /**
   * The dispatch loop of invokeAll: each task in order goes to
   * `pool[bucketMapper(task)]` (the returned shard indices); the first
   * failure stops the loop and is passed on.
   */
  method DispatchAll<Task>(ex: HashExecutor<Task>, tasks: seq<Task>)
    returns (dispatched: seq<nat>, r: Result<(), Throwable>)
    ensures |dispatched| == FirstRejected(ex, tasks)
    ensures forall k :: 0 <= k < |dispatched| ==> dispatched[k] == Dispatch(ex, tasks[k]).value
    ensures r.Success? <==> |dispatched| == |tasks|
    ensures r.Failure? ==> r.error == Dispatch(ex, tasks[|dispatched|]).error
  {
    dispatched := [];
    var i := 0;
    while i < |tasks|
      invariant 0 <= i <= |tasks| && |dispatched| == i
      invariant forall k :: 0 <= k < i ==> Dispatch(ex, tasks[k]).Success? && dispatched[k] == Dispatch(ex, tasks[k]).value
    {
      var shard := Dispatch(ex, tasks[i]);
      if shard.Failure? {
        FirstRejectedAt(ex, tasks, i);
        return dispatched, Failure(shard.error);
      }
      dispatched := dispatched + [shard.value];
      i := i + 1;
    }
    FirstRejectedAt(ex, tasks, i);
    r := Success(());
  }

  /** The first rejected index is the first index that is rejected (or the end). */
  lemma {:induction false} FirstRejectedAt<Task>(ex: HashExecutor<Task>, tasks: seq<Task>, i: nat)
    requires i <= |tasks|
    requires forall k :: 0 <= k < i ==> Dispatch(ex, tasks[k]).Success?
    requires i < |tasks| ==> Dispatch(ex, tasks[i]).Failure?
    ensures FirstRejected(ex, tasks) == i
  {
    if i > 0 {
      FirstRejectedAt(ex, tasks[1..], i - 1);
    }
  }

  /**
   * The waiting half of invokeAll once every task is dispatched: blockWait,
   * and on an interruption cancel every future and pass it on.
   */
  method WaitForAll<Task, T>(futures: array<Future<Task, T>>, gets: seq<GetOutcome<T>>)
    returns (r: Result<(), Throwable>)
    requires |gets| == futures.Length && SettledGets(gets)
    requires forall i :: 0 <= i < futures.Length ==> futures[i].state == Pending
    modifies futures
    ensures forall i :: 0 <= i < futures.Length ==> futures[i].task == old(futures[i].task)
    ensures r.Success? <==> !Interrupts(gets, Range(0, futures.Length))
    ensures r.Success? ==> forall i :: 0 <= i < futures.Length ==> gets[i] == Returned(futures[i].state)
    ensures r.Failure? ==>
      && r.error == Interrupted
      && forall i :: 0 <= i < futures.Length ==> futures[i].state == Cancelled || gets[i] == Returned(futures[i].state)
  {
    NoneDone(futures[..]);
    var waited;
    r, waited := BlockWait(futures, gets);
    if r.Success? {
      forall i | 0 <= i < futures.Length
        ensures gets[i] == Returned(futures[i].state)
      {
        assert Range(0, futures.Length)[i] == i;
      }
    } else {
      var _ := CancelAll(futures, 0);
    }
  }

  /**
   * invokeAll(tasks): one future per task, in task order, each dispatched
   * to its shard; then blockWait. A dispatch failure or an interrupted wait
   * cancels every future and is passed on.
   */
  method InvokeAll<Task, T>(ex: HashExecutor<Task>, tasks: seq<Task>, gets: seq<GetOutcome<T>>)
    returns (futures: array<Future<Task, T>>, dispatched: seq<nat>, r: Result<(), Throwable>)
    requires |gets| == |tasks| && SettledGets(gets)
    ensures fresh(futures) && futures.Length == |tasks|
    ensures forall i :: 0 <= i < |tasks| ==> futures[i].task == tasks[i]
    ensures |dispatched| == FirstRejected(ex, tasks)
    ensures forall k :: 0 <= k < |dispatched| ==> dispatched[k] == Dispatch(ex, tasks[k]).value
    ensures |dispatched| < |tasks| ==>
      && r == Failure(Dispatch(ex, tasks[|dispatched|]).error)
      && forall i :: 0 <= i < |tasks| ==> futures[i].state == Cancelled
    ensures |dispatched| == |tasks| ==> (r.Success? <==> !Interrupts(gets, Range(0, |tasks|)))
    ensures r.Success? ==> forall i :: 0 <= i < |tasks| ==> gets[i] == Returned(futures[i].state)
    ensures |dispatched| == |tasks| && r.Failure? ==>
      && r.error == Interrupted
      && forall i :: 0 <= i < |tasks| ==> futures[i].state == Cancelled || gets[i] == Returned(futures[i].state)
  {
    futures := NewFutures(tasks);
    dispatched, r := DispatchAll(ex, tasks);
    if r.Failure? {
      var _ := CancelAll(futures, 0);
      return;
    }
    r := WaitForAll(futures, gets);
  }

  // ---------------------------------------------------------------------
  // invokeAll with a timeout
  // ---------------------------------------------------------------------

  /** The index of the first true entry, or the length when there is none. */
  function FirstTrue(bs: seq<bool>): (k: nat)
    ensures k <= |bs|
    ensures forall i :: 0 <= i < k ==> !bs[i]
    ensures k < |bs| ==> bs[k]
  {
    if bs == [] || bs[0] then 0 else 1 + FirstTrue(bs[1..])
  }

  lemma {:induction false} FirstTrueAt(bs: seq<bool>, i: nat)
    requires i <= |bs|
    requires forall k :: 0 <= k < i ==> !bs[k]
    requires i < |bs| ==> bs[i]
    ensures FirstTrue(bs) == i
  {
    if i > 0 {
      FirstTrueAt(bs[1..], i - 1);
    }
  }

  /** What a timed `get` ends with: the state the future settled in, a time-out, or an interruption. */
  datatype TimedWait<+T> = Settled(state: FutureState<T>) | WaitTimedOut | WaitInterrupted

  /** The environment's side of a timed `get`: a future it returns is settled. */
  predicate SettledWaits<T>(waits: seq<TimedWait<T>>) {
    forall i :: 0 <= i < |waits| && waits[i].Settled? ==> waits[i].state.IsDone()
  }

  /** The index of the first wait that does not settle, or the length when all do. */
  function FirstUnsettled<T>(waits: seq<TimedWait<T>>): (k: nat)
    ensures k <= |waits|
    ensures forall i :: 0 <= i < k ==> waits[i].Settled?
    ensures k < |waits| ==> !waits[k].Settled?
  {
    if waits == [] || !waits[0].Settled? then 0 else 1 + FirstUnsettled(waits[1..])
  }

  lemma {:induction false} FirstUnsettledAt<T>(waits: seq<TimedWait<T>>, i: nat)
    requires i <= |waits|
    requires forall k :: 0 <= k < i ==> waits[k].Settled?
    requires i < |waits| ==> !waits[i].Settled?
    ensures FirstUnsettled(waits) == i
  {
    if i > 0 {
      FirstUnsettledAt(waits[1..], i - 1);
    }
  }

  /**
   * The dispatch loop of timed invokeAll: before each task the deadline is
   * checked (`expired[i]`: it has passed when task `i` comes up). The result
   * is Success(true) when every task went out, Success(false) when the
   * deadline stopped the loop, and the dispatch failure otherwise.
   */
  method DispatchBeforeDeadline<Task>(ex: HashExecutor<Task>, tasks: seq<Task>, expired: seq<bool>)
    returns (dispatched: seq<nat>, r: Result<bool, Throwable>)
    requires |expired| == |tasks|
    ensures var e, d := FirstTrue(expired), FirstRejected(ex, tasks);
      && |dispatched| == (if e <= d then e else d)
      && (e <= d && e < |tasks| ==> r == Success(false))
      && (d < e ==> r == Failure(Dispatch(ex, tasks[d]).error))
      && (e == |tasks| && d == |tasks| ==> r == Success(true))
    ensures forall k :: 0 <= k < |dispatched| ==> dispatched[k] == Dispatch(ex, tasks[k]).value
  {
    dispatched := [];
    var i := 0;
    while i < |tasks|
      invariant 0 <= i <= |tasks| && |dispatched| == i
      invariant forall k :: 0 <= k < i ==> !expired[k]
      invariant forall k :: 0 <= k < i ==> Dispatch(ex, tasks[k]).Success? && dispatched[k] == Dispatch(ex, tasks[k]).value
    {
      if expired[i] {
        FirstTrueAt(expired, i);
        return dispatched, Success(false);
      }
      var shard := Dispatch(ex, tasks[i]);
      if shard.Failure? {
        FirstRejectedAt(ex, tasks, i);
        return dispatched, Failure(shard.error);
      }
      dispatched := dispatched + [shard.value];
      i := i + 1;
    }
    FirstTrueAt(expired, i);
    FirstRejectedAt(ex, tasks, i);
    r := Success(true);
  }

  /**
   * The waiting loop of timed invokeAll, over futures that are all still
   * pending: each future not yet done is waited on until the deadline
   * (`waits[j]`). A failed or cancelled future is passed over; a time-out at
   * `j` cancels the futures from `j` on and ends the call normally; an
   * interruption cancels every future and is passed on.
   */
  method WaitUntilDeadline<Task, T>(futures: array<Future<Task, T>>, waits: seq<TimedWait<T>>)
    returns (r: Result<(), Throwable>)
    requires |waits| == futures.Length && SettledWaits(waits)
    requires forall i :: 0 <= i < futures.Length ==> futures[i].state == Pending
    modifies futures
    ensures forall i :: 0 <= i < futures.Length ==> futures[i].task == old(futures[i].task)
    ensures var w := FirstUnsettled(waits);
      && (forall i :: 0 <= i < w ==> waits[i] == Settled(futures[i].state))
      && (forall i :: w <= i < futures.Length ==> futures[i].state == Cancelled)
      && (r.Failure? <==> w < futures.Length && waits[w].WaitInterrupted?)
      && (r.Failure? ==> r.error == Interrupted)
  {
    var j := 0;
    while j < futures.Length
      invariant 0 <= j <= futures.Length
      invariant forall i :: 0 <= i < futures.Length ==> futures[i].task == old(futures[i].task)
      invariant forall i :: 0 <= i < j ==> waits[i] == Settled(futures[i].state)
      invariant forall i :: j <= i < futures.Length ==> futures[i].state == Pending
    {
      if !futures[j].state.IsDone() {
        match waits[j]
        case Settled(state) =>
          futures[j] := Future(futures[j].task, state);
        case WaitTimedOut =>
          FirstUnsettledAt(waits, j);
          var _ := CancelAll(futures, j);
          return Success(());
        case WaitInterrupted =>
          FirstUnsettledAt(waits, j);
          var _ := CancelAll(futures, 0);
          return Failure(Interrupted);
      }
      j := j + 1;
    }
    FirstUnsettledAt(waits, j);
    r := Success(());
  }

  /**
   * invokeAll(tasks, timeout): like invokeAll, but the deadline is checked
   * before each dispatch and bounds each wait. A deadline that passes during
   * dispatch cancels every future and returns them; a wait that times out at
   * `j` cancels the futures from `j` on and returns them; a dispatch failure
   * or an interruption cancels every future and is passed on.
   */
  method InvokeAllTimed<Task, T>(ex: HashExecutor<Task>, tasks: seq<Task>, expired: seq<bool>, waits: seq<TimedWait<T>>)
    returns (futures: array<Future<Task, T>>, dispatched: seq<nat>, r: Result<(), Throwable>)
    requires |expired| == |tasks| && |waits| == |tasks| && SettledWaits(waits)
    ensures fresh(futures) && futures.Length == |tasks|
    ensures forall i :: 0 <= i < |tasks| ==> futures[i].task == tasks[i]
    ensures var e, d := FirstTrue(expired), FirstRejected(ex, tasks);
      && |dispatched| == (if e <= d then e else d)
      && (e <= d && e < |tasks| ==> r == Success(()) && forall i :: 0 <= i < |tasks| ==> futures[i].state == Cancelled)
      && (d < e ==> r == Failure(Dispatch(ex, tasks[d]).error) && forall i :: 0 <= i < |tasks| ==> futures[i].state == Cancelled)
    ensures forall k :: 0 <= k < |dispatched| ==> dispatched[k] == Dispatch(ex, tasks[k]).value
    ensures |dispatched| == |tasks| ==>
      var w := FirstUnsettled(waits);
      && (forall i :: 0 <= i < w ==> waits[i] == Settled(futures[i].state))
      && (forall i :: w <= i < |tasks| ==> futures[i].state == Cancelled)
      && (r.Failure? <==> w < |tasks| && waits[w].WaitInterrupted?)
      && (r.Failure? ==> r.error == Interrupted)
  {
    futures := NewFutures(tasks);
    var allOut;
    dispatched, allOut := DispatchBeforeDeadline(ex, tasks, expired);
    if allOut.Failure? {
      var _ := CancelAll(futures, 0);
      return futures, dispatched, Failure(allOut.error);
    }
    if !allOut.value {
      var _ := CancelAll(futures, 0);
      return futures, dispatched, Success(());
    }
    r := WaitUntilDeadline(futures, waits);
  }

  // ---------------------------------------------------------------------
  // invokeAny
  // ---------------------------------------------------------------------

  /** The cause an ExecutionException carries for a future that failed or was cancelled. */
  function FailureCause<T>(s: FutureState<T>): (c: Cause)
    requires s.IsDone() && !s.Done?
    ensures s.Failed? ==> c == TaskFailure(s.code)
    ensures s.Cancelled? ==> c == Cancellation
  {
    if s.Failed? then TaskFailure(s.code) else Cancellation
  }

  /** What doInvokeAny ends with: its result, the number of tasks it submitted and the number of completions it drew. */
  datatype AnyOutcome<T> = AnyOutcome(result: Result<T, Throwable>, submittedCount: nat, drawnCount: nat)

  /**
   * The rounds of doInvokeAny from round `n` on, with `s` tasks submitted and
   * `d` completions drawn, none of which succeeded. A round first polls; only
   * when the poll finds nothing does it submit the next task, stop once
   * nothing is outstanding (throwing the last failure), or wait, timing out
   * when a timed wait returns nothing. A completion drawn ends the call if it
   * succeeded and is recorded as the last failure otherwise.
   */
  function AnyRounds<Task, T>(ex: HashExecutor<Task>, tasks: seq<Task>, timed: bool,
                              polled: nat -> bool, timedPollReturns: nat -> bool,
                              completions: nat -> FutureState<T>, n: nat, s: nat, d: nat): (o: AnyOutcome<T>)
    requires forall k: nat :: completions(k).IsDone()
    requires 1 <= s <= |tasks| && d <= s && (d > 0 ==> !completions(d - 1).Done?)
    ensures s <= o.submittedCount <= |tasks| && d <= o.drawnCount <= o.submittedCount
    decreases 2 * (|tasks| - s) + (s - d)
  {
    var pollFinds := d < s && polled(n);
    if !pollFinds && s < |tasks| then
      var next := Dispatch(ex, tasks[s]);
      if next.Failure? then AnyOutcome(Failure(next.error), s, d)
      else AnyRounds(ex, tasks, timed, polled, timedPollReturns, completions, n + 1, s + 1, d)
    else if !pollFinds && s == d then
      AnyOutcome(Failure(Execution(FailureCause(completions(d - 1)))), s, d)
    else if !pollFinds && timed && !timedPollReturns(n) then
      AnyOutcome(Failure(TimedOut), s, d)
    else if completions(d).Done? then
      AnyOutcome(Success(completions(d).value), s, d + 1)
    else
      AnyRounds(ex, tasks, timed, polled, timedPollReturns, completions, n + 1, s, d + 1)
  }

  /** A round whose poll finds nothing and which submits the next task leaves the rest to the following round. */
  lemma AnyRoundSubmits<Task, T>(ex: HashExecutor<Task>, tasks: seq<Task>, timed: bool,
                                 polled: nat -> bool, timedPollReturns: nat -> bool,
                                 completions: nat -> FutureState<T>, n: nat, s: nat, d: nat)
    requires forall k: nat :: completions(k).IsDone()
    requires 1 <= s < |tasks| && d <= s && (d > 0 ==> !completions(d - 1).Done?)
    requires !(d < s && polled(n)) && Dispatch(ex, tasks[s]).Success?
    ensures AnyRounds(ex, tasks, timed, polled, timedPollReturns, completions, n, s, d)
         == AnyRounds(ex, tasks, timed, polled, timedPollReturns, completions, n + 1, s + 1, d)
  {
  }

  /** A round that draws a completion which did not succeed leaves the rest to the following round. */
  lemma AnyRoundDrawsFailure<Task, T>(ex: HashExecutor<Task>, tasks: seq<Task>, timed: bool,
                                      polled: nat -> bool, timedPollReturns: nat -> bool,
                                      completions: nat -> FutureState<T>, n: nat, s: nat, d: nat)
    requires forall k: nat :: completions(k).IsDone()
    requires 1 <= s <= |tasks| && d < s && (d > 0 ==> !completions(d - 1).Done?)
    requires polled(n) || (s == |tasks| && (!timed || timedPollReturns(n)))
    requires !completions(d).Done?
    ensures AnyRounds(ex, tasks, timed, polled, timedPollReturns, completions, n, s, d)
         == AnyRounds(ex, tasks, timed, polled, timedPollReturns, completions, n + 1, s, d + 1)
  {
  }

  /** Every task the rounds submit was dispatched. */
  lemma {:induction false} AnySubmitsDispatched<Task, T>(ex: HashExecutor<Task>, tasks: seq<Task>, timed: bool,
                                                         polled: nat -> bool, timedPollReturns: nat -> bool,
                                                         completions: nat -> FutureState<T>, n: nat, s: nat, d: nat)
    requires forall k: nat :: completions(k).IsDone()
    requires 1 <= s <= |tasks| && d <= s && (d > 0 ==> !completions(d - 1).Done?)
    ensures var o := AnyRounds(ex, tasks, timed, polled, timedPollReturns, completions, n, s, d);
      forall k :: s <= k < o.submittedCount ==> Dispatch(ex, tasks[k]).Success?
    decreases 2 * (|tasks| - s) + (s - d)
  {
    var pollFinds := d < s && polled(n);
    if !pollFinds && s < |tasks| {
      if Dispatch(ex, tasks[s]).Success? {
        AnySubmitsDispatched(ex, tasks, timed, polled, timedPollReturns, completions, n + 1, s + 1, d);
      }
    } else if !pollFinds && s == d {
    } else if !pollFinds && timed && !timedPollReturns(n) {
    } else if !completions(d).Done? {
      AnySubmitsDispatched(ex, tasks, timed, polled, timedPollReturns, completions, n + 1, s, d + 1);
    }
  }

  /** Of the completions the rounds draw, all but the last failed. */
  lemma {:induction false} AnyDrawsFailuresFirst<Task, T>(ex: HashExecutor<Task>, tasks: seq<Task>, timed: bool,
                                                          polled: nat -> bool, timedPollReturns: nat -> bool,
                                                          completions: nat -> FutureState<T>, n: nat, s: nat, d: nat)
    requires forall k: nat :: completions(k).IsDone()
    requires 1 <= s <= |tasks| && d <= s && (d > 0 ==> !completions(d - 1).Done?)
    ensures var o := AnyRounds(ex, tasks, timed, polled, timedPollReturns, completions, n, s, d);
      forall k :: d <= k < o.drawnCount - 1 ==> !completions(k).Done?
    decreases 2 * (|tasks| - s) + (s - d)
  {
    var pollFinds := d < s && polled(n);
    if !pollFinds && s < |tasks| {
      if Dispatch(ex, tasks[s]).Success? {
        AnyDrawsFailuresFirst(ex, tasks, timed, polled, timedPollReturns, completions, n + 1, s + 1, d);
      }
    } else if !pollFinds && s == d {
    } else if !pollFinds && timed && !timedPollReturns(n) {
    } else if !completions(d).Done? {
      AnyDrawsFailuresFirst(ex, tasks, timed, polled, timedPollReturns, completions, n + 1, s, d + 1);
    }
  }

  /** A success is the value of the last completion the rounds drew. */
  lemma {:induction false} AnySuccessIsLastDrawn<Task, T>(ex: HashExecutor<Task>, tasks: seq<Task>, timed: bool,
                                                          polled: nat -> bool, timedPollReturns: nat -> bool,
                                                          completions: nat -> FutureState<T>, n: nat, s: nat, d: nat)
    requires forall k: nat :: completions(k).IsDone()
    requires 1 <= s <= |tasks| && d <= s && (d > 0 ==> !completions(d - 1).Done?)
    ensures var o := AnyRounds(ex, tasks, timed, polled, timedPollReturns, completions, n, s, d);
      o.result.Success? ==> o.drawnCount > d && completions(o.drawnCount - 1) == Done(o.result.value)
    decreases 2 * (|tasks| - s) + (s - d)
  {
    var pollFinds := d < s && polled(n);
    if !pollFinds && s < |tasks| {
      if Dispatch(ex, tasks[s]).Success? {
        AnySuccessIsLastDrawn(ex, tasks, timed, polled, timedPollReturns, completions, n + 1, s + 1, d);
      }
    } else if !pollFinds && s == d {
    } else if !pollFinds && timed && !timedPollReturns(n) {
    } else if !completions(d).Done? {
      AnySuccessIsLastDrawn(ex, tasks, timed, polled, timedPollReturns, completions, n + 1, s, d + 1);
    }
  }

  /** When the rounds fail, none of the completions they drew succeeded. */
  lemma {:induction false} AnyFailureDrewNoSuccess<Task, T>(ex: HashExecutor<Task>, tasks: seq<Task>, timed: bool,
                                                          polled: nat -> bool, timedPollReturns: nat -> bool,
                                                          completions: nat -> FutureState<T>, n: nat, s: nat, d: nat)
    requires forall k: nat :: completions(k).IsDone()
    requires 1 <= s <= |tasks| && d <= s && (d > 0 ==> !completions(d - 1).Done?)
    ensures var o := AnyRounds(ex, tasks, timed, polled, timedPollReturns, completions, n, s, d);
      o.result.Failure? ==> forall k :: d <= k < o.drawnCount ==> !completions(k).Done?
    decreases 2 * (|tasks| - s) + (s - d)
  {
    var pollFinds := d < s && polled(n);
    if !pollFinds && s < |tasks| {
      if Dispatch(ex, tasks[s]).Success? {
        AnyFailureDrewNoSuccess(ex, tasks, timed, polled, timedPollReturns, completions, n + 1, s + 1, d);
      }
    } else if !pollFinds && s == d {
    } else if !pollFinds && timed && !timedPollReturns(n) {
    } else if !completions(d).Done? {
      AnyFailureDrewNoSuccess(ex, tasks, timed, polled, timedPollReturns, completions, n + 1, s, d + 1);
    }
  }

  /**
   * The rounds fail in one of three ways: the next task cannot be dispatched,
   * a timed wait returns nothing while a task is outstanding after every task
   * was submitted, or every task completed and the last one failed.
   */
  lemma {:induction false} AnyFailureCases<Task, T>(ex: HashExecutor<Task>, tasks: seq<Task>, timed: bool,
                                                    polled: nat -> bool, timedPollReturns: nat -> bool,
                                                    completions: nat -> FutureState<T>, n: nat, s: nat, d: nat)
    requires forall k: nat :: completions(k).IsDone()
    requires 1 <= s <= |tasks| && d <= s && (d > 0 ==> !completions(d - 1).Done?)
    ensures var o := AnyRounds(ex, tasks, timed, polled, timedPollReturns, completions, n, s, d);
      o.result.Failure? ==>
        || (o.submittedCount < |tasks| && Dispatch(ex, tasks[o.submittedCount]).Failure?
            && o.result.error == Dispatch(ex, tasks[o.submittedCount]).error)
        || (timed && o.result.error == TimedOut && o.submittedCount == |tasks| && o.drawnCount < o.submittedCount)
        || (o.drawnCount == |tasks| && completions(o.drawnCount - 1).IsDone() && !completions(o.drawnCount - 1).Done?
            && o.result.error == Execution(FailureCause(completions(o.drawnCount - 1))))
    decreases 2 * (|tasks| - s) + (s - d)
  {
    var pollFinds := d < s && polled(n);
    if !pollFinds && s < |tasks| {
      if Dispatch(ex, tasks[s]).Success? {
        AnyFailureCases(ex, tasks, timed, polled, timedPollReturns, completions, n + 1, s + 1, d);
      }
    } else if !pollFinds && s == d {
    } else if !pollFinds && timed && !timedPollReturns(n) {
    } else if !completions(d).Done? {
      AnyFailureCases(ex, tasks, timed, polled, timedPollReturns, completions, n + 1, s, d + 1);
    }
  }

  /** doInvokeAny as a whole: no tasks is an argument error, a first task that cannot be dispatched ends it, otherwise the rounds from the start. */
  function InvokeAny<Task, T>(ex: HashExecutor<Task>, tasks: seq<Task>, timed: bool,
                              polled: nat -> bool, timedPollReturns: nat -> bool,
                              completions: nat -> FutureState<T>): (o: AnyOutcome<T>)
    requires forall k: nat :: completions(k).IsDone()
  {
    if tasks == [] then AnyOutcome(Failure(IllegalArgument), 0, 0)
    else if Dispatch(ex, tasks[0]).Failure? then AnyOutcome(Failure(Dispatch(ex, tasks[0]).error), 0, 0)
    else AnyRounds(ex, tasks, timed, polled, timedPollReturns, completions, 0, 1, 0)
  }

  /** When the first task is dispatched and the first poll finds it completed successfully, its value is the result, with no other task submitted. */
  lemma FirstPollSucceeds<Task, T>(ex: HashExecutor<Task>, tasks: seq<Task>, timed: bool,
                                   polled: nat -> bool, timedPollReturns: nat -> bool,
                                   completions: nat -> FutureState<T>)
    requires forall k: nat :: completions(k).IsDone()
    requires tasks != [] && Dispatch(ex, tasks[0]).Success? && polled(0) && completions(0).Done?
    ensures InvokeAny(ex, tasks, timed, polled, timedPollReturns, completions)
         == AnyOutcome(Success(completions(0).value), 1, 1)
  {
  }

  /**
   * A timed call whose polls and bounded waits never return anything, with
   * every task dispatching, submits every task, draws nothing and times out.
   */
  lemma NothingReturnsTimesOut<Task, T>(ex: HashExecutor<Task>, tasks: seq<Task>,
                                        polled: nat -> bool, timedPollReturns: nat -> bool,
                                        completions: nat -> FutureState<T>)
    requires forall k: nat :: completions(k).IsDone()
    requires tasks != [] && FirstRejected(ex, tasks) == |tasks|
    requires forall n: nat :: !polled(n) && !timedPollReturns(n)
    ensures InvokeAny(ex, tasks, true, polled, timedPollReturns, completions)
         == AnyOutcome(Failure(TimedOut), |tasks|, 0)
  {
    NothingReturnsFrom(ex, tasks, polled, timedPollReturns, completions, 0, 1);
  }

  /** The rounds behind NothingReturnsTimesOut, from any number of submitted tasks. */
  lemma {:induction false} NothingReturnsFrom<Task, T>(ex: HashExecutor<Task>, tasks: seq<Task>,
                                                      polled: nat -> bool, timedPollReturns: nat -> bool,
                                                      completions: nat -> FutureState<T>, n: nat, s: nat)
    requires forall k: nat :: completions(k).IsDone()
    requires 1 <= s <= |tasks| && FirstRejected(ex, tasks) == |tasks|
    requires forall n: nat :: !polled(n) && !timedPollReturns(n)
    ensures AnyRounds(ex, tasks, true, polled, timedPollReturns, completions, n, s, 0)
         == AnyOutcome(Failure(TimedOut), |tasks|, 0)
    decreases |tasks| - s
  {
    if s < |tasks| {
      NothingReturnsFrom(ex, tasks, polled, timedPollReturns, completions, n + 1, s + 1);
    }
  }

  /**
   * doInvokeAny(tasks, timed): submits the first task, then on every round
   * polls the completion queue; when nothing has completed it submits the
   * next task if one is left, stops if nothing is outstanding, and otherwise
   * waits for a completion (bounded by the deadline when timed). The first
   * completion that succeeded is the result; a failed one is recorded and
   * the loop goes on. Every exit after the first submission cancels every
   * submitted future, in submission order.
   *
   * The completion service is replaced by inputs: `polled(n)` says whether
   * the poll of round `n` finds a completed future (it can only when one is
   * outstanding), `timedPollReturns(n)` whether the bounded wait of round
   * `n` ends before the deadline, and `completions(k)` is the state of the
   * `k`-th future drawn. The futures drawn are returned in `drawn`, the
   * shards the tasks went to in `submitted`, the cancelled futures in
   * `cancelled`. The call ends exactly as InvokeAny, the round-by-round
   * definition, says; the main loop is AnyLoop, one AnyRound per iteration.
   */
  method DoInvokeAny<Task, T>(ex: HashExecutor<Task>, tasks: seq<Task>, timed: bool,
                              polled: nat -> bool, timedPollReturns: nat -> bool,
                              completions: nat -> FutureState<T>)
    returns (r: Result<T, Throwable>, submitted: seq<nat>, drawn: seq<FutureState<T>>, cancelled: seq<nat>)
    requires forall k: nat :: completions(k).IsDone()
    ensures tasks == [] ==> r == Failure(IllegalArgument) && submitted == [] && drawn == [] && cancelled == []
    ensures tasks != [] ==> cancelled == Range(0, |submitted|)
    ensures |drawn| <= |submitted| <= |tasks|
    ensures forall k :: 0 <= k < |submitted| ==> Dispatch(ex, tasks[k]).Success? && submitted[k] == Dispatch(ex, tasks[k]).value
    ensures forall k :: 0 <= k < |drawn| ==> drawn[k] == completions(k) && drawn[k].IsDone()
    ensures forall k :: 0 <= k < |drawn| - 1 ==> !drawn[k].Done?
    ensures r.Success? ==> drawn != [] && drawn[|drawn| - 1] == Done(r.value)
    ensures r.Failure? ==> forall k :: 0 <= k < |drawn| ==> !drawn[k].Done?
    ensures AnyOutcome(r, |submitted|, |drawn|) == InvokeAny(ex, tasks, timed, polled, timedPollReturns, completions)
    ensures tasks != [] && r.Failure? ==>
      || (|submitted| < |tasks| && Dispatch(ex, tasks[|submitted|]).Failure?
          && r.error == Dispatch(ex, tasks[|submitted|]).error)
      || (timed && r.error == TimedOut && |submitted| == |tasks| && |drawn| < |submitted|)
      || (|drawn| == |tasks| && (drawn[|drawn| - 1].Failed? || drawn[|drawn| - 1].Cancelled?)
          && r.error == Execution(FailureCause(drawn[|drawn| - 1])))
  {
    if tasks == [] {
      return Failure(IllegalArgument), [], [], [];
    }
    var first := Dispatch(ex, tasks[0]);
    if first.Failure? {
      return Failure(first.error), [], [], [];
    }
    AnySubmitsDispatched(ex, tasks, timed, polled, timedPollReturns, completions, 0, 1, 0);
    AnyDrawsFailuresFirst(ex, tasks, timed, polled, timedPollReturns, completions, 0, 1, 0);
    AnySuccessIsLastDrawn(ex, tasks, timed, polled, timedPollReturns, completions, 0, 1, 0);
    AnyFailureDrewNoSuccess(ex, tasks, timed, polled, timedPollReturns, completions, 0, 1, 0);
    AnyFailureCases(ex, tasks, timed, polled, timedPollReturns, completions, 0, 1, 0);
    r, submitted, drawn, cancelled := AnyLoop(ex, tasks, timed, polled, timedPollReturns, completions, first.value);
  }

  /**
   * The state doInvokeAny carries between rounds: the shards of the tasks
   * submitted so far (a prefix of the tasks, each dispatched) and the
   * completions drawn so far, no more than were submitted.
   */
  ghost predicate AnyState<Task, T>(ex: HashExecutor<Task>, tasks: seq<Task>, completions: nat -> FutureState<T>,
                                    submitted: seq<nat>, drawn: seq<FutureState<T>>)
  {
    && 1 <= |submitted| <= |tasks| && |drawn| <= |submitted|
    && (forall k :: 0 <= k < |submitted| ==> Dispatch(ex, tasks[k]).Success? && submitted[k] == Dispatch(ex, tasks[k]).value)
    && (forall k :: 0 <= k < |drawn| ==> drawn[k] == completions(k))
  }

  /** While the call goes on, the last failure is that of the last completion drawn, which did not succeed. */
  ghost predicate LastFailure<T>(drawn: seq<FutureState<T>>, ee: Option<Throwable>) {
    drawn != [] ==>
      drawn[|drawn| - 1].IsDone() && !drawn[|drawn| - 1].Done?
      && ee == Some(Execution(FailureCause(drawn[|drawn| - 1])))
  }

  /**
   * One round of doInvokeAny's main loop. When the round ends the call, the
   * result and the counts are those the rounds of AnyRounds end with;
   * otherwise the rest of the call is the following round's, and fewer
   * tasks are left to submit or to draw.
   */
  method AnyRound<Task, T>(ex: HashExecutor<Task>, tasks: seq<Task>, timed: bool,
                           polled: nat -> bool, timedPollReturns: nat -> bool,
                           completions: nat -> FutureState<T>, round: nat,
                           submitted: seq<nat>, drawn: seq<FutureState<T>>, ee: Option<Throwable>)
    returns (outcome: Option<Result<T, Throwable>>,
             submitted': seq<nat>, drawn': seq<FutureState<T>>, ee': Option<Throwable>)
    requires forall k: nat :: completions(k).IsDone()
    requires AnyState(ex, tasks, completions, submitted, drawn) && LastFailure(drawn, ee)
    ensures AnyState(ex, tasks, completions, submitted', drawn')
    ensures outcome.Some? ==>
      AnyOutcome(outcome.value, |submitted'|, |drawn'|)
      == AnyRounds(ex, tasks, timed, polled, timedPollReturns, completions, round, |submitted|, |drawn|)
    ensures outcome.None? ==>
      && LastFailure(drawn', ee')
      && AnyRounds(ex, tasks, timed, polled, timedPollReturns, completions, round + 1, |submitted'|, |drawn'|)
         == AnyRounds(ex, tasks, timed, polled, timedPollReturns, completions, round, |submitted|, |drawn|)
      && 2 * |tasks| - |submitted'| - |drawn'| < 2 * |tasks| - |submitted| - |drawn|
  {
    submitted', drawn', ee' := submitted, drawn, ee;
    var ntasks := |tasks| - |submitted|;
    var active := |submitted| - |drawn|;
    var pollFinds := active > 0 && polled(round);
    if !pollFinds && ntasks > 0 {
      var next := Dispatch(ex, tasks[|submitted|]);
      if next.Failure? {
        return Some(Failure(next.error)), submitted', drawn', ee';
      }
      AnyRoundSubmits(ex, tasks, timed, polled, timedPollReturns, completions, round, |submitted|, |drawn|);
      submitted' := submitted + [next.value];
      return None, submitted', drawn', ee';
    } else if !pollFinds && active == 0 {
      return Some(Failure(ee.value)), submitted', drawn', ee';
    } else if !pollFinds && timed && !timedPollReturns(round) {
      return Some(Failure(TimedOut)), submitted', drawn', ee';
    }
    // the poll found a completion, or the wait (bounded when timed) returned one
    var state := completions(|drawn|);
    drawn' := drawn + [state];
    if state.Done? {
      return Some(Success(state.value)), submitted', drawn', ee';
    }
    AnyRoundDrawsFailure(ex, tasks, timed, polled, timedPollReturns, completions, round, |submitted|, |drawn|);
    ee' := Some(Execution(FailureCause(state)));
    outcome := None;
  }

  /**
   * The main loop of doInvokeAny, once the first task is submitted: one
   * round per iteration, proved to end as the rounds of AnyRounds do.
   */
  method AnyLoop<Task, T>(ex: HashExecutor<Task>, tasks: seq<Task>, timed: bool,
                          polled: nat -> bool, timedPollReturns: nat -> bool,
                          completions: nat -> FutureState<T>, first: nat)
    returns (r: Result<T, Throwable>, submitted: seq<nat>, drawn: seq<FutureState<T>>, cancelled: seq<nat>)
    requires forall k: nat :: completions(k).IsDone()
    requires tasks != [] && Dispatch(ex, tasks[0]) == Success(first)
    ensures AnyOutcome(r, |submitted|, |drawn|) == AnyRounds(ex, tasks, timed, polled, timedPollReturns, completions, 0, 1, 0)
    ensures cancelled == Range(0, |submitted|)
    ensures forall k :: 0 <= k < |submitted| ==> Dispatch(ex, tasks[k]).Success? && submitted[k] == Dispatch(ex, tasks[k]).value
    ensures forall k :: 0 <= k < |drawn| ==> drawn[k] == completions(k)
  {
    submitted, drawn := [first], [];
    var ee: Option<Throwable> := None;
    var round := 0;
    ghost var goal := AnyRounds(ex, tasks, timed, polled, timedPollReturns, completions, 0, 1, 0);
    var outcome: Option<Result<T, Throwable>> := None;
    while outcome.None?
      invariant AnyState(ex, tasks, completions, submitted, drawn)
      invariant outcome.None? ==> LastFailure(drawn, ee)
      invariant outcome.None? ==> AnyRounds(ex, tasks, timed, polled, timedPollReturns, completions, round, |submitted|, |drawn|) == goal
      invariant outcome.Some? ==> AnyOutcome(outcome.value, |submitted|, |drawn|) == goal
      decreases outcome.None?, 2 * |tasks| - |submitted| - |drawn|
    {
      outcome, submitted, drawn, ee := AnyRound(ex, tasks, timed, polled, timedPollReturns, completions,
                                                round, submitted, drawn, ee);
      round := round + 1;
    }
    r := outcome.value;
    cancelled := Range(0, |submitted|);
  }
}
