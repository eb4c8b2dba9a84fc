/**
 * Futures as the executor sees them, and the two list helpers built on them:
 * `cancelAll(startFrom)` cancels a suffix of a list of futures, `blockWait`
 * waits for every future that was not done when it started.
 *
 * A future is the task it wraps and an abstract state. A blocking `get` is
 * not modelled as blocking: its answer is an input (an oracle), either the
 * state the future settled in or an interruption of the waiting thread.
 */
module Futures {
  import opened Results

  /** Why an ExecutionException was raised: the task's own failure, or a cancellation. */
  datatype Cause = TaskFailure(code: int) | Cancellation

  /** The throwables the executor and the helpers raise or pass on. */
  datatype Throwable =
    | Interrupted                               // InterruptedException
    | TimedOut                                  // TimeoutException
    | IllegalArgument                           // IllegalArgumentException from `require`
    | Arithmetic                                // ArithmeticException: division by zero
    | IndexOutOfBounds(index: int)              // ArrayIndexOutOfBoundsException on the shard array
    | Rejected(shard: nat)                      // RejectedExecutionException from a shut-down shard
    | ShardError(code: int)                     // any other failure reported by one shard
    | Execution(cause: Cause)                   // ExecutionException
    | ShardsFailed(errors: seq<Throwable>)      // HashExecutorServiceException
    | ShardsInterrupted(errors: seq<Throwable>) // HashExecutorServiceInterruptedException

  /** The state of a future: still running or queued, or settled in one of three ways. */
  datatype FutureState<+T> = Pending | Done(value: T) | Failed(code: int) | Cancelled
  {
    /** isDone: settled normally, by a failure or by cancellation. */
    predicate IsDone() {
      !Pending?
    }

    /** cancel(true): a future that has not settled becomes cancelled; a settled one is left alone. */
    function Cancel(): (s: FutureState<T>)
      ensures s.IsDone()
      ensures IsDone() ==> s == this
      ensures !IsDone() ==> s == Cancelled
    {
      if Pending? then Cancelled else this
    }
  }

  /** A future together with the task it runs. */
  datatype Future<Task, +T> = Future(task: Task, state: FutureState<T>)
  {
    function Cancel(): (f: Future<Task, T>)
      ensures f.task == task && f.state.IsDone()
    {
      Future(task, state.Cancel())
    }
  }

  /** The indices `lo`, `lo + 1`, ..., `hi - 1`, in order. */
  function Range(lo: nat, hi: nat): (r: seq<nat>)
    ensures |r| == if lo <= hi then hi - lo else 0
    ensures forall k :: 0 <= k < |r| ==> r[k] == lo + k
    decreases hi
  {
    if hi <= lo then [] else Range(lo, hi - 1) + [hi - 1]
  }

  /**
   * cancelAll(startFrom): `cancel(true)` once on every future from index
   * `startFrom` on, in index order (the returned sequence lists the calls);
   * the futures before `startFrom` are not touched and the list keeps its
   * length and order.
   */
  method CancelAll<Task, T>(futures: array<Future<Task, T>>, startFrom: nat) returns (calls: seq<nat>)
    requires startFrom <= futures.Length
    modifies futures
    ensures calls == Range(startFrom, futures.Length)
    ensures forall i :: 0 <= i < startFrom ==> futures[i] == old(futures[i])
    ensures forall i :: startFrom <= i < futures.Length ==> futures[i] == old(futures[i]).Cancel()
    ensures forall i :: startFrom <= i < futures.Length ==> futures[i].state.IsDone()
  {
    calls := [];
    var i := startFrom;
    while i < futures.Length
      invariant startFrom <= i <= futures.Length
      invariant calls == Range(startFrom, i)
      invariant forall j :: 0 <= j < startFrom ==> futures[j] == old(futures[j])
      invariant forall j :: i <= j < futures.Length ==> futures[j] == old(futures[j])
      invariant forall j :: startFrom <= j < i ==> futures[j] == old(futures[j]).Cancel()
    {
      futures[i] := futures[i].Cancel();
      calls := calls + [i];
      i := i + 1;
    }
  }

  /** `filterNot { it.isDone }`, as indices: the futures not yet done, in list order. */
  function NotDone<Task, T>(fs: seq<Future<Task, T>>): (r: seq<nat>)
    ensures forall k :: 0 <= k < |r| ==> r[k] < |fs| && !fs[r[k]].state.IsDone()
    ensures forall i :: 0 <= i < |fs| && !fs[i].state.IsDone() ==> i in r
    ensures forall k, l :: 0 <= k < l < |r| ==> r[k] < r[l]
  {
    if fs == [] then []
    else
      var r := NotDone(fs[..|fs| - 1]);
      assert forall k :: 0 <= k < |r| ==> r[k] < |fs| - 1;
      if fs[|fs| - 1].state.IsDone() then r else r + [|fs| - 1]
  }

  /** What a blocking `get` on a future ends with: the state it settled in, or an interruption. */
  datatype GetOutcome<+T> = Returned(state: FutureState<T>) | GetInterrupted

  /** The environment's side of `get`: a returning `get` sees a settled future. */
  predicate SettledGets<T>(gets: seq<GetOutcome<T>>) {
    forall i :: 0 <= i < |gets| && gets[i].Returned? ==> gets[i].state.IsDone()
  }

  /** The waits of `blockWait` that end in an interruption. */
  predicate Interrupts<T>(gets: seq<GetOutcome<T>>, waited: seq<nat>) {
    exists k :: 0 <= k < |waited| && waited[k] < |gets| && gets[waited[k]].GetInterrupted?
  }

  /** Strictly ascending indices below `n`. */
  predicate AscendingIndices(ix: seq<nat>, n: nat) {
    (forall k :: 0 <= k < |ix| ==> ix[k] < n) && (forall k, l :: 0 <= k < l < |ix| ==> ix[k] < ix[l])
  }

  /**
   * blockWait: waits, in list order, on each future that was not done when
   * it started; `gets[i]` is what the wait on future `i` ends with. A
   * cancelled or failed future is passed over and the waiting goes on; an
   * interruption ends the waiting and is passed on. The indices waited on
   * are returned in `waited`.
   */
  method BlockWait<Task, T>(futures: array<Future<Task, T>>, gets: seq<GetOutcome<T>>)
    returns (r: Result<(), Throwable>, waited: seq<nat>)
    requires |gets| == futures.Length && SettledGets(gets)
    modifies futures
    ensures waited <= NotDone(old(futures[..]))
    ensures r.Success? <==> !Interrupts(gets, NotDone(old(futures[..])))
    ensures r.Success? ==> waited == NotDone(old(futures[..]))
    ensures r.Success? ==> forall i :: 0 <= i < futures.Length ==> futures[i].state.IsDone()
    ensures r.Failure? ==> r.error == Interrupted && waited != [] && gets[waited[|waited| - 1]] == GetInterrupted
    ensures r.Failure? ==> !Interrupts(gets, waited[..|waited| - 1])
    ensures forall i :: 0 <= i < futures.Length ==> futures[i].task == old(futures[i].task)
    ensures forall i :: 0 <= i < futures.Length ==>
      futures[i].state == if i in waited && gets[i].Returned? then gets[i].state else old(futures[i].state)
  {
    var pending := NotDone(futures[..]);
    ghost var before := futures[..];
    r, waited := WaitOnEach(futures, gets, pending);
    if r.Success? {
      WaitedAllSettled(before, futures[..], gets, pending);
    }
  }

  /** The loop of blockWait over the snapshot `pending` of futures not yet done. */
  method WaitOnEach<Task, T>(futures: array<Future<Task, T>>, gets: seq<GetOutcome<T>>, pending: seq<nat>)
    returns (r: Result<(), Throwable>, waited: seq<nat>)
    requires |gets| == futures.Length && AscendingIndices(pending, futures.Length)
    modifies futures
    ensures waited <= pending
    ensures r.Success? <==> !Interrupts(gets, pending)
    ensures r.Success? ==> waited == pending
    ensures r.Failure? ==> r.error == Interrupted && waited != [] && gets[waited[|waited| - 1]] == GetInterrupted
    ensures r.Failure? ==> !Interrupts(gets, waited[..|waited| - 1])
    ensures forall i :: 0 <= i < futures.Length ==> futures[i].task == old(futures[i].task)
    ensures forall i :: 0 <= i < futures.Length ==>
      futures[i].state == if i in waited && gets[i].Returned? then gets[i].state else old(futures[i].state)
  {
    waited := [];
    var k := 0;
    while k < |pending|
      invariant 0 <= k <= |pending|
      invariant waited == pending[..k]
      invariant !Interrupts(gets, waited)
      invariant forall i :: 0 <= i < futures.Length ==> futures[i].task == old(futures[i].task)
      invariant forall i :: 0 <= i < futures.Length ==>
        futures[i].state == if i in waited && gets[i].Returned? then gets[i].state else old(futures[i].state)
    {
      var i := pending[k];
      assert i !in waited by {
        forall l | 0 <= l < k ensures pending[l] != i {
          assert pending[l] < pending[k];
        }
      }
      waited := waited + [i];
      if gets[i].GetInterrupted? {
        assert Interrupts(gets, pending) by {
          assert pending[k] == i;
        }
        return Failure(Interrupted), waited;
      }
      futures[i] := Future(futures[i].task, gets[i].state);
      k := k + 1;
      assert waited == pending[..k];
    }
    assert waited == pending;
    r := Success(());
  }

  /** Once every future that was not done has been waited on without interruption, all are done. */
  lemma WaitedAllSettled<Task, T>(before: seq<Future<Task, T>>, after: seq<Future<Task, T>>,
                                  gets: seq<GetOutcome<T>>, waited: seq<nat>)
    requires |before| == |after| == |gets| && SettledGets(gets)
    requires waited == NotDone(before) && !Interrupts(gets, waited)
    requires forall i :: 0 <= i < |after| ==>
      after[i].state == if i in waited && gets[i].Returned? then gets[i].state else before[i].state
    ensures forall i :: 0 <= i < |after| ==> after[i].state.IsDone()
  {
    forall i | 0 <= i < |after|
      ensures after[i].state.IsDone()
    {
      if i in waited {
        var k :| 0 <= k < |waited| && waited[k] == i;
        assert !gets[waited[k]].GetInterrupted?;
      }
    }
  }
}
