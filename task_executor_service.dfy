/**
 * Task dispatch: hand every work item to the encryption pipeline, either one
 * after the other on the calling thread, or through a fixed pool of worker
 * threads whose futures are then awaited in submission order.  The pipeline
 * is a stand-in that records its calls; which items make it throw is fixed
 * when it is built.
 */
module TaskExecutor {
  import opened Wrappers
  import opened Model
  import CommandLine

  /** The encryption pipeline as the executor sees it: `process` is called
      with an item and may throw.  The stand-in records every call, in call
      order, and throws exactly for the items in `failing`. */
  class CryptographyPipeline {
    var calls: seq<FileToProcess>
    const failing: set<FileToProcess>

    constructor (failing: set<FileToProcess>)
      ensures this.failing == failing && calls == []
    {
      this.failing := failing;
      calls := [];
    }

    /** `process`: one more call recorded; `thrown` when the item fails. */
    method Process(fileToProcess: FileToProcess) returns (thrown: bool)
      modifies this
      ensures calls == old(calls) + [fileToProcess]
      ensures thrown <==> fileToProcess in failing
    {
      calls := calls + [fileToProcess];
      thrown := fileToProcess in failing;
    }
  }

  /** The calls the sequential executor makes: the items in order, up to and
      including the first one that fails, since nothing catches its exception. */
  function SequentialCalls(items: seq<FileToProcess>, failing: set<FileToProcess>): (r: seq<FileToProcess>)
    ensures r <= items
    ensures forall i :: 0 <= i < |r| - 1 ==> r[i] !in failing
    ensures |r| < |items| ==> r != [] && r[|r| - 1] in failing
  {
    if items == [] then []
    else if items[0] in failing then [items[0]]
    else [items[0]] + SequentialCalls(items[1..], failing)
  }

  /** The exception that escapes the sequential executor: that of the first
      failing item, if any. */
  function FirstFailure(items: seq<FileToProcess>, failing: set<FileToProcess>): (r: Option<FileToProcess>)
    ensures r.None? <==> forall i :: 0 <= i < |items| ==> items[i] !in failing
    ensures r.Some? ==> r.value in failing && r.value in items
  {
    if items == [] then None
    else if items[0] in failing then Some(items[0])
    else FirstFailure(items[1..], failing)
  }

  /** When no item fails, every item is processed, in order, duplicates
      included, and nothing escapes. */
  lemma SequentialWithoutFailure(items: seq<FileToProcess>, failing: set<FileToProcess>)
    requires forall i :: 0 <= i < |items| ==> items[i] !in failing
    ensures SequentialCalls(items, failing) == items
    ensures FirstFailure(items, failing) == None
  {
  }

  /** When the first failing item is the `i`-th, the calls are the items up
      to it and its exception escapes. */
  lemma {:induction false} SequentialStopsAtFirstFailure(items: seq<FileToProcess>, failing: set<FileToProcess>, i: nat)
    requires i < |items| && items[i] in failing
    requires forall j :: 0 <= j < i ==> items[j] !in failing
    ensures SequentialCalls(items, failing) == items[..i + 1]
    ensures FirstFailure(items, failing) == Some(items[i])
  {
    if i > 0 {
      SequentialStopsAtFirstFailure(items[1..], failing, i - 1);
      assert items[..i + 1] == [items[0]] + items[1..][..i];
    }
  }

  /** The item whose exception escapes is the last call made. */
  lemma {:induction false} EscapedIsLastCall(items: seq<FileToProcess>, failing: set<FileToProcess>)
    requires FirstFailure(items, failing).Some?
    ensures SequentialCalls(items, failing) != []
    ensures SequentialCalls(items, failing)[|SequentialCalls(items, failing)| - 1] == FirstFailure(items, failing).value
  {
    if items[0] !in failing {
      EscapedIsLastCall(items[1..], failing);
    }
  }

  /** `Math.min(size, noOfThreads)`, the number of threads the pool is built
      with: at most one per item and at most the requested count; for a
      non-empty list it is positive exactly when the requested count is. */
  function PoolSize(size: nat, noOfThreads: int): (r: int)
    ensures r <= size && r <= noOfThreads
    ensures r == size || r == noOfThreads
    ensures size >= 1 ==> (r >= 1 <==> noOfThreads >= 1)
  {
    CommandLine.Min(size, noOfThreads)
  }

  /** The thread count chosen from the options always gives a usable pool
      for a non-empty list. */
  lemma ChosenThreadsGiveUsablePool(size: nat, availableProcessors: nat, options: CommandLine.OptionSet)
    requires size >= 1 && availableProcessors >= 1
    ensures 1 <= PoolSize(size, CommandLine.DetermineNoOfThreads(availableProcessors, options)) <= size
  {
  }

  /** The failures the parallel executor logs, in submission order: each
      failing item as often as it occurs in the list, and no other. */
  function Failures(items: seq<FileToProcess>, failing: set<FileToProcess>): (r: seq<FileToProcess>)
    ensures |r| <= |items|
    ensures forall x :: multiset(r)[x] == if x in failing then multiset(items)[x] else 0
  {
    if items == [] then []
    else
      var last := items[|items| - 1];
      assert items == items[..|items| - 1] + [last];
      Failures(items[..|items| - 1], failing) + (if last in failing then [last] else [])
  }

  /** Indices `lo` to `hi - 1`, in increasing order. */
  function Range(lo: nat, hi: nat): seq<nat>
    requires lo <= hi
  {
    seq(hi - lo, q requires 0 <= q < hi - lo => lo + q)
  }

  /** The items at the given indices. */
  function ItemsAt(items: seq<FileToProcess>, queue: seq<nat>): (r: seq<FileToProcess>)
    requires forall q :: 0 <= q < |queue| ==> queue[q] < |items|
    ensures |r| == |queue| && forall q :: 0 <= q < |queue| ==> r[q] == items[queue[q]]
  {
    seq(|queue|, q requires 0 <= q < |queue| => items[queue[q]])
  }

  predicate Increasing(queue: seq<nat>) {
    forall a, b :: 0 <= a < b < |queue| ==> queue[a] < queue[b]
  }

  /** Taking one index out of the queue takes its item out of the queued items. */
  lemma ItemsAtRemove(items: seq<FileToProcess>, queue: seq<nat>, p: nat)
    requires forall q :: 0 <= q < |queue| ==> queue[q] < |items|
    requires p < |queue|
    ensures multiset(ItemsAt(items, queue))
            == multiset(ItemsAt(items, queue[..p] + queue[p + 1..])) + multiset{items[queue[p]]}
  {
    var all := ItemsAt(items, queue);
    var rest := ItemsAt(items, queue[..p] + queue[p + 1..]);
    assert all == all[..p] + [all[p]] + all[p + 1..];
    assert rest == all[..p] + all[p + 1..];
  }

  /** The executor behind both `execute` overloads. */
  class TaskExecutorService {
    const pipeline: CryptographyPipeline

    constructor (pipeline: CryptographyPipeline)
      ensures this.pipeline == pipeline
    {
      this.pipeline := pipeline;
    }

    /** `execute(list)`: every item is processed in list order on the calling
        thread; an empty list makes no call.  The first exception stops the
        remaining items and escapes, returned here as the failing item. */
    method Execute(items: seq<FileToProcess>) returns (escaped: Option<FileToProcess>)
      modifies pipeline
      ensures pipeline.calls == old(pipeline.calls) + SequentialCalls(items, pipeline.failing)
      ensures escaped == FirstFailure(items, pipeline.failing)
    {
      if items == [] {
        return None;
      }
      var i := 0;
      while i < |items|
        invariant 0 <= i <= |items|
        invariant pipeline.calls == old(pipeline.calls) + items[..i]
        invariant forall j :: 0 <= j < i ==> items[j] !in pipeline.failing
      {
        var thrown := pipeline.Process(items[i]);
        assert items[..i + 1] == items[..i] + [items[i]];
        if thrown {
          SequentialStopsAtFirstFailure(items, pipeline.failing, i);
          return Some(items[i]);
        }
        i := i + 1;
      }
      assert items[..i] == items;
      SequentialWithoutFailure(items, pipeline.failing);
      return None;
    }

    /** The pool at work: every item was submitted once, in list order, to
        the pool's queue, and the next call is made by the task at some
        position `p` of the queue with `p` below the pool size, since the
        tasks ahead of it may all still be on a worker between leaving the
        queue and calling `process`.  Every item is processed exactly once;
        with a single thread, in list order.  `outcome` maps each index to
        whether its call threw, as its future will report. */
    method RunTasks(items: seq<FileToProcess>, poolSize: int) returns (outcome: map<nat, bool>)
      requires poolSize >= 1
      modifies pipeline
      ensures forall j :: 0 <= j < |items| ==> j in outcome && outcome[j] == (items[j] in pipeline.failing)
      ensures |pipeline.calls| == |old(pipeline.calls)| + |items|
      ensures pipeline.calls[..|old(pipeline.calls)|] == old(pipeline.calls)
      ensures multiset(pipeline.calls[|old(pipeline.calls)|..]) == multiset(items)
      ensures poolSize == 1 ==> pipeline.calls == old(pipeline.calls) + items
    {
      var start := pipeline.calls;
      var queue: seq<nat> := Range(0, |items|);
      outcome := map[];
      QueueStart(start, items, pipeline.failing);
      while queue != []
        invariant Waiting(items, queue, outcome, pipeline.failing)
        invariant Called(start, pipeline.calls, items, queue)
        invariant poolSize == 1 ==> InOrder(start, pipeline.calls, items, queue)
        decreases |queue|
      {
        var p :| 0 <= p < |queue| && p < poolSize;
        var j := queue[p];
        ghost var before := pipeline.calls;
        var thrown := pipeline.Process(items[j]);
        CalledStep(start, before, items, queue, p);
        WaitingStep(items, queue, outcome, pipeline.failing, p);
        outcome := outcome[j := thrown];
        if poolSize == 1 {
          InOrderStep(start, before, items, queue, p);
        }
        queue := queue[..p] + queue[p + 1..];
      }
      QueueDrained(start, pipeline.calls, items, outcome, pipeline.failing, poolSize == 1);
    }

    /** `execute(list, noOfThreads)`: an empty list makes no call.  Otherwise
        a pool of `min(size, noOfThreads)` threads is built, which throws
        `IllegalArgumentException` before any call when that is not positive;
        the tasks run, their futures are awaited in submission order, and the
        items whose call threw are logged, returned here in that order. */
    method ExecuteParallel(items: seq<FileToProcess>, noOfThreads: int)
      returns (r: Result<seq<FileToProcess>, JavaException>)
      modifies pipeline
      ensures items == [] ==> r == Success([]) && pipeline.calls == old(pipeline.calls)
      ensures items != [] && PoolSize(|items|, noOfThreads) < 1 ==>
                r.Failure? && r.error.IllegalArgument? && pipeline.calls == old(pipeline.calls)
      ensures items != [] && PoolSize(|items|, noOfThreads) >= 1 ==>
                r == Success(Failures(items, pipeline.failing))
                && |pipeline.calls| == |old(pipeline.calls)| + |items|
                && pipeline.calls[..|old(pipeline.calls)|] == old(pipeline.calls)
                && multiset(pipeline.calls[|old(pipeline.calls)|..]) == multiset(items)
      ensures items != [] && PoolSize(|items|, noOfThreads) == 1 ==>
                pipeline.calls == old(pipeline.calls) + items
    {
      if items == [] {
        return Success([]);
      }
      var poolSize := PoolSize(|items|, noOfThreads);
      if poolSize < 1 {
        return Failure(IllegalArgument("pool size must be positive"));
      }
      var outcome := RunTasks(items, poolSize);
      var failures := AwaitFutures(items, outcome, pipeline.failing);
      return Success(failures);
    }
  }

  /** The tasks still waiting, by index, in submission order; `outcome`
      holds the calls made so far, for exactly the other indices. */
  predicate Waiting(items: seq<FileToProcess>, queue: seq<nat>, outcome: map<nat, bool>, failing: set<FileToProcess>) {
    && (forall q :: 0 <= q < |queue| ==> queue[q] < |items|)
    && Increasing(queue)
    && (forall j :: 0 <= j < |items| ==> (j in outcome <==> j !in queue))
    && (forall j :: j in outcome ==> j < |items| && outcome[j] == (items[j] in failing))
  }

  /** The calls made since `start`, together with the waiting tasks' items,
      are the items submitted. */
  predicate Called(start: seq<FileToProcess>, calls: seq<FileToProcess>, items: seq<FileToProcess>, queue: seq<nat>)
    requires forall q :: 0 <= q < |queue| ==> queue[q] < |items|
  {
    |calls| >= |start| && calls[..|start|] == start
    && multiset(calls[|start|..]) + multiset(ItemsAt(items, queue)) == multiset(items)
  }

  /** On a single thread the tasks run in submission order: the calls made
      since `start` are the items before the first waiting one, and the queue
      holds the remaining indices in order. */
  predicate InOrder(start: seq<FileToProcess>, calls: seq<FileToProcess>, items: seq<FileToProcess>, queue: seq<nat>) {
    |queue| <= |items| && calls == start + items[..|items| - |queue|]
    && forall q :: 0 <= q < |queue| ==> queue[q] == |items| - |queue| + q
  }

  /** Before any task runs, every index waits in order and no call is made. */
  lemma QueueStart(start: seq<FileToProcess>, items: seq<FileToProcess>, failing: set<FileToProcess>)
    ensures Waiting(items, Range(0, |items|), map[], failing)
    ensures Called(start, start, items, Range(0, |items|))
    ensures InOrder(start, start, items, Range(0, |items|))
  {
    var queue := Range(0, |items|);
    forall j | 0 <= j < |items|
      ensures j in queue
    {
      assert queue[j] == j;
    }
    assert ItemsAt(items, queue) == items;
    assert start[|start|..] == [];
  }

  /** Once the queue is empty, every index has its outcome and every item
      has been processed, in list order when the calls were in order. */
  lemma QueueDrained(start: seq<FileToProcess>, calls: seq<FileToProcess>, items: seq<FileToProcess>,
                     outcome: map<nat, bool>, failing: set<FileToProcess>, inOrder: bool)
    requires Waiting(items, [], outcome, failing) && Called(start, calls, items, [])
    requires inOrder ==> InOrder(start, calls, items, [])
    ensures forall j :: 0 <= j < |items| ==> j in outcome && outcome[j] == (items[j] in failing)
    ensures |calls| == |start| + |items|
    ensures calls[..|start|] == start
    ensures multiset(calls[|start|..]) == multiset(items)
    ensures inOrder ==> calls == start + items
  {
    assert ItemsAt(items, []) == [];
    assert |calls[|start|..]| == |items| by {
      assert |multiset(calls[|start|..])| == |multiset(items)|;
    }
    if inOrder {
      assert items[..|items|] == items;
    }
  }

  /** The single worker takes the task at the head of the queue. */
  lemma InOrderStep(start: seq<FileToProcess>, before: seq<FileToProcess>, items: seq<FileToProcess>, queue: seq<nat>, p: nat)
    requires InOrder(start, before, items, queue) && queue != [] && p == 0
    ensures InOrder(start, before + [items[queue[p]]], items, queue[..p] + queue[p + 1..])
  {
    var k := |items| - |queue|;
    assert queue[..p] + queue[p + 1..] == queue[1..];
    assert items[..k + 1] == items[..k] + [items[k]];
  }

  /** One waiting task makes its call and leaves the queue. */
  lemma WaitingStep(items: seq<FileToProcess>, queue: seq<nat>, outcome: map<nat, bool>, failing: set<FileToProcess>, p: nat)
    requires Waiting(items, queue, outcome, failing) && p < |queue|
    ensures Waiting(items, queue[..p] + queue[p + 1..], outcome[queue[p] := items[queue[p]] in failing], failing)
  {
    RemoveFromIncreasing(queue, p);
  }

  /** The call of a waiting task is recorded once it leaves the queue. */
  lemma CalledStep(start: seq<FileToProcess>, before: seq<FileToProcess>, items: seq<FileToProcess>, queue: seq<nat>, p: nat)
    requires forall q :: 0 <= q < |queue| ==> queue[q] < |items|
    requires p < |queue| && Called(start, before, items, queue)
    ensures Called(start, before + [items[queue[p]]], items, queue[..p] + queue[p + 1..])
  {
    var x := items[queue[p]];
    assert (before + [x])[..|start|] == before[..|start|];
    assert (before + [x])[|start|..] == before[|start|..] + [x];
    ItemsAtRemove(items, queue, p);
  }

  /** Taking an index out of an increasing queue keeps it increasing, and
      that index no longer occurs in it. */
  lemma RemoveFromIncreasing(queue: seq<nat>, p: nat)
    requires Increasing(queue) && p < |queue|
    ensures Increasing(queue[..p] + queue[p + 1..])
    ensures queue[p] !in queue[..p] + queue[p + 1..]
    ensures forall x :: x in queue[..p] + queue[p + 1..] <==> x in queue && x != queue[p]
  {
    var rest := queue[..p] + queue[p + 1..];
    RemoveIndices(queue, p);
    forall a, b | 0 <= a < b < |rest| ensures rest[a] < rest[b] {
      assert rest[a] == queue[Skip(a, p)] && rest[b] == queue[Skip(b, p)];
    }
    forall q | 0 <= q < |rest| ensures rest[q] != queue[p] {
      assert rest[q] == queue[Skip(q, p)];
    }
    forall x | x in queue && x != queue[p] ensures x in rest {
      var q :| 0 <= q < |queue| && queue[q] == x;
      if q < p { assert rest[q] == x; } else { assert rest[q - 1] == x; }
    }
  }

  /** The queue position the `q`-th remaining item had before position `p`
      was taken out. */
  function Skip(q: nat, p: nat): (r: nat)
    ensures r == q || r == q + 1
    ensures q < p <==> r < p
    ensures r != p
  {
    if q < p then q else q + 1
  }

  /** Where each item of the queue goes once position `p` is taken out. */
  lemma RemoveIndices(queue: seq<nat>, p: nat)
    requires p < |queue|
    ensures var rest := queue[..p] + queue[p + 1..];
            |rest| == |queue| - 1 && forall q :: 0 <= q < |rest| ==> rest[q] == queue[Skip(q, p)]
  {
  }

  /** The loop over the futures, in submission order: each failed task is
      logged.  Only the futures are read, so nothing changes. */
  method AwaitFutures(items: seq<FileToProcess>, outcome: map<nat, bool>, failing: set<FileToProcess>)
    returns (failures: seq<FileToProcess>)
    requires forall j :: 0 <= j < |items| ==> j in outcome && outcome[j] == (items[j] in failing)
    ensures failures == Failures(items, failing)
  {
    failures := [];
    var i := 0;
    while i < |items|
      invariant 0 <= i <= |items|
      invariant failures == Failures(items[..i], failing)
    {
      assert items[..i + 1][..i] == items[..i];
      if outcome[i] {
        failures := failures + [items[i]];
      }
      i := i + 1;
    }
    assert items[..i] == items;
  }
}
