/**
 Running planned tasks on a fixed number of workers that drain one queue: the tasks first,
 then one stop marker for each worker. Tasks are named by their position in the plan.
 */
module Executor {
  import opened Wrappers
  import opened Counting

  datatype Item = Job(task: nat) | Stop

  datatype Worker = Idle | Running(task: nat) | Stopped

  // `unfinished` is the queue's count of items taken in but not yet marked done.
  datatype State = State(queue: seq<Item>, unfinished: int, workers: seq<Worker>, finished: seq<nat>,
    failures: seq<nat>)

  // Items `from`, `from + 1`, ... of the queue for n tasks and c workers.
  function Items(n: nat, c: nat, from: nat): (r: seq<Item>)
    requires from <= n + c
    ensures |r| == n + c - from
    ensures forall k {:trigger r[k]} :: 0 <= k < |r| ==> r[k] == if from + k < n then Job(from + k) else Stop
  {
    seq(n + c - from, k requires 0 <= k => if from + k < n then Job(from + k) else Stop)
  }

  // The task a worker is running, as a bag.
  ghost function Held(worker: Worker): multiset<nat> {
    if worker.Running? then multiset{worker.task} else multiset{}
  }

  ghost function RunningBag(workers: seq<Worker>): multiset<nat> {
    if workers == [] then multiset{}
    else
      RunningBag(workers[..|workers| - 1]) + Held(workers[|workers| - 1])
  }

  ghost function StoppedCount(workers: seq<Worker>): nat {
    if workers == [] then 0
    else StoppedCount(workers[..|workers| - 1]) + One(workers[|workers| - 1].Stopped?)
  }

  function Raising(tasks: seq<nat>, raises: nat -> bool): seq<nat> {
    if tasks == [] then []
    else
      var last := tasks[|tasks| - 1];
      Raising(tasks[..|tasks| - 1], raises) + if raises(last) then [last] else []
  }

  ghost function Numbers(n: nat): (r: multiset<nat>)
    ensures forall x: nat {:trigger r[x]} :: r[x] == if x < n then 1 else 0
  {
    if n == 0 then multiset{} else Numbers(n - 1) + multiset{n - 1}
  }

  // Some number of items was taken in order; the tasks among them are run or being run, each
  // once, and the stop markers among them stopped a worker each.
  ghost predicate Sound(st: State, n: nat, c: nat, raises: nat -> bool) {
    && |st.workers| == c && |st.queue| <= n + c
    && var taken := n + c - |st.queue|;
       && st.queue == Items(n, c, taken)
       && StoppedCount(st.workers) == Max(0, taken - n)
       && RunningBag(st.workers) + multiset(st.finished) == Numbers(Min(taken, n))
       && st.failures == Raising(st.finished, raises)
       && st.unfinished == |st.queue| + |RunningBag(st.workers)|
  }

  predicate CanTake(st: State, w: nat) {
    w < |st.workers| && st.workers[w].Idle? && st.queue != []
  }

  predicate CanFinish(st: State, w: nat) {
    w < |st.workers| && st.workers[w].Running?
  }

  function Take(st: State, w: nat): State
    requires CanTake(st, w)
  {
    var item := st.queue[0];
    st.(queue := st.queue[1..],
        workers := st.workers[w := if item.Stop? then Stopped else Running(item.task)],
        unfinished := if item.Stop? then st.unfinished - 1 else st.unfinished)
  }

  function Finish(st: State, w: nat, raised: bool): State
    requires CanFinish(st, w)
  {
    var task := st.workers[w].task;
    st.(workers := st.workers[w := Idle], unfinished := st.unfinished - 1, finished := st.finished + [task],
        failures := if raised then st.failures + [task] else st.failures)
  }

  lemma {:induction false} RunningUpdate(workers: seq<Worker>, w: nat, worker: Worker)
    requires w < |workers|
    ensures RunningBag(workers[w := worker]) + Held(workers[w]) == RunningBag(workers) + Held(worker)
  {
    hide Held;
    var last := |workers| - 1;
    var after := workers[w := worker];
    if w < last {
      assert after[..last] == workers[..last][w := worker];
      RunningUpdate(workers[..last], w, worker);
      Exchange(RunningBag(after[..last]), Held(workers[w]), RunningBag(workers[..last]), Held(worker),
        Held(workers[last]));
    } else {
      assert after[..last] == workers[..last];
    }
  }

  lemma Exchange(a: multiset<nat>, b: multiset<nat>, c: multiset<nat>, d: multiset<nat>, e: multiset<nat>)
    requires a + b == c + d
    ensures (a + e) + b == (c + e) + d
  {
    assert (a + e) + b == (a + b) + e;
    assert (c + e) + d == (c + d) + e;
  }

  lemma {:induction false} StoppedUpdate(workers: seq<Worker>, w: nat, worker: Worker)
    requires w < |workers|
    ensures StoppedCount(workers[w := worker]) + One(workers[w].Stopped?) ==
      StoppedCount(workers) + One(worker.Stopped?)
  {
    var last := |workers| - 1;
    if w < last {
      assert workers[w := worker][..last] == workers[..last][w := worker];
      StoppedUpdate(workers[..last], w, worker);
    } else {
      assert workers[w := worker][..last] == workers[..last];
    }
  }

  // A worker that picks a task up, or puts it down.
  lemma PicksUp(workers: seq<Worker>, w: nat, worker: Worker)
    requires w < |workers| && workers[w].Idle?
    ensures RunningBag(workers[w := worker]) == RunningBag(workers) + Held(worker)
    ensures |RunningBag(workers[w := worker])| == |RunningBag(workers)| + One(worker.Running?)
  {
    hide RunningBag;
    RunningUpdate(workers, w, worker);
    assert RunningBag(workers[w := worker]) + multiset{} == RunningBag(workers[w := worker]);
  }

  lemma PutsDown(workers: seq<Worker>, w: nat)
    requires w < |workers| && workers[w].Running?
    ensures RunningBag(workers[w := Idle]) + multiset{workers[w].task} == RunningBag(workers)
    ensures |RunningBag(workers[w := Idle])| + 1 == |RunningBag(workers)|
  {
    hide RunningBag;
    RunningUpdate(workers, w, Idle);
    assert RunningBag(workers) + multiset{} == RunningBag(workers);
  }

  lemma TakeKeepsSound(st: State, n: nat, c: nat, raises: nat -> bool, w: nat)
    requires Sound(st, n, c, raises) && CanTake(st, w)
    ensures Sound(Take(st, w), n, c, raises)
  {
    hide RunningBag, StoppedCount, Raising, Numbers;
    var taken := n + c - |st.queue|;
    var worker := Take(st, w).workers[w];
    PicksUp(st.workers, w, worker);
    StoppedUpdate(st.workers, w, worker);
    TakenItem(st.queue, n, c, taken);
    hide Items;
    if taken < n {
      TakenGrows(RunningBag(st.workers), multiset(st.finished), taken);
    } else {
      assert RunningBag(st.workers) + multiset{} == RunningBag(st.workers);
    }
  }

  lemma TakenItem(queue: seq<Item>, n: nat, c: nat, taken: nat)
    requires taken < n + c && queue == Items(n, c, taken)
    ensures queue[0] == (if taken < n then Job(taken) else Stop) && queue[1..] == Items(n, c, taken + 1)
  {
  }

  lemma TakenGrows(running: multiset<nat>, finished: multiset<nat>, taken: nat)
    requires running + finished == Numbers(taken)
    ensures running + multiset{taken} + finished == Numbers(taken + 1)
  {
  }

  lemma FinishKeepsSound(st: State, n: nat, c: nat, raises: nat -> bool, w: nat)
    requires Sound(st, n, c, raises) && CanFinish(st, w)
    ensures Sound(Finish(st, w, raises(st.workers[w].task)), n, c, raises)
  {
    hide RunningBag, StoppedCount;
    var task := st.workers[w].task;
    PutsDown(st.workers, w);
    StoppedUpdate(st.workers, w, Idle);
    assert (st.finished + [task])[..|st.finished|] == st.finished;
    var after := Finish(st, w, raises(task));
    assert RunningBag(after.workers) + multiset(after.finished) == RunningBag(st.workers) + multiset(st.finished);
  }

  // A worker takes its stop marker only when every task was taken.
  lemma StopAfterAllTasks(st: State, n: nat, c: nat, raises: nat -> bool, w: nat)
    requires Sound(st, n, c, raises) && CanTake(st, w)
    ensures st.queue[0].Stop? <==> RunningBag(st.workers) + multiset(st.finished) == Numbers(n)
    ensures st.queue[0].Job? ==> st.queue[0].task !in st.finished && st.queue[0].task !in RunningBag(st.workers)
  {
    hide RunningBag, StoppedCount, Raising;
    var taken := n + c - |st.queue|;
    var all := RunningBag(st.workers) + multiset(st.finished);
    if taken < n {
      assert all[taken] == 0 && Numbers(n)[taken] == 1;
      assert forall x :: x in st.finished ==> x in all;
    }
  }

  // While something is unfinished, some worker can move.
  lemma SomeWorkerCanMove(st: State, n: nat, c: nat, raises: nat -> bool)
    requires Sound(st, n, c, raises) && st.unfinished > 0 && c >= 1
    ensures exists w: nat :: CanTake(st, w) || CanFinish(st, w)
  {
    hide Raising;
    if st.queue == [] {
      var w := WorkerRunning(st.workers);
      assert CanFinish(st, w);
    } else {
      var w := WorkerNotStopped(st.workers);
      assert CanTake(st, w) || CanFinish(st, w);
    }
  }

  lemma {:induction false} WorkerRunning(workers: seq<Worker>) returns (w: nat)
    requires |RunningBag(workers)| > 0
    ensures w < |workers| && workers[w].Running?
  {
    var last := |workers| - 1;
    if workers[last].Running? {
      w := last;
    } else {
      w := WorkerRunning(workers[..last]);
    }
  }

  lemma {:induction false} WorkerNotStopped(workers: seq<Worker>) returns (w: nat)
    requires StoppedCount(workers) < |workers|
    ensures w < |workers| && !workers[w].Stopped?
  {
    var last := |workers| - 1;
    if !workers[last].Stopped? {
      w := last;
    } else {
      w := WorkerNotStopped(workers[..last]);
    }
  }

  lemma {:induction false} AllStopped(workers: seq<Worker>)
    requires StoppedCount(workers) >= |workers|
    ensures StoppedCount(workers) == |workers|
    ensures forall w {:trigger workers[w]} :: 0 <= w < |workers| ==> workers[w].Stopped?
  {
    StoppedAtMost(workers);
    if workers != [] {
      StoppedAtMost(workers[..|workers| - 1]);
      AllStopped(workers[..|workers| - 1]);
    }
  }

  lemma {:induction false} StoppedAtMost(workers: seq<Worker>)
    ensures StoppedCount(workers) <= |workers|
  {
    if workers != [] {
      StoppedAtMost(workers[..|workers| - 1]);
    }
  }

  // Once nothing is unfinished every task was run exactly once, every worker took exactly
  // one marker and stopped, and the failures are the tasks that raised.
  lemma DoneMeansAllRun(st: State, n: nat, c: nat, raises: nat -> bool)
    requires Sound(st, n, c, raises) && st.unfinished <= 0
    ensures st.queue == [] && multiset(st.finished) == Numbers(n)
    ensures forall w {:trigger st.workers[w]} :: 0 <= w < c ==> st.workers[w].Stopped?
    ensures forall task: nat {:trigger multiset(st.failures)[task]} ::
      multiset(st.failures)[task] == if task < n && raises(task) then 1 else 0
  {
    hide Raising, StoppedCount, RunningBag;
    AllStopped(st.workers);
    assert RunningBag(st.workers) == multiset{};
    assert RunningBag(st.workers) + multiset(st.finished) == multiset(st.finished);
    forall task: nat ensures multiset(st.failures)[task] == if task < n && raises(task) then 1 else 0 {
      RaisingCount(st.finished, raises, task);
      assert multiset(st.finished)[task] == Numbers(n)[task];
    }
  }

  lemma {:induction false} RaisingCount(tasks: seq<nat>, raises: nat -> bool, task: nat)
    ensures multiset(Raising(tasks, raises))[task] == if raises(task) then multiset(tasks)[task] else 0
  {
    if tasks != [] {
      var last := |tasks| - 1;
      RaisingCount(tasks[..last], raises, task);
      assert tasks == tasks[..last] + [tasks[last]];
    }
  }

  // ------------------------------------------------------------ the run

  class Execution {
    const taskCount: nat
    const concurrency: nat
    var queue: seq<Item>
    var unfinished: int
    var workers: seq<Worker>
    ghost var finished: seq<nat>
    var failures: seq<nat>

    ghost function Snapshot(): State
      reads this
    {
      State(queue, unfinished, workers, finished, failures)
    }

    ghost predicate Valid(raises: nat -> bool)
      reads this
    {
      Sound(Snapshot(), taskCount, concurrency, raises)
    }

    // Fills the queue and starts the workers.
    constructor (taskCount: nat, concurrency: nat)
      ensures this.taskCount == taskCount && this.concurrency == concurrency
      ensures forall raises :: Valid(raises)
    {
      this.taskCount, this.concurrency := taskCount, concurrency;
      var items: seq<Item> := [];
      for i := 0 to taskCount
        invariant |items| == i && forall k {:trigger items[k]} :: 0 <= k < i ==> items[k] == Job(k)
      {
        items := items + [Job(i)];
      }
      for i := 0 to concurrency
        invariant |items| == taskCount + i
        invariant forall k {:trigger items[k]} ::
          0 <= k < |items| ==> items[k] == if k < taskCount then Job(k) else Stop
      {
        items := items + [Stop];
      }
      queue, unfinished, finished, failures := items, |items|, [], [];
      workers := seq(concurrency, w => Idle);
      new;
      NobodyStarted(concurrency);
      assert queue == Items(taskCount, concurrency, 0);
    }

    // A worker's step up to the task it takes, or to its return at a stop marker.
    method TakeItem(w: nat, ghost raises: nat -> bool)
      requires Valid(raises) && CanTake(Snapshot(), w)
      modifies this
      ensures Valid(raises) && Snapshot() == Take(old(Snapshot()), w)
    {
      hide Sound;
      TakeKeepsSound(Snapshot(), taskCount, concurrency, raises, w);
      var item := queue[0];
      queue := queue[1..];
      match item {
        case Stop =>
          workers := workers[w := Stopped];
          unfinished := unfinished - 1;
        case Job(task) =>
          workers := workers[w := Running(task)];
      }
    }

    // The task ends; a raised error is noted, and the item is marked done either way.
    method EndTask(w: nat, raises: nat -> bool)
      requires Valid(raises) && CanFinish(Snapshot(), w)
      modifies this
      ensures Valid(raises) && Snapshot() == Finish(old(Snapshot()), w, raises(old(workers[w].task)))
    {
      hide Sound;
      FinishKeepsSound(Snapshot(), taskCount, concurrency, raises, w);
      var task := workers[w].task;
      if raises(task) {
        failures := failures + [task];
      }
      finished := finished + [task];
      workers := workers[w := Idle];
      unfinished := unfinished - 1;
    }
  }

  lemma {:induction false} NobodyStarted(c: nat)
    ensures var workers := seq(c, w => Idle); RunningBag(workers) == multiset{} && StoppedCount(workers) == 0
  {
    var workers := seq(c, w => Idle);
    if c > 0 {
      assert workers[..c - 1] == seq(c - 1, w => Idle);
      NobodyStarted(c - 1);
    }
  }

  // Workers move in any order until the queue reports all items done. Every task that raises
  // is reported exactly once, and nothing else is.
  method ExecutePlannedTasks(taskCount: nat, concurrency: nat, raises: nat -> bool) returns (failures: seq<nat>)
    requires concurrency >= 1
    ensures forall task: nat {:trigger multiset(failures)[task]} ::
      multiset(failures)[task] == if task < taskCount && raises(task) then 1 else 0
  {
    hide Sound;
    var run := new Execution(taskCount, concurrency);
    assert run.Valid(raises);
    while run.unfinished > 0
      invariant fresh(run) && run.taskCount == taskCount && run.concurrency == concurrency && run.Valid(raises)
      decreases 2 * |run.queue| + |RunningBag(run.workers)|
    {
      SomeWorkerCanMove(run.Snapshot(), taskCount, concurrency, raises);
      ghost var before := run.Snapshot();
      var w: nat :| w < |run.workers| && (run.workers[w].Running? || (run.workers[w].Idle? && run.queue != []));
      MoveShrinks(before, w);
      if run.workers[w].Idle? {
        run.TakeItem(w, raises);
      } else {
        run.EndTask(w, raises);
      }
    }
    DoneMeansAllRun(run.Snapshot(), taskCount, concurrency, raises);
    return run.failures;
  }

  lemma MoveShrinks(st: State, w: nat)
    requires CanTake(st, w) || CanFinish(st, w)
    ensures CanTake(st, w) ==>
      2 * |Take(st, w).queue| + |RunningBag(Take(st, w).workers)| < 2 * |st.queue| + |RunningBag(st.workers)|
    ensures CanFinish(st, w) ==>
      forall raised :: 2 * |Finish(st, w, raised).queue| + |RunningBag(Finish(st, w, raised).workers)| <
        2 * |st.queue| + |RunningBag(st.workers)|
  {
    hide RunningBag;
    if CanTake(st, w) {
      PicksUp(st.workers, w, Take(st, w).workers[w]);
    } else {
      PutsDown(st.workers, w);
    }
  }

  // How many workers are started; a bound that is not positive is an error.
  function ResolveSubmitConcurrency(maxConcurrentRequests: int, taskCount: nat): (r: Option<nat>)
    ensures r.None? <==> maxConcurrentRequests <= 0
    ensures r.Some? ==> 1 <= r.value <= maxConcurrentRequests && (taskCount >= 1 ==> r.value <= taskCount)
    ensures r.Some? && r.value < maxConcurrentRequests ==> r.value == Max(1, taskCount)
  {
    if maxConcurrentRequests <= 0 then None else Some(Max(1, Min(maxConcurrentRequests, taskCount)))
  }
}
