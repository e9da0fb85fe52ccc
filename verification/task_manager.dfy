/**
 The server's task manager as atomic steps between awaits: tasks are submitted to a queue,
 a dispatcher starts a processor for each, processors share a semaphore, waiters sleep until
 their task's event or the manager's wake-up fires, and finished tasks are evicted by age.
 */
module TaskManager {
  import opened Wrappers
  import opened Counting

  type TaskId = string

  datatype Status = Pending | Processing | Completed | Failed

  datatype Task = Task(status: Status, submitOrder: int, completedAt: Option<int>)

  // How far a processor is: not started, at the semaphore, or running its job.
  datatype Stage = Created | Waiting | Running

  datatype Outcome = Returned(task: Task) | NotFound | NoHandle | Removed | ShuttingDown | Unavailable

  // `events` are the registered event handles, `fired` every event object that is set, a
  // removed one included. `used` remembers the ids handed out, which are never reused.
  datatype State = State(
    limit: nat, retention: int,
    tasks: map<TaskId, Task>, events: set<TaskId>, fired: set<TaskId>, used: set<TaskId>,
    queue: seq<TaskId>, processors: map<TaskId, Stage>, nextSubmitOrder: int,
    dispatching: bool, shuttingDown: bool, stopped: bool, woken: bool,
    waiters: map<nat, TaskId>, outcomes: map<nat, Outcome>)

  datatype Event =
    | Submit(id: TaskId)
    | Dispatch
    | LookUp(id: TaskId)
    | Acquire(id: TaskId)
    | Finish(id: TaskId, ok: bool, now: int)
    | Cleanup(now: int)
    | BeginWait(waiter: nat, id: TaskId)
    | Resume(waiter: nat)
    | AbandonWait(waiter: nat)
    | Crash(lost: bool)
    | BeginShutdown
    | CancelProcessors

  predicate Terminal(status: Status) {
    status.Completed? || status.Failed?
  }

  function Start(limit: nat, retention: int): State {
    State(limit, retention, map[], {}, {}, {}, [], map[], 1, true, false, false, false, map[], map[])
  }

  function RunningIds(s: State): set<TaskId> {
    set id | id in s.processors && s.processors[id].Running?
  }

  function ProcessingIds(s: State): set<TaskId> {
    set id | id in s.tasks && s.tasks[id].status.Processing?
  }

  predicate Expired(task: Task, now: int, retention: int) {
    Terminal(task.status) && task.completedAt.Some? && now - task.completedAt.value >= retention
  }

  function ExpiredIds(s: State, now: int): set<TaskId> {
    if s.retention <= 0 then {} else set id | id in s.tasks && Expired(s.tasks[id], now, s.retention)
  }

  // The answer given before any waiting, if there is one.
  function Asked(s: State, id: TaskId): Option<Outcome> {
    if id !in s.tasks then Some(NotFound)
    else if Terminal(s.tasks[id].status) then Some(Returned(s.tasks[id]))
    else if id !in s.events then Some(NoHandle)
    else None
  }

  // What a waiter finds when it looks its task up after waking.
  function Found(s: State, id: TaskId): Outcome {
    if id !in s.tasks then (if s.shuttingDown then ShuttingDown else Removed)
    else if Terminal(s.tasks[id].status) then Returned(s.tasks[id])
    else if s.shuttingDown then ShuttingDown
    else Unavailable
  }

  predicate Enabled(s: State, e: Event) {
    match e
    case Submit(id) => id !in s.used
    case Dispatch => s.dispatching && s.queue != []
    case LookUp(id) => id in s.processors && s.processors[id].Created?
    case Acquire(id) => id in s.processors && s.processors[id].Waiting? && |RunningIds(s)| < s.limit
    case Finish(id, _, _) => id in s.processors && s.processors[id].Running? && id in s.tasks
    case Cleanup(_) => true
    case BeginWait(w, _) => w !in s.waiters && w !in s.outcomes
    case Resume(w) => w in s.waiters && (s.waiters[w] in s.fired || s.woken)
    case AbandonWait(w) => w in s.waiters
    case Crash(lost) => s.dispatching && (lost ==> s.queue != [])
    case BeginShutdown => true
    case CancelProcessors => s.shuttingDown
  }

  function Step(s: State, e: Event): State
    requires Enabled(s, e)
  {
    match e
    case Submit(id) =>
      s.(tasks := s.tasks[id := Task(Pending, s.nextSubmitOrder, None)], nextSubmitOrder := s.nextSubmitOrder + 1,
         events := s.events + {id}, queue := s.queue + [id], used := s.used + {id})
    case Dispatch =>
      s.(queue := s.queue[1..], processors := s.processors[s.queue[0] := Created])
    case LookUp(id) =>
      s.(processors := if id in s.tasks then s.processors[id := Waiting] else s.processors - {id})
    case Acquire(id) =>
      var task := if id in s.tasks then s.tasks[id].(status := Processing) else Task(Processing, 0, None);
      s.(processors := s.processors[id := Running], tasks := s.tasks[id := task])
    case Finish(id, ok, now) =>
      s.(processors := s.processors - {id},
         tasks := s.tasks[id := s.tasks[id].(status := if ok then Completed else Failed, completedAt := Some(now))],
         fired := if id in s.events then s.fired + {id} else s.fired)
    case Cleanup(now) =>
      var expired := ExpiredIds(s, now);
      s.(tasks := s.tasks - expired, fired := s.fired + (s.events * expired), events := s.events - expired)
    case BeginWait(w, id) =>
      var asked := Asked(s, id);
      s.(outcomes := if asked.Some? then s.outcomes[w := asked.value] else s.outcomes,
         waiters := if asked.None? then s.waiters[w := id] else s.waiters)
    case Resume(w) =>
      s.(waiters := s.waiters - {w}, outcomes := s.outcomes[w := Found(s, s.waiters[w])])
    case AbandonWait(w) =>
      s.(waiters := s.waiters - {w})
    case Crash(lost) =>
      s.(dispatching := false, woken := true, fired := s.fired + s.events,
          queue := if lost then s.queue[1..] else s.queue)
    case BeginShutdown =>
      s.(dispatching := false, woken := true, fired := s.fired + s.events, shuttingDown := true)
    case CancelProcessors =>
      s.(processors := map[], stopped := true)
  }

  // Whether a run of steps can happen from a state.
  predicate CanRun(s: State, run: seq<Event>)
    decreases |run|, 0
  {
    run == [] || (CanRun(s, run[..|run| - 1]) && Enabled(After(s, run[..|run| - 1]), run[|run| - 1]))
  }

  function After(s: State, run: seq<Event>): State
    requires CanRun(s, run)
    decreases |run|, 1
  {
    if run == [] then s else Step(After(s, run[..|run| - 1]), run[|run| - 1])
  }

  // --------------------------------------------------------- invariants

  // Tasks, handles and ids.
  ghost predicate SameKeys(s: State) {
    && s.tasks.Keys == s.events
    && s.tasks.Keys <= s.used
    && (forall id {:trigger id in s.fired} :: id in s.fired ==> id in s.used)
    && (forall id {:trigger id in s.fired} :: id in s.used && id !in s.tasks ==> id in s.fired)
  }

  // An event is set exactly when its task is terminal or everyone was woken.
  ghost predicate EventsRight(s: State) {
    forall id {:trigger id in s.fired} {:trigger s.tasks[id]} :: id in s.tasks ==>
      (Terminal(s.tasks[id].status) ==> id in s.fired && s.tasks[id].completedAt.Some?)
      && (id in s.fired ==> Terminal(s.tasks[id].status) || s.woken)
  }

  // Who is responsible for a task that is not finished.
  ghost predicate OwnersRight(s: State) {
    && Distinct(s.queue)
    && (forall id {:trigger id in s.queue} :: id in s.queue ==>
          id in s.tasks && s.tasks[id].status.Pending? && id !in s.processors)
    && (forall id {:trigger s.processors[id]} :: id in s.processors ==>
          id in s.tasks
          && (if s.processors[id].Running? then s.tasks[id].status.Processing? else s.tasks[id].status.Pending?))
    && (!s.woken ==> forall id {:trigger s.tasks[id]} :: id in s.tasks && s.tasks[id].status.Pending? ==>
          id in s.queue || id in s.processors)
    && (!s.stopped ==> forall id {:trigger s.tasks[id]} :: id in s.tasks && s.tasks[id].status.Processing? ==>
          id in s.processors)
  }

  ghost predicate FlagsRight(s: State) {
    && (s.stopped ==> s.shuttingDown && s.processors == map[])
    && (s.shuttingDown ==> s.woken)
    && (!s.woken ==> s.dispatching)
    && (s.woken ==> !s.dispatching)
  }

  // Submission orders are distinct and below the next one to be given.
  ghost predicate OrdersRight(tasks: map<TaskId, Task>, next: int) {
    && next >= 1
    && (forall id {:trigger tasks[id]} :: id in tasks ==> 0 < tasks[id].submitOrder < next)
    && (forall id, other {:trigger tasks[id], tasks[other]} :: id in tasks && other in tasks && id != other ==>
          tasks[id].submitOrder != tasks[other].submitOrder)
  }

  ghost predicate WaitersRight(s: State) {
    && (forall w {:trigger s.waiters[w]} :: w in s.waiters ==> s.waiters[w] in s.used)
    && (forall w {:trigger s.outcomes[w]} :: w in s.outcomes ==> OutcomeRight(s, s.outcomes[w]))
  }

  // A normal return carries a finished task, no handle is ever missing, and a waiter is
  // turned away from a task still in work only after everyone was woken.
  ghost predicate OutcomeRight(s: State, outcome: Outcome) {
    match outcome
    case Returned(task) => Terminal(task.status)
    case NoHandle => false
    case ShuttingDown => s.shuttingDown
    case Unavailable => s.woken
    case _ => true
  }

  ghost predicate Sound(s: State) {
    && SameKeys(s) && EventsRight(s) && OwnersRight(s) && FlagsRight(s)
      && OrdersRight(s.tasks, s.nextSubmitOrder) && WaitersRight(s)
    && |ProcessingIds(s)| <= s.limit
  }

  lemma StartSound(limit: nat, retention: int)
    ensures Sound(Start(limit, retention))
  {
    assert ProcessingIds(Start(limit, retention)) == {};
  }

  predicate TouchesTasks(e: Event) {
    e.Submit? || e.Acquire? || e.Finish? || e.Cleanup?
  }

  predicate TouchesWaiters(e: Event) {
    e.BeginWait? || e.Resume? || e.AbandonWait?
  }

  lemma QuietStep(s: State, e: Event)
    requires Enabled(s, e) && !TouchesTasks(e)
    ensures Step(s, e).tasks == s.tasks && Step(s, e).nextSubmitOrder == s.nextSubmitOrder
    ensures Step(s, e).events == s.events && Step(s, e).used == s.used
    ensures Step(s, e).fired == if e.Crash? || e.BeginShutdown? then s.fired + s.events else s.fired
  {
    hide RunningIds, ExpiredIds, Found, Terminal;
    match e
    case Dispatch => assert Step(s, Dispatch) ==
      s.(queue := s.queue[1..], processors := s.processors[s.queue[0] := Created]);
    case LookUp(id) => return;
    case BeginWait(w, id) => return;
    case Resume(w) => return;
    case AbandonWait(w) => return;
    case Crash(lost) => return;
    case BeginShutdown => return;
    case CancelProcessors => return;
  }

  lemma UnseenStep(s: State, e: Event)
    requires Enabled(s, e) && !TouchesWaiters(e)
    ensures Step(s, e).waiters == s.waiters && Step(s, e).outcomes == s.outcomes
    ensures s.used <= Step(s, e).used && (s.woken ==> Step(s, e).woken) && (s.shuttingDown ==> Step(s, e).shuttingDown)
  {
  }

  lemma KeysKept(s: State, e: Event)
    requires Sound(s) && Enabled(s, e)
    ensures SameKeys(Step(s, e))
  {
    hide WaitersRight, OrdersRight, Distinct, FlagsRight, EventsRight;
    if e.Acquire? {
      assert e.id in s.tasks;
    }
    hide OwnersRight;
    if !TouchesTasks(e) {
      QuietStep(s, e);
      hide Step, Enabled;
    }
  }

  lemma EventsKept(s: State, e: Event)
    requires Sound(s) && Enabled(s, e)
    ensures EventsRight(Step(s, e))
  {
    hide WaitersRight, OrdersRight, Distinct, FlagsRight;
    if e.Acquire? {
      assert e.id in s.tasks;
    }
    hide OwnersRight;
  }

  lemma OwnersKept(s: State, e: Event)
    requires Sound(s) && Enabled(s, e)
    ensures OwnersRight(Step(s, e))
  {
    hide WaitersRight, OrdersRight, EventsRight, SameKeys;
    if e.Submit? {
      SubmitKeepsOwners(s, e.id);
    } else if TouchesTasks(e) {
      OwnedStep(s, e);
    } else if e.Dispatch? || e.Crash? || e.LookUp? {
      HandOver(s, e);
    } else {
      hide Distinct;
    }
  }

  lemma OwnedStep(s: State, e: Event)
    requires Sound(s) && Enabled(s, e) && TouchesTasks(e) && !e.Submit?
    ensures OwnersRight(Step(s, e))
  {
    hide WaitersRight, OrdersRight, EventsRight, SameKeys, Distinct;
  }

  lemma HandOver(s: State, e: Event)
    requires Sound(s) && Enabled(s, e) && (e.Dispatch? || e.Crash? || e.LookUp?)
    ensures OwnersRight(Step(s, e))
  {
    hide WaitersRight, OrdersRight, EventsRight, SameKeys;
    if e.Dispatch? || (e.Crash? && e.lost) {
      QueueFront(s.queue);
    }
  }

  lemma SubmitKeepsOwners(s: State, id: TaskId)
    requires Sound(s) && Enabled(s, Submit(id))
    ensures OwnersRight(Step(s, Submit(id)))
  {
    hide WaitersRight, OrdersRight, EventsRight;
    assert id !in s.tasks && id !in s.queue && id !in s.processors;
    var queue := s.queue + [id];
    assert forall x :: x in queue <==> x in s.queue || x == id;
    assert Distinct(queue);
  }

  lemma QueueFront(queue: seq<TaskId>)
    requires queue != [] && Distinct(queue)
    ensures Distinct(queue[1..]) && queue[0] in queue
    ensures forall id {:trigger id in queue[1..]} {:trigger id in queue} ::
      id in queue[1..] <==> id in queue && id != queue[0]
  {
    assert queue == [queue[0]] + queue[1..];
  }

  lemma FlagsKept(s: State, e: Event)
    requires Sound(s) && Enabled(s, e)
    ensures FlagsRight(Step(s, e))
  {
    hide SameKeys, WaitersRight, EventsRight, OrdersRight, Distinct;
  }

  lemma OrdersKept(s: State, e: Event)
    requires Sound(s) && Enabled(s, e)
    ensures OrdersRight(Step(s, e).tasks, Step(s, e).nextSubmitOrder)
  {
    hide SameKeys, WaitersRight, EventsRight, Distinct, FlagsRight, OrdersRight;
    if TouchesTasks(e) {
      if e.Acquire? {
        assert e.id in s.tasks;
      }
      hide OwnersRight;
      match e
      case Submit(id) => OrdersAdd(s.tasks, s.nextSubmitOrder, id);
      case Acquire(id) => OrdersUpdate(s.tasks, s.nextSubmitOrder, id, Step(s, e).tasks[id]);
      case Finish(id, _, _) => OrdersUpdate(s.tasks, s.nextSubmitOrder, id, Step(s, e).tasks[id]);
      case Cleanup(now) => OrdersRemove(s.tasks, s.nextSubmitOrder, ExpiredIds(s, now));
    } else {
      QuietStep(s, e);
    }
  }

  lemma OrdersAdd(tasks: map<TaskId, Task>, next: int, id: TaskId)
    requires OrdersRight(tasks, next)
    ensures OrdersRight(tasks[id := Task(Pending, next, None)], next + 1)
  {
  }

  lemma OrdersUpdate(tasks: map<TaskId, Task>, next: int, id: TaskId, task: Task)
    requires OrdersRight(tasks, next) && id in tasks && task.submitOrder == tasks[id].submitOrder
    ensures OrdersRight(tasks[id := task], next)
  {
  }

  lemma OrdersRemove(tasks: map<TaskId, Task>, next: int, gone: set<TaskId>)
    requires OrdersRight(tasks, next)
    ensures OrdersRight(tasks - gone, next)
  {
  }

  lemma WaitersKept(s: State, e: Event)
    requires Sound(s) && Enabled(s, e)
    ensures WaitersRight(Step(s, e))
  {
    hide OrdersRight, OwnersRight;
    if TouchesWaiters(e) {
      hide EventsRight;
      if e.Resume? {
        ResumeFinds(s, e.waiter);
      }
    } else {
      UnseenStep(s, e);
      hide Step, Enabled, SameKeys, EventsRight;
    }
  }

  // A waiter that wakes finds a finished task, or the manager has woken everyone, or the
  // task was finished and evicted since.
  lemma ResumeFinds(s: State, w: nat)
    requires Sound(s) && Enabled(s, Resume(w))
    ensures OutcomeRight(s, Found(s, s.waiters[w]))
    ensures !s.woken ==>
      Found(s, s.waiters[w]).Returned? || (Found(s, s.waiters[w]).Removed? && s.waiters[w] !in s.tasks)
  {
    hide OrdersRight, OwnersRight;
  }

  lemma LimitKept(s: State, e: Event)
    requires Sound(s) && Enabled(s, e)
    ensures |ProcessingIds(Step(s, e))| <= Step(s, e).limit
  {
    hide SameKeys, WaitersRight, EventsRight, OrdersRight, Distinct;
    if e.Acquire? {
      AcquireKeepsLimit(s, e.id);
    } else if !TouchesTasks(e) {
      QuietStep(s, e);
      hide Step;
    } else {
      hide OwnersRight, FlagsRight;
      var s' := Step(s, e);
      assert ProcessingIds(s') <= ProcessingIds(s);
      SubsetSize(ProcessingIds(s'), ProcessingIds(s));
    }
  }

  lemma AcquireKeepsLimit(s: State, id: TaskId)
    requires Sound(s) && Enabled(s, Acquire(id))
    ensures |ProcessingIds(Step(s, Acquire(id)))| <= s.limit
  {
    hide SameKeys, WaitersRight, EventsRight, OrdersRight, Distinct;
    assert ProcessingIds(s) == RunningIds(s);
    assert ProcessingIds(Step(s, Acquire(id))) == ProcessingIds(s) + {id};
  }

  lemma StepKeepsSound(s: State, e: Event)
    requires Sound(s) && Enabled(s, e)
    ensures Sound(Step(s, e))
  {
    hide SameKeys, EventsRight, OwnersRight, FlagsRight, OrdersRight, WaitersRight, Step;
    KeysKept(s, e);
    EventsKept(s, e);
    OwnersKept(s, e);
    FlagsKept(s, e);
    OrdersKept(s, e);
    WaitersKept(s, e);
    LimitKept(s, e);
  }

  // Every state reached after one start is sound.
  lemma {:induction false} RunIsSound(limit: nat, retention: int, run: seq<Event>)
    requires CanRun(Start(limit, retention), run)
    ensures Sound(After(Start(limit, retention), run))
  {
    hide Sound;
    if run == [] {
      StartSound(limit, retention);
    } else {
      var last := |run| - 1;
      RunIsSound(limit, retention, run[..last]);
      StepKeepsSound(After(Start(limit, retention), run[..last]), run[last]);
    }
  }

  // ------------------------------------------------------- whole runs

  predicate MovesTo(a: Status, b: Status) {
    a == b || (a.Pending? && b.Processing?) || (a.Processing? && Terminal(b))
  }

  function Rank(status: Status): nat {
    if status.Pending? then 0 else if status.Processing? then 1 else 2
  }

  // One step of the system moves a status one stage on at most, evicts finished tasks only,
  // and never brings an id back.
  lemma StepMoves(s: State, e: Event, id: TaskId)
    requires Sound(s) && Enabled(s, e) && id in s.used
    ensures var s' := Step(s, e);
      && id in s'.used
      && (id in s'.tasks ==>
            && id in s.tasks && s'.tasks[id].submitOrder == s.tasks[id].submitOrder
            && MovesTo(s.tasks[id].status, s'.tasks[id].status)
            && (Terminal(s.tasks[id].status) ==> s'.tasks[id] == s.tasks[id]))
      && (id in s.tasks && id !in s'.tasks ==> Terminal(s.tasks[id].status))
  {
    hide EventsRight, OrdersRight, WaitersRight, Distinct, FlagsRight;
    if TouchesTasks(e) {
      if e.Acquire? {
        assert e.id in s.tasks;
      }
      if e.Finish? {
        assert e.id in s.processors;
      }
    } else {
      QuietStep(s, e);
      hide Step;
    }
  }

  lemma {:induction false} RunKeepsSound(s: State, run: seq<Event>)
    requires Sound(s) && CanRun(s, run)
    ensures Sound(After(s, run))
  {
    hide Sound;
    if run != [] {
      RunKeepsSound(s, run[..|run| - 1]);
      StepKeepsSound(After(s, run[..|run| - 1]), run[|run| - 1]);
    }
  }

  // Over any run a status only moves forward and a finished task never changes; a task that
  // left was finished at some point of the run, and stays away.
  lemma {:induction false} RunMoves(s: State, run: seq<Event>, id: TaskId)
    requires Sound(s) && CanRun(s, run) && id in s.used
    ensures var s' := After(s, run);
      && id in s'.used
      && (id in s'.tasks ==>
            && id in s.tasks && s'.tasks[id].submitOrder == s.tasks[id].submitOrder
            && Rank(s.tasks[id].status) <= Rank(s'.tasks[id].status)
            && (Terminal(s.tasks[id].status) ==> s'.tasks[id] == s.tasks[id]))
      && (id in s.tasks && id !in s'.tasks ==> FinishedDuring(s, run, id))
  {
    hide Sound;
    if run != [] {
      var last := |run| - 1;
      RunMoves(s, run[..last], id);
      RunKeepsSound(s, run[..last]);
      var mid := After(s, run[..last]);
      StepMoves(mid, run[last], id);
      hide Step;
      if id in s.tasks && id !in After(s, run).tasks {
        if id in mid.tasks {
          assert FinishedAt(s, run, last, id);
        } else {
          var k: nat :| FinishedAt(s, run[..last], k, id);
          assert run[..last][..k] == run[..k];
          assert FinishedAt(s, run, k, id);
        }
      }
    } else {
      hide Step;
    }
  }

  ghost predicate FinishedAt(s: State, run: seq<Event>, k: nat, id: TaskId) {
    && k <= |run| && CanRun(s, run[..k]) && id in After(s, run[..k]).tasks
    && Terminal(After(s, run[..k]).tasks[id].status)
  }

  ghost predicate FinishedDuring(s: State, run: seq<Event>, id: TaskId) {
    exists k: nat :: FinishedAt(s, run, k, id)
  }

  // ---------------------------------------------------- what a run decides

  // The task ended at this time, by its job returning or by its job raising.
  predicate Ended(s: State, id: TaskId, ok: bool, now: int) {
    id in s.tasks && s.tasks[id].completedAt == Some(now) && s.tasks[id].status == if ok then Completed else Failed
  }

  lemma EndedStep(s: State, e: Event, id: TaskId, ok: bool, now: int)
    requires Sound(s) && Enabled(s, e)
    ensures Ended(Step(s, e), id, ok, now) <==>
      e == Finish(id, ok, now) || (Ended(s, id, ok, now) && id in Step(s, e).tasks)
  {
    hide EventsRight, OrdersRight, WaitersRight, Distinct, FlagsRight;
    if TouchesTasks(e) {
      if e.Acquire? || e.Finish? {
        assert e.id in s.processors && e.id in s.tasks;
      }
    } else {
      QuietStep(s, e);
      hide Step;
    }
  }

  lemma StaysUsed(s: State, e: Event, id: TaskId)
    requires Sound(s) && Enabled(s, e)
    ensures id in s.used ==> id in Step(s, e).used
    ensures e.Finish? && e.id == id ==> id in s.used
    ensures id in Step(s, e).tasks && id !in s.tasks ==> e == Submit(id) && id !in s.used
  {
    hide EventsRight, OrdersRight, WaitersRight, Distinct, FlagsRight;
    if TouchesTasks(e) {
      if e.Acquire? {
        assert e.id in s.tasks;
      }
    } else {
      QuietStep(s, e);
      hide Step;
    }
  }

  ghost predicate FinishedIn(run: seq<Event>, id: TaskId) {
    exists ok, now :: Finish(id, ok, now) in run
  }

  lemma {:induction false} FinishedUsed(limit: nat, retention: int, run: seq<Event>, id: TaskId)
    requires CanRun(Start(limit, retention), run) && FinishedIn(run, id)
    ensures id in After(Start(limit, retention), run).used
  {
    hide Sound, Step, Enabled;
    var last := |run| - 1;
    var ok, now :| Finish(id, ok, now) in run;
    assert run == run[..last] + [run[last]];
    RunIsSound(limit, retention, run[..last]);
    StaysUsed(After(Start(limit, retention), run[..last]), run[last], id);
    if run[last] != Finish(id, ok, now) {
      assert FinishedIn(run[..last], id);
      FinishedUsed(limit, retention, run[..last], id);
    }
  }

  // Over any run a stored task is completed, or failed, with an end time exactly if its job
  // returned, or raised, at that time.
  lemma {:induction false} EndedByRun(limit: nat, retention: int, run: seq<Event>, id: TaskId, ok: bool, now: int)
    requires CanRun(Start(limit, retention), run)
    ensures var tasks := After(Start(limit, retention), run).tasks;
      id in tasks && tasks[id].completedAt == Some(now) && tasks[id].status == (if ok then Completed else Failed)
      <==> Finish(id, ok, now) in run && id in tasks
  {
    hide Sound, Step, Enabled;
    if run != [] {
      var last := |run| - 1;
      var s := After(Start(limit, retention), run[..last]);
      assert run == run[..last] + [run[last]];
      RunIsSound(limit, retention, run[..last]);
      EndedByRun(limit, retention, run[..last], id, ok, now);
      EndedStep(s, run[last], id, ok, now);
      StaysUsed(s, run[last], id);
      if Finish(id, ok, now) in run[..last] {
        assert FinishedIn(run[..last], id);
        FinishedUsed(limit, retention, run[..last], id);
      }
    }
  }

  // No task ends twice.
  lemma EndsOnce(limit: nat, retention: int, run: seq<Event>, i: nat, j: nat)
    requires CanRun(Start(limit, retention), run) && i < j < |run| && run[i].Finish? && run[j].Finish?
    ensures run[i].id != run[j].id
  {
    hide Sound, Step;
    var id := run[i].id;
    RunPrefix(Start(limit, retention), run, j);
    var s := After(Start(limit, retention), run[..j]);
    RunIsSound(limit, retention, run[..j]);
    assert run[..j][i] == Finish(id, run[i].ok, run[i].now);
    EndedByRun(limit, retention, run[..j], id, run[i].ok, run[i].now);
    if run[j].id == id {
      WorkInHand(s, id);
      assert false;
    }
  }

  lemma WorkInHand(s: State, id: TaskId)
    requires Sound(s) && id in s.processors && s.processors[id].Running?
    ensures id in s.tasks && s.tasks[id].status.Processing?
  {
    hide EventsRight, OrdersRight, WaitersRight, Distinct, FlagsRight, SameKeys;
  }

  // Every step of a run was enabled when it came.
  lemma {:induction false} RunPrefix(s: State, run: seq<Event>, k: nat)
    requires CanRun(s, run) && k < |run|
    ensures CanRun(s, run[..k]) && Enabled(After(s, run[..k]), run[k])
    ensures CanRun(s, run[..k + 1]) && After(s, run[..k + 1]) == Step(After(s, run[..k]), run[k])
  {
    hide Step, Enabled;
    assert run[..k + 1][..k] == run[..k];
    if k < |run| - 1 {
      RunPrefix(s, run[..|run| - 1], k);
      assert run[..|run| - 1][..k] == run[..k] && run[..|run| - 1][..k + 1] == run[..k + 1];
    } else {
      assert run[..k + 1] == run;
    }
  }

  // A stored task is evicted exactly by a cleanup, with a retention, at least so long after its
  // job returned or raised.
  lemma EvictedByRun(limit: nat, retention: int, run: seq<Event>, k: nat, id: TaskId)
    requires CanRun(Start(limit, retention), run) && k < |run|
    requires CanRun(Start(limit, retention), run[..k]) && CanRun(Start(limit, retention), run[..k + 1])
    requires id in After(Start(limit, retention), run[..k]).tasks
    ensures id !in After(Start(limit, retention), run[..k + 1]).tasks <==>
      run[k].Cleanup? && retention > 0
      && exists ok, now :: Finish(id, ok, now) in run[..k] && run[k].now - now >= retention
  {
    hide Sound, Step, Enabled;
    RunPrefix(Start(limit, retention), run, k);
    RunIsSound(limit, retention, run[..k]);
    KeepsRetention(limit, retention, run[..k]);
    var s := After(Start(limit, retention), run[..k]);
    GoneStep(s, run[k], id);
    if ok, now :| Finish(id, ok, now) in run[..k] && run[k].Cleanup? && run[k].now - now >= retention {
      EndedByRun(limit, retention, run[..k], id, ok, now);
    }
    if id !in Step(s, run[k]).tasks {
      var ok, now := s.tasks[id].status == Completed, s.tasks[id].completedAt.value;
      EndedByRun(limit, retention, run[..k], id, ok, now);
      assert Finish(id, ok, now) in run[..k];
    }
  }

  lemma {:induction false} KeepsRetention(limit: nat, retention: int, run: seq<Event>)
    requires CanRun(Start(limit, retention), run)
    ensures After(Start(limit, retention), run).retention == retention
    ensures After(Start(limit, retention), run).limit == limit
  {
    hide Step, Enabled;
    if run != [] {
      KeepsRetention(limit, retention, run[..|run| - 1]);
      SettingsKept(After(Start(limit, retention), run[..|run| - 1]), run[|run| - 1]);
    }
  }

  lemma SettingsKept(s: State, e: Event)
    requires Enabled(s, e)
    ensures Step(s, e).retention == s.retention && Step(s, e).limit == s.limit
  {
    hide RunningIds, ExpiredIds, Found, Terminal;
  }

  lemma GoneStep(s: State, e: Event, id: TaskId)
    requires Sound(s) && Enabled(s, e) && id in s.tasks
    ensures id !in Step(s, e).tasks <==>
      && e.Cleanup? && s.retention > 0 && (s.tasks[id].status == Completed || s.tasks[id].status == Failed)
      && s.tasks[id].completedAt.Some? && e.now - s.tasks[id].completedAt.value >= s.retention
  {
    hide EventsRight, OrdersRight, WaitersRight, Distinct, FlagsRight;
    if e.Cleanup? {
      hide OwnersRight;
    } else if TouchesTasks(e) {
    } else {
      QuietStep(s, e);
      hide Step;
    }
  }

  // A sleeping waiter asked for its task, and an answer that carries a task carries the outcome of
  // the job of the task that was asked for.
  lemma {:induction false} AnswersAreOutcomes(limit: nat, retention: int, run: seq<Event>, w: nat)
    requires CanRun(Start(limit, retention), run)
    ensures var s := After(Start(limit, retention), run);
      && (w in s.waiters ==> BeginWait(w, s.waiters[w]) in run)
      && (w in s.outcomes && s.outcomes[w].Returned? ==>
            exists id, ok, now :: BeginWait(w, id) in run && Finish(id, ok, now) in run
              && s.outcomes[w].task.completedAt == Some(now)
              && s.outcomes[w].task.status == if ok then Completed else Failed)
  {
    hide Sound, Step, Enabled;
    if run != [] {
      var last := |run| - 1;
      var s := After(Start(limit, retention), run[..last]);
      assert run == run[..last] + [run[last]];
      AnswersAreOutcomes(limit, retention, run[..last], w);
      RunIsSound(limit, retention, run[..last]);
      AnswerStep(s, run[last], w);
      var s' := Step(s, run[last]);
      if w in s'.outcomes && s'.outcomes[w].Returned? && !(w in s.outcomes && s'.outcomes[w] == s.outcomes[w]) {
        var id := if run[last].BeginWait? then run[last].id else s.waiters[w];
        var ok, now := s.tasks[id].status == Completed, s.tasks[id].completedAt.value;
        EndedByRun(limit, retention, run[..last], id, ok, now);
        assert BeginWait(w, id) in run && Finish(id, ok, now) in run;
      }
    }
  }

  lemma AnswerStep(s: State, e: Event, w: nat)
    requires Sound(s) && Enabled(s, e)
    ensures w in Step(s, e).waiters ==>
      (w in s.waiters && Step(s, e).waiters[w] == s.waiters[w]) || e == BeginWait(w, Step(s, e).waiters[w])
    ensures w in Step(s, e).outcomes && Step(s, e).outcomes[w].Returned? ==>
      || (w in s.outcomes && Step(s, e).outcomes[w] == s.outcomes[w])
      || (e.BeginWait? && e.waiter == w && Answers(s, e.id, Step(s, e).outcomes[w].task))
      || (e == Resume(w) && w in s.waiters && Answers(s, s.waiters[w], Step(s, e).outcomes[w].task))
  {
    hide OrdersRight, OwnersRight, Distinct, FlagsRight, SameKeys;
    if !TouchesWaiters(e) {
      UnseenStep(s, e);
      hide Step;
    }
  }

  predicate Answers(s: State, id: TaskId, task: Task) {
    && id in s.tasks && s.tasks[id] == task && task.completedAt.Some?
    && (task.status == Completed || task.status == Failed)
  }

  // The tasks submitted, in order.
  function Submitted(run: seq<Event>): seq<TaskId> {
    if run == [] then [] else
      var last := run[|run| - 1];
      Submitted(run[..|run| - 1]) + if last.Submit? then [last.id] else []
  }

  // The tasks that left the queue: dispatched, or lost by a crash.
  function Taken(s: State, run: seq<Event>): seq<TaskId>
    requires CanRun(s, run)
  {
    if run == [] then [] else
      var last, before := run[|run| - 1], After(s, run[..|run| - 1]);
      Taken(s, run[..|run| - 1])
      + if (last.Dispatch? || (last.Crash? && last.lost)) && before.queue != [] then [before.queue[0]] else []
  }

  // Tasks leave the queue in the order in which they were submitted, and the order number of a
  // task is its place in that order.
  lemma {:induction false} FirstInFirstOut(limit: nat, retention: int, run: seq<Event>)
    requires CanRun(Start(limit, retention), run)
    ensures var s := After(Start(limit, retention), run);
      && Taken(Start(limit, retention), run) + s.queue == Submitted(run)
      && s.nextSubmitOrder == |Submitted(run)| + 1
      && forall id {:trigger s.tasks[id]} :: id in s.tasks ==>
           0 < s.tasks[id].submitOrder <= |Submitted(run)| && Submitted(run)[s.tasks[id].submitOrder - 1] == id
  {
    hide Sound, Step, Enabled;
    if run != [] {
      var last := |run| - 1;
      var s := After(Start(limit, retention), run[..last]);
      FirstInFirstOut(limit, retention, run[..last]);
      RunIsSound(limit, retention, run[..last]);
      QueueStep(s, run[last]);
      var taken := if (run[last].Dispatch? || (run[last].Crash? && run[last].lost)) && s.queue != [] then [s.queue[0]]
                   else [];
      Regroup(Taken(Start(limit, retention), run[..last]), taken, Step(s, run[last]).queue, s.queue,
        if run[last].Submit? then [run[last].id] else []);
      OrdersStep(s, run[last], Submitted(run[..last]), Submitted(run));
    }
  }

  lemma Regroup(a: seq<TaskId>, taken: seq<TaskId>, after: seq<TaskId>, before: seq<TaskId>, added: seq<TaskId>)
    requires taken + after == before + added
    ensures (a + taken) + after == (a + before) + added
  {
    assert (a + taken) + after == a + (taken + after);
    assert (a + before) + added == a + (before + added);
  }

  lemma QueueStep(s: State, e: Event)
    requires Enabled(s, e)
    ensures var taken := (e.Dispatch? || (e.Crash? && e.lost)) && s.queue != [];
      (if taken then [s.queue[0]] else []) + Step(s, e).queue == s.queue + if e.Submit? then [e.id] else []
  {
    hide RunningIds, ExpiredIds, Found, Terminal;
  }

  lemma OrdersStep(s: State, e: Event, before: seq<TaskId>, after: seq<TaskId>)
    requires Sound(s) && Enabled(s, e) && s.nextSubmitOrder == |before| + 1
    requires after == before + if e.Submit? then [e.id] else []
    requires forall id {:trigger s.tasks[id]} :: id in s.tasks ==>
      0 < s.tasks[id].submitOrder <= |before| && before[s.tasks[id].submitOrder - 1] == id
    ensures Step(s, e).nextSubmitOrder == |after| + 1
    ensures forall id {:trigger Step(s, e).tasks[id]} :: id in Step(s, e).tasks ==>
      0 < Step(s, e).tasks[id].submitOrder <= |after| && after[Step(s, e).tasks[id].submitOrder - 1] == id
  {
    hide EventsRight, OrdersRight, WaitersRight, Distinct, FlagsRight;
    if TouchesTasks(e) {
      if e.Acquire? {
        assert e.id in s.tasks;
      }
      hide OwnersRight;
    } else {
      QuietStep(s, e);
      hide Step;
    }
  }

  // ------------------------------------------------------- queue position

  predicate IsAhead(s: State, other: TaskId, id: TaskId)
    requires id in s.tasks
  {
    other in s.tasks && other != id && s.tasks[other].status.Pending?
    && 0 < s.tasks[other].submitOrder < s.tasks[id].submitOrder
  }

  function AheadIds(s: State, id: TaskId): set<TaskId>
    requires id in s.tasks
  {
    set other | other in s.tasks && IsAhead(s, other, id)
  }

  // The position reported to a client; unknown tasks have none.
  function QueuedAhead(s: State, id: TaskId): Option<nat> {
    if id !in s.tasks then None
    else if !s.tasks[id].status.Pending? then Some(0)
    else Some(|AheadIds(s, id)|)
  }

  // While a task stays, no run moves it back in the queue.
  lemma QueuePositionNeverGrows(s: State, run: seq<Event>, id: TaskId)
    requires Sound(s) && CanRun(s, run) && id in s.tasks && id in After(s, run).tasks
    ensures QueuedAhead(After(s, run), id).value <= QueuedAhead(s, id).value
  {
    hide Sound, CanRun, After, Step;
    var s' := After(s, run);
    SoundUsed(s, id);
    RunMoves(s, run, id);
    if s'.tasks[id].status.Pending? {
      forall other | other in AheadIds(s', id) ensures other in AheadIds(s, id) {
        AheadStays(s, run, id, other);
      }
      SubsetSize(AheadIds(s', id), AheadIds(s, id));
    }
  }

  lemma SoundUsed(s: State, id: TaskId)
    requires Sound(s)
    ensures id in s.tasks ==> id in s.used
  {
  }

  lemma {:induction false} AheadStays(s: State, run: seq<Event>, id: TaskId, other: TaskId)
    requires Sound(s) && CanRun(s, run) && id in s.tasks && id in After(s, run).tasks
    requires IsAhead(After(s, run), other, id)
    ensures IsAhead(s, other, id)
  {
    hide Sound, CanRun, After, Step;
    SoundUsed(s, id);
    RunMoves(s, run, id);
    if other in s.used {
      RunMoves(s, run, other);
    } else {
      NewcomerIsLater(s, run, id, other);
    }
  }

  // Tasks submitted during a run come after every task that was there.
  lemma {:induction false} NewcomerIsLater(s: State, run: seq<Event>, id: TaskId, other: TaskId)
    requires Sound(s) && CanRun(s, run) && id in s.tasks && other !in s.used
    ensures After(s, run).nextSubmitOrder >= s.nextSubmitOrder > s.tasks[id].submitOrder
    ensures other in After(s, run).tasks ==> After(s, run).tasks[other].submitOrder >= s.nextSubmitOrder
  {
    hide Sound;
    SoundOrders(s, id);
    if run == [] {
      SoundUsed(s, other);
    } else {
      var last := |run| - 1;
      NewcomerIsLater(s, run[..last], id, other);
      RunKeepsSound(s, run[..last]);
      NewcomerStep(After(s, run[..last]), run[last], other);
    }
  }

  lemma SoundOrders(s: State, id: TaskId)
    requires Sound(s) && id in s.tasks
    ensures 0 < s.tasks[id].submitOrder < s.nextSubmitOrder
  {
  }

  lemma NewcomerStep(s: State, e: Event, id: TaskId)
    requires Sound(s) && Enabled(s, e)
    ensures Step(s, e).nextSubmitOrder >= s.nextSubmitOrder
    ensures id in Step(s, e).tasks ==>
      if id in s.tasks then Step(s, e).tasks[id].submitOrder == s.tasks[id].submitOrder
      else Step(s, e).tasks[id].submitOrder == s.nextSubmitOrder
  {
    hide EventsRight, OrdersRight, WaitersRight, Distinct, FlagsRight;
    if TouchesTasks(e) {
      if e.Acquire? {
        assert e.id in s.tasks;
      }
    } else {
      QuietStep(s, e);
      hide Step;
    }
  }

  // ------------------------------------------------------------ waiters

  // No waiter sleeps on a finished or evicted task.
  lemma NoLostWakeup(s: State, w: nat)
    requires Sound(s) && w in s.waiters
    requires s.waiters[w] in s.tasks ==> Terminal(s.tasks[s.waiters[w]].status)
    ensures Enabled(s, Resume(w))
  {
    hide OwnersRight, OrdersRight, FlagsRight;
  }

  // ----------------------------------------------------------- progress

  function StagesLeft(s: State, id: TaskId): nat
    requires id in s.tasks
  {
    if !s.tasks[id].status.Pending? && !s.tasks[id].status.Processing? then 0
    else if id in s.processors then
      match s.processors[id] { case Created => 3 case Waiting => 2 case Running => 1 }
    else 4
  }

  predicate IsWork(e: Event, id: TaskId) {
    (e.LookUp? && e.id == id) || (e.Acquire? && e.id == id) || (e.Finish? && e.id == id)
  }

  // While nobody was woken and a permit exists, an unfinished task can move, or the queue
  // can, or another task holds a permit it can give back.
  lemma NoTaskIsStuck(s: State, id: TaskId)
    requires Sound(s) && !s.woken && s.limit >= 1 && id in s.tasks && !Terminal(s.tasks[id].status)
    ensures
      || (id in s.queue && Enabled(s, Dispatch))
      || Enabled(s, LookUp(id)) || Enabled(s, Acquire(id)) || (forall ok, now :: Enabled(s, Finish(id, ok, now)))
      || (exists other :: other != id && other in RunningIds(s) && Enabled(s, Finish(other, true, 0)))
  {
    hide EventsRight, OrdersRight, WaitersRight, SameKeys, Distinct;
    if id in s.processors && s.processors[id].Waiting? && |RunningIds(s)| >= s.limit {
      assert RunningIds(s) != {};
      var other :| other in RunningIds(s);
      assert other in s.processors && s.processors[other].Running?;
      assert other in s.tasks;
      assert Enabled(s, Finish(other, true, 0));
    }
  }

  // A step of a task's processor brings it one stage nearer to its end, and no other step
  // sets an unfinished task back.
  lemma WorkAdvances(s: State, e: Event, id: TaskId)
    requires Sound(s) && Enabled(s, e) && id in s.tasks && id in Step(s, e).tasks && !e.CancelProcessors?
    ensures StagesLeft(Step(s, e), id) <= StagesLeft(s, id)
    ensures IsWork(e, id) || (e.Dispatch? && s.queue[0] == id) ==> StagesLeft(Step(s, e), id) == StagesLeft(s, id) - 1
  {
    hide EventsRight, OrdersRight, WaitersRight, Distinct;
    if e.Dispatch? {
      assert s.queue[0] in s.queue;
    }
  }

  // --------------------------------------------------- work over a run

  function AtStage(processors: map<TaskId, Stage>, stage: Stage): set<TaskId> {
    set id | id in processors && processors[id] == stage
  }

  // The steps still to be taken: four for a queued task, down to one for a running one.
  function WorkLeft(s: State): nat {
    4 * |s.queue| + ProcessorsLeft(s.processors)
  }

  function ProcessorsLeft(processors: map<TaskId, Stage>): nat {
    3 * |AtStage(processors, Created)| + 2 * |AtStage(processors, Waiting)| + |AtStage(processors, Running)|
  }

  function StageCost(stage: Stage): nat {
    match stage
    case Created => 3
    case Waiting => 2
    case Running => 1
  }

  predicate IsWorkStep(e: Event) {
    e.Dispatch? || e.LookUp? || e.Acquire? || e.Finish?
  }

  predicate StopsWork(e: Event) {
    e.Crash? || e.BeginShutdown? || e.CancelProcessors?
  }

  function WorkSteps(run: seq<Event>): nat {
    if run == [] then 0 else WorkSteps(run[..|run| - 1]) + One(IsWorkStep(run[|run| - 1]))
  }

  function Submissions(run: seq<Event>): nat {
    if run == [] then 0 else Submissions(run[..|run| - 1]) + One(run[|run| - 1].Submit?)
  }

  lemma StageMoved(processors: map<TaskId, Stage>, id: TaskId, to: Stage, stage: Stage)
    ensures |AtStage(processors[id := to], stage)| ==
      |AtStage(processors, stage)| + One(to == stage) - One(id in processors && processors[id] == stage)
  {
    SetChange(AtStage(processors, stage), AtStage(processors[id := to], stage), id);
  }

  lemma StageLeft(processors: map<TaskId, Stage>, id: TaskId, stage: Stage)
    ensures |AtStage(processors - {id}, stage)| ==
      |AtStage(processors, stage)| - One(id in processors && processors[id] == stage)
  {
    assert AtStage(processors - {id}, stage) == AtStage(processors, stage) - {id};
  }

  lemma ProcessorMoved(processors: map<TaskId, Stage>, id: TaskId, to: Stage)
    ensures ProcessorsLeft(processors[id := to]) ==
      ProcessorsLeft(processors) + StageCost(to) - if id in processors then StageCost(processors[id]) else 0
  {
    hide AtStage;
    StageMoved(processors, id, to, Created);
    StageMoved(processors, id, to, Waiting);
    StageMoved(processors, id, to, Running);
  }

  lemma WorkStepped(s: State, e: Event)
    requires Sound(s) && Enabled(s, e) && !StopsWork(e)
    ensures WorkLeft(Step(s, e)) == WorkLeft(s) + 4 * One(e.Submit?) - One(IsWorkStep(e))
  {
    hide AtStage, SameKeys, EventsRight, FlagsRight, OrdersRight, WaitersRight, Distinct;
    match e
    case Dispatch => assert s.queue[0] in s.queue; ProcessorMoved(s.processors, s.queue[0], Created);
    case LookUp(id) => assert id in s.tasks; ProcessorMoved(s.processors, id, Waiting);
    case Acquire(id) => ProcessorMoved(s.processors, id, Running);
    case Finish(id, _, _) =>
      StageLeft(s.processors, id, Created);
      StageLeft(s.processors, id, Waiting);
      StageLeft(s.processors, id, Running);
    case _ =>
  }

  // While nothing crashes or shuts down, every submitted task costs exactly four steps: the
  // steps taken and those left always add up.
  lemma {:induction false} WorkAddsUp(s: State, run: seq<Event>)
    requires Sound(s) && CanRun(s, run) && forall k {:trigger run[k]} :: 0 <= k < |run| ==> !StopsWork(run[k])
    ensures WorkSteps(run) + WorkLeft(After(s, run)) == WorkLeft(s) + 4 * Submissions(run)
  {
    hide Sound, WorkLeft, StopsWork;
    if run != [] {
      var last := |run| - 1;
      WorkAddsUp(s, run[..last]);
      RunKeepsSound(s, run[..last]);
      WorkStepped(After(s, run[..last]), run[last]);
    }
  }

  // No task's processor can move, nor the queue.
  ghost predicate AtRest(s: State) {
    && !Enabled(s, Dispatch)
    && forall id: TaskId {:trigger s.processors[id]} ::
         !Enabled(s, LookUp(id)) && !Enabled(s, Acquire(id)) && !Enabled(s, Finish(id, true, 0))
  }

  // A manager that comes to rest without a crash or shutdown has finished every task.
  lemma AtRestAllFinished(s: State, id: TaskId)
    requires Sound(s) && !s.woken && s.limit >= 1 && AtRest(s) && id in s.tasks
    ensures Terminal(s.tasks[id].status)
  {
    hide Sound;
    if !Terminal(s.tasks[id].status) {
      NoTaskIsStuck(s, id);
      RestRefuses(s, id);
      assert false;
    }
  }

  lemma RestRefuses(s: State, id: TaskId)
    requires AtRest(s)
    ensures !Enabled(s, Dispatch) && !Enabled(s, LookUp(id)) && !Enabled(s, Acquire(id))
    ensures !Enabled(s, Finish(id, true, 0))
    ensures forall other :: other in RunningIds(s) ==> !Enabled(s, Finish(other, true, 0))
  {
    assert id in s.processors ==> s.processors[id] == s.processors[id];
  }

  lemma CleanupIs(s: State, now: int)
    ensures Enabled(s, Cleanup(now))
    ensures Step(s, Cleanup(now)) ==
      s.(tasks := s.tasks - ExpiredIds(s, now), fired := s.fired + (s.events * ExpiredIds(s, now)),
        events := s.events - ExpiredIds(s, now))
    ensures ExpiredIds(s, now) <= s.tasks.Keys
    ensures s.retention <= 0 ==> Step(s, Cleanup(now)) == s && ExpiredIds(s, now) == {}
  {
    hide Expired;
    if s.retention <= 0 {
      assert s.tasks - {} == s.tasks && s.events - {} == s.events && s.fired + s.events * {} == s.fired;
    }
  }

  // With a retention, the tasks missing are those that ended, one way or the other, at least so
  // long ago; the others are as they were.
  ghost predicate OnlyExpiredGone(before: map<TaskId, Task>, after: map<TaskId, Task>, retention: int, now: int) {
    && after.Keys <= before.Keys
    && forall id {:trigger id in after} {:trigger before[id]} :: id in before ==>
         && (id in after ==> after[id] == before[id])
         && (id !in after <==>
               && retention > 0 && (before[id].status == Completed || before[id].status == Failed)
               && before[id].completedAt.Some? && now - before[id].completedAt.value >= retention)
  }

  // A cleanup takes out those tasks and no others, with their handles, and sets each handle.
  lemma CleanupLeaves(s: State, now: int)
    requires Sound(s)
    ensures var s' := Step(s, Cleanup(now));
      && OnlyExpiredGone(s.tasks, s'.tasks, s.retention, now)
      && s.tasks.Keys - s'.tasks.Keys == ExpiredIds(s, now) && s'.events == s'.tasks.Keys
      && s'.fired == s.fired + ExpiredIds(s, now)
  {
    hide EventsRight, OwnersRight, OrdersRight, WaitersRight, FlagsRight;
  }

  lemma HasHandle(s: State, id: TaskId)
    requires Sound(s) && id in s.tasks
    ensures id in s.events
  {
    hide EventsRight, OwnersRight, OrdersRight, WaitersRight, FlagsRight;
  }

  lemma AskedIs(s: State, id: TaskId)
    requires Sound(s)
    ensures id !in s.tasks ==> Asked(s, id) == Some(NotFound)
    ensures id in s.tasks && (s.tasks[id].status == Completed || s.tasks[id].status == Failed) ==>
      Asked(s, id) == Some(Returned(s.tasks[id]))
    ensures id in s.tasks && (s.tasks[id].status == Pending || s.tasks[id].status == Processing) ==>
      Asked(s, id) == None
  {
    hide EventsRight, OwnersRight, OrdersRight, WaitersRight, FlagsRight;
  }

  lemma FoundIs(s: State, id: TaskId)
    ensures Found(s, id) ==
      if id in s.tasks && (s.tasks[id].status == Completed || s.tasks[id].status == Failed) then Returned(s.tasks[id])
      else if s.shuttingDown then ShuttingDown
      else if id in s.tasks then Unavailable else Removed
  {
  }

  lemma BeginWaitIs(s: State, w: nat, id: TaskId)
    requires Enabled(s, BeginWait(w, id))
    ensures w !in s.waiters && w !in s.outcomes
    ensures Asked(s, id).Some? ==> Step(s, BeginWait(w, id)) == s.(outcomes := s.outcomes[w := Asked(s, id).value])
    ensures Asked(s, id).None? ==> Step(s, BeginWait(w, id)) == s.(waiters := s.waiters[w := id])
  {
    hide Asked;
  }

  lemma ResumeIs(s: State, w: nat)
    requires Enabled(s, Resume(w))
    ensures w in s.waiters
    ensures Step(s, Resume(w)) == s.(waiters := s.waiters - {w}, outcomes := s.outcomes[w := Found(s, s.waiters[w])])
  {
    hide Found;
  }

  // ------------------------------------------------------------ the class

  // The manager's fields; each method is one atomic step, ending where the code awaits.
  class AsyncTaskManager {
    const limit: nat
    const taskRetentionSeconds: int
    var tasks: map<TaskId, Task>
    var taskEvents: set<TaskId>
    var firedEvents: set<TaskId>
    ghost var usedIds: set<TaskId>
    var queue: seq<TaskId>
    var activeTasks: map<TaskId, Stage>
    var nextSubmitOrder: int
    var dispatching: bool
    var isShuttingDown: bool
    var stopped: bool
    var managerWakeup: bool
    var waiters: map<nat, TaskId>
    var outcomes: map<nat, Outcome>

    ghost function Snapshot(): State
      reads this
    {
      State(limit, taskRetentionSeconds, tasks, taskEvents, firedEvents, usedIds, queue, activeTasks, nextSubmitOrder,
            dispatching, isShuttingDown, stopped, managerWakeup, waiters, outcomes)
    }

    ghost predicate Valid()
      reads this
    {
      Sound(Snapshot())
    }

    constructor (limit: nat, retention: int)
      ensures Valid() && Snapshot() == Start(limit, retention)
    {
      this.limit, taskRetentionSeconds := limit, retention;
      tasks, taskEvents, firedEvents, usedIds, queue, activeTasks := map[], {}, {}, {}, [], map[];
      nextSubmitOrder := 1;
      dispatching, isShuttingDown, stopped, managerWakeup := true, false, false, false;
      waiters, outcomes := map[], map[];
      new;
      StartSound(limit, retention);
    }

    method SubmitTask(id: TaskId)
      requires Valid() && Enabled(Snapshot(), Submit(id))
      modifies this
      ensures Valid() && Snapshot() == Step(old(Snapshot()), Submit(id))
      ensures Snapshot() == old(Snapshot()).(
                tasks := old(tasks)[id := Task(Pending, old(nextSubmitOrder), None)],
                nextSubmitOrder := old(nextSubmitOrder) + 1, events := old(taskEvents) + {id},
                queue := old(queue) + [id], used := old(usedIds) + {id})
    {
      hide Sound;
      StepKeepsSound(Snapshot(), Submit(id));
      var task := Task(Pending, nextSubmitOrder, None);
      nextSubmitOrder := nextSubmitOrder + 1;
      tasks := tasks[id := task];
      taskEvents := taskEvents + {id};
      queue := queue + [id];
      usedIds := usedIds + {id};
    }

    method DispatchNext()
      requires Valid() && Enabled(Snapshot(), Dispatch)
      modifies this
      ensures Valid() && Snapshot() == Step(old(Snapshot()), Dispatch)
      ensures Snapshot() == old(Snapshot()).(
                queue := old(queue)[1..], processors := old(activeTasks)[old(queue)[0] := Created])
    {
      hide Sound;
      StepKeepsSound(Snapshot(), Dispatch);
      var id := queue[0];
      queue := queue[1..];
      activeTasks := activeTasks[id := Created];
    }

    method ProcessTask(id: TaskId)
      requires Valid() && Enabled(Snapshot(), LookUp(id))
      modifies this
      ensures Valid() && Snapshot() == Step(old(Snapshot()), LookUp(id))
      ensures Snapshot() == old(Snapshot()).(
                processors := if id in old(tasks) then old(activeTasks)[id := Waiting] else old(activeTasks) - {id})
    {
      hide Sound;
      StepKeepsSound(Snapshot(), LookUp(id));
      if id in tasks {
        activeTasks := activeTasks[id := Waiting];
      } else {
        activeTasks := activeTasks - {id};
      }
    }

    method RunTask(id: TaskId)
      requires Valid() && Enabled(Snapshot(), Acquire(id))
      modifies this
      ensures Valid() && Snapshot() == Step(old(Snapshot()), Acquire(id))
      ensures id in old(tasks)
      ensures Snapshot() == old(Snapshot()).(
                tasks := old(tasks)[id := old(tasks)[id].(status := Processing)],
                processors := old(activeTasks)[id := Running])
    {
      StepKeepsSound(Snapshot(), Acquire(id));
      assert id in Snapshot().processors;
      assert id in tasks;
      hide Sound;
      activeTasks := activeTasks[id := Running];
      tasks := tasks[id := tasks[id].(status := Processing)];
    }

    method FinishTask(id: TaskId, ok: bool, now: int)
      requires Valid() && Enabled(Snapshot(), Finish(id, ok, now))
      modifies this
      ensures Valid() && Snapshot() == Step(old(Snapshot()), Finish(id, ok, now))
      ensures id in tasks && tasks[id].completedAt == Some(now)
      ensures tasks[id].status == if ok then Completed else Failed
      ensures tasks[id].submitOrder == old(tasks)[id].submitOrder && tasks - {id} == old(tasks) - {id}
      ensures activeTasks == old(activeTasks) - {id} && id in firedEvents
      ensures Snapshot() == old(Snapshot()).(tasks := tasks, processors := activeTasks, fired := firedEvents)
    {
      hide Sound;
      StepKeepsSound(Snapshot(), Finish(id, ok, now));
      HasHandle(Snapshot(), id);
      var task := tasks[id].(status := if ok then Completed else Failed, completedAt := Some(now));
      tasks := tasks[id := task];
      SignalTaskEvent(id);
      activeTasks := activeTasks - {id};
    }

    method SignalTaskEvent(id: TaskId)
      modifies this`firedEvents
      ensures firedEvents == if id in taskEvents then old(firedEvents) + {id} else old(firedEvents)
    {
      if id in taskEvents {
        firedEvents := firedEvents + {id};
      }
    }

    method WakeWaiters()
      modifies this`managerWakeup, this`firedEvents
      ensures managerWakeup && firedEvents == old(firedEvents) + taskEvents
    {
      managerWakeup := true;
      var left := taskEvents;
      while left != {}
        invariant managerWakeup && left <= taskEvents && firedEvents == old(firedEvents) + (taskEvents - left)
        decreases |left|
      {
        var id :| id in left;
        firedEvents := firedEvents + {id};
        left := left - {id};
      }
    }

    method CleanupExpiredTasks(now: int) returns (removed: nat)
      requires Valid()
      modifies this
      ensures Valid() && Snapshot() == Step(old(Snapshot()), Cleanup(now))
      ensures removed == |ExpiredIds(old(Snapshot()), now)|
    {
      hide Sound, Step, ExpiredIds, Expired, Enabled;
      CleanupIs(Snapshot(), now);
      StepKeepsSound(Snapshot(), Cleanup(now));
      if taskRetentionSeconds <= 0 {
        return 0;
      }
      var expired := FindExpired(now);
      RemoveTasks(expired);
      removed := |expired|;
    }

    method FindExpired(now: int) returns (expired: set<TaskId>)
      requires taskRetentionSeconds > 0
      ensures expired == ExpiredIds(Snapshot(), now)
    {
      expired := set id | id in tasks && Expired(tasks[id], now, taskRetentionSeconds);
    }

    // Takes the given tasks and their handles out, setting each handle as it goes.
    method RemoveTasks(gone: set<TaskId>)
      requires gone <= tasks.Keys
      modifies this`tasks, this`taskEvents, this`firedEvents
      ensures tasks == old(tasks) - gone && taskEvents == old(taskEvents) - gone
      ensures firedEvents == old(firedEvents) + (old(taskEvents) * gone)
    {
      var left := gone;
      while left != {}
        invariant left <= gone
        invariant tasks == old(tasks) - (gone - left)
        invariant taskEvents == old(taskEvents) - (gone - left)
        invariant firedEvents == old(firedEvents) + (old(taskEvents) * (gone - left))
        decreases |left|
      {
        var id :| id in left;
        tasks := tasks - {id};
        if id in taskEvents {
          taskEvents := taskEvents - {id};
          firedEvents := firedEvents + {id};
        }
        left := left - {id};
      }
    }

    // The part before the wait: either an answer at once or a sleeping waiter.
    method WaitForTerminalState(waiter: nat, id: TaskId)
      requires Valid() && Enabled(Snapshot(), Event.BeginWait(waiter, id))
      modifies this
      ensures Valid() && Snapshot() == Step(old(Snapshot()), Event.BeginWait(waiter, id))
      ensures id !in tasks ==> outcomes == old(outcomes)[waiter := NotFound]
      ensures id in tasks && (tasks[id].status == Completed || tasks[id].status == Failed) ==>
        outcomes == old(outcomes)[waiter := Returned(tasks[id])]
      ensures id in tasks && (tasks[id].status == Pending || tasks[id].status == Processing) ==>
        waiters == old(waiters)[waiter := id] && outcomes == old(outcomes)
      ensures waiter in outcomes ==> waiters == old(waiters)
      ensures Snapshot() == old(Snapshot()).(waiters := waiters, outcomes := outcomes)
    {
      hide Sound, Step, Enabled, Asked;
      StepKeepsSound(Snapshot(), Event.BeginWait(waiter, id));
      BeginWaitIs(Snapshot(), waiter, id);
      AskedIs(Snapshot(), id);
      var asked := AnswerAtOnce(id);
      if asked.Some? {
        outcomes := outcomes[waiter := asked.value];
      } else {
        waiters := waiters[waiter := id];
      }
    }

    method AnswerAtOnce(id: TaskId) returns (asked: Option<Outcome>)
      ensures asked == Asked(Snapshot(), id)
    {
      if id !in tasks {
        return Some(NotFound);
      }
      if Terminal(tasks[id].status) {
        return Some(Returned(tasks[id]));
      }
      if id !in taskEvents {
        return Some(NoHandle);
      }
      return None;
    }

    // The part after the wait, once the task's event or the manager's wake-up is set.
    method ResumeWait(waiter: nat)
      requires Valid() && Enabled(Snapshot(), Resume(waiter))
      modifies this
      ensures Valid() && Snapshot() == Step(old(Snapshot()), Resume(waiter))
      ensures waiters == old(waiters) - {waiter}
      ensures var id := old(waiters)[waiter];
        outcomes == old(outcomes)[waiter :=
          if id in tasks && (tasks[id].status == Completed || tasks[id].status == Failed) then Returned(tasks[id])
          else if isShuttingDown then ShuttingDown
          else if id in tasks then Unavailable else Removed]
      ensures Snapshot() == old(Snapshot()).(waiters := waiters, outcomes := outcomes)
    {
      hide Sound, Terminal, Step, Enabled;
      StepKeepsSound(Snapshot(), Resume(waiter));
      ResumeIs(Snapshot(), waiter);
      FoundIs(Snapshot(), waiters[waiter]);
      var id := waiters[waiter];
      var outcome := Unavailable;
      if id !in tasks {
        outcome := if isShuttingDown then ShuttingDown else Removed;
      } else if Terminal(tasks[id].status) {
        outcome := Returned(tasks[id]);
      } else if isShuttingDown {
        outcome := ShuttingDown;
      }
      assert outcome == Found(Snapshot(), id);
      hide Found;
      waiters := waiters - {waiter};
      outcomes := outcomes[waiter := outcome];
    }

    method DispatcherCrashes(lost: bool)
      requires Valid() && Enabled(Snapshot(), Crash(lost))
      modifies this
      ensures Valid() && Snapshot() == Step(old(Snapshot()), Crash(lost))
      ensures Snapshot() == old(Snapshot()).(dispatching := false, woken := true,
                fired := old(firedEvents) + taskEvents, queue := if lost then old(queue)[1..] else old(queue))
    {
      hide Sound;
      StepKeepsSound(Snapshot(), Crash(lost));
      if lost {
        queue := queue[1..];
      }
      dispatching := false;
      WakeWaiters();
    }

    // Shutdown up to its first await.
    method ShutdownBegins()
      requires Valid()
      modifies this
      ensures Valid() && Snapshot() == Step(old(Snapshot()), BeginShutdown)
      ensures Snapshot() == old(Snapshot()).(dispatching := false, woken := true,
                fired := old(firedEvents) + taskEvents, shuttingDown := true)
    {
      hide Sound;
      StepKeepsSound(Snapshot(), BeginShutdown);
      isShuttingDown := true;
      WakeWaiters();
      dispatching := false;
    }

    // Shutdown's last step: every processor is cancelled and leaves its task as it is.
    method ShutdownCancels()
      requires Valid() && Enabled(Snapshot(), CancelProcessors)
      modifies this
      ensures Valid() && Snapshot() == Step(old(Snapshot()), CancelProcessors)
      ensures Snapshot() == old(Snapshot()).(processors := map[], stopped := true)
    {
      hide Sound;
      StepKeepsSound(Snapshot(), CancelProcessors);
      activeTasks := map[];
      stopped := true;
    }

    // The reported position, counted over the stored tasks.
    method GetQueuedAhead(id: TaskId) returns (ahead: Option<nat>)
      ensures ahead == QueuedAhead(Snapshot(), id)
      ensures id !in tasks ==> ahead == None
      ensures id in tasks && tasks[id].status != Pending ==> ahead == Some(0)
      ensures id in tasks && tasks[id].status == Pending ==>
        ahead == Some(|set other | other in tasks && other != id && tasks[other].status == Pending
                                   && 0 < tasks[other].submitOrder < tasks[id].submitOrder|)
    {
      if id !in tasks {
        return None;
      }
      if !tasks[id].status.Pending? {
        return Some(0);
      }
      var left, count := tasks.Keys, 0;
      ghost var counted: set<TaskId> := {};
      while left != {}
        invariant left <= tasks.Keys && count == |counted|
        invariant counted == set other | other in tasks && other !in left && IsAhead(Snapshot(), other, id)
        decreases |left|
      {
        var other :| other in left;
        left := left - {other};
        if other != id && tasks[other].status.Pending? && 0 < tasks[other].submitOrder < tasks[id].submitOrder {
          count := count + 1;
          counted := counted + {other};
        }
      }
      assert counted == AheadIds(Snapshot(), id);
      assert counted == set other | other in tasks && other != id && tasks[other].status == Pending
                                    && 0 < tasks[other].submitOrder < tasks[id].submitOrder;
      return Some(count);
    }
  }
}
