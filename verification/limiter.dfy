/**
 The request limiter for one limit: a semaphore, a count of active requests and a list of
 wait tokens, with requests that may be interrupted while they wait and again while they
 clean up. Each step lasts from one await to the next.
 */
module Limiter {
  import opened Wrappers
  import opened Counting

  // The request's own task: trying to get a permit, cleaning up after an interruption,
  // inside the guarded body, or gone, perhaps after a second interruption.
  datatype Phase = Acquiring | Cleaning | Holding | Gone(interruptedAgain: bool)

  // The helper task on the semaphore: queued, handed a permit but not run yet, done with the
  // permit, or ended with none.
  datatype Helper = Queued | Granted | Acquired | Ended

  // A request's number is its wait token; `waits` tells whether it put it on the list.
  datatype Request = Request(waits: bool, phase: Phase, helper: Helper)

  datatype State = State(limit: nat, free: int, active: int, waiters: seq<nat>, requests: map<nat, Request>)

  datatype Event =
    | Enter(r: nat)
    | Grant(r: nat)
    | HelperDone(r: nat)
    | Resume(r: nat)
    | Interrupt(r: nat)
    | HelperCancelled(r: nat)
    | CleanupEnds(r: nat)
    | InterruptAgain(r: nat)
    | Release(r: nat)

  function Start(limit: nat): State {
    State(limit, limit, 0, [], map[])
  }

  predicate HasPermit(q: Request) {
    q.helper.Granted? || q.helper.Acquired?
  }

  function Permits(s: State): set<nat> {
    set r | r in s.requests && HasPermit(s.requests[r])
  }

  function Holders(s: State): set<nat> {
    set r | r in s.requests && s.requests[r].phase.Holding?
  }

  // The list without the first occurrence of the token; the list itself if it has none.
  function Without(waiters: seq<nat>, r: nat): seq<nat> {
    if waiters == [] then [] else if waiters[0] == r then waiters[1..] else [waiters[0]] + Without(waiters[1..], r)
  }

  predicate Is(s: State, r: nat, phase: Phase) {
    r in s.requests && s.requests[r].phase == phase
  }

  predicate Enabled(s: State, e: Event) {
    match e
    case Enter(r) => r !in s.requests
    case Grant(r) => Is(s, r, Acquiring) && s.requests[r].helper.Queued? && s.free > 0
    case HelperDone(r) => Is(s, r, Acquiring) && s.requests[r].helper.Granted?
    case Resume(r) => Is(s, r, Acquiring) && s.requests[r].helper.Acquired?
    case Interrupt(r) => Is(s, r, Acquiring)
    case HelperCancelled(r) =>
      && (Is(s, r, Cleaning) || Is(s, r, Gone(true)))
      && (s.requests[r].helper.Queued? || s.requests[r].helper.Granted?)
    case CleanupEnds(r) => Is(s, r, Cleaning) && s.requests[r].helper.Ended?
    case InterruptAgain(r) => Is(s, r, Cleaning)
    case Release(r) => Is(s, r, Holding)
  }

  function Updated(s: State, r: nat, phase: Phase, helper: Helper): map<nat, Request>
    requires r in s.requests
  {
    s.requests[r := s.requests[r].(phase := phase, helper := helper)]
  }

  // A token comes off the list only for a request that put one on.
  function TokenOff(s: State, r: nat): seq<nat>
    requires r in s.requests
  {
    if s.requests[r].waits then Without(s.waiters, r) else s.waiters
  }

  function Step(s: State, e: Event): State
    requires Enabled(s, e)
  {
    match e
    case Enter(r) =>
      var waits := s.active >= s.limit || s.waiters != [];
      s.(requests := s.requests[r := Request(waits, Acquiring, Queued)],
         waiters := if waits then s.waiters + [r] else s.waiters)
    case Grant(r) =>
      s.(requests := Updated(s, r, Acquiring, Granted), free := s.free - 1)
    case HelperDone(r) =>
      s.(requests := Updated(s, r, Acquiring, Acquired))
    case Resume(r) =>
      s.(requests := Updated(s, r, Holding, Acquired), waiters := TokenOff(s, r), active := s.active + 1)
    case Interrupt(r) =>
      var acquired := s.requests[r].helper.Acquired?;
      s.(requests := Updated(s, r, if acquired then Gone(false) else Cleaning,
                             if acquired then Ended else s.requests[r].helper),
         free := if acquired then s.free + 1 else s.free,
         waiters := if acquired then TokenOff(s, r) else s.waiters)
    case HelperCancelled(r) =>
      s.(requests := Updated(s, r, s.requests[r].phase, Ended),
         free := if s.requests[r].helper.Granted? then s.free + 1 else s.free)
    case CleanupEnds(r) =>
      s.(requests := Updated(s, r, Gone(false), Ended), waiters := TokenOff(s, r))
    case InterruptAgain(r) =>
      s.(requests := Updated(s, r, Gone(true), s.requests[r].helper))
    case Release(r) =>
      s.(requests := Updated(s, r, Gone(false), Ended), active := Max(0, s.active - 1), free := s.free + 1)
  }

  predicate CanRun(s: State, run: seq<Event>)
    decreases |run|, 0
  {
    run == [] || (CanRun(s, run[..|run| - 1]) && Enabled(After(s, run[..|run| - 1]), run[|run| - 1]))
  }

  function After(s: State, run: seq<Event>): State
    requires CanRun(s, run)
    decreases |run|, 1
  {
    if run == [] then s else Step(After(s, run[..|run| - 1]), run[|run| - 1])
  }

  // --------------------------------------------------------- invariants

  // The requests whose token belongs on the list: those still waiting or cleaning up, and
  // those interrupted once more before their cleanup took it off.
  predicate OnList(q: Request) {
    q.waits && (q.phase.Acquiring? || q.phase.Cleaning? || q.phase == Gone(true))
  }

  // Phases and helpers that go together.
  predicate Fits(q: Request) {
    match q.phase
    case Acquiring => !q.helper.Ended?
    case Cleaning => !q.helper.Acquired?
    case Holding => q.helper.Acquired?
    case Gone(again) => if again then !q.helper.Acquired? else q.helper.Ended?
  }

  ghost predicate TokensRight(s: State) {
    && Distinct(s.waiters)
    && (forall r {:trigger r in s.waiters} :: r in s.waiters ==> r in s.requests && OnList(s.requests[r]))
    && (forall r {:trigger s.requests[r]} :: r in s.requests && OnList(s.requests[r]) ==> r in s.waiters)
  }

  ghost predicate AllFit(s: State) {
    forall r {:trigger s.requests[r]} :: r in s.requests ==> Fits(s.requests[r])
  }

  ghost predicate Sound(s: State) {
    && TokensRight(s) && AllFit(s)
    && s.free >= 0 && s.free + |Permits(s)| == s.limit
    && s.active == |Holders(s)| && s.active <= s.limit
  }

  lemma {:induction false} WithoutRemoves(waiters: seq<nat>, r: nat)
    requires Distinct(waiters)
    ensures Distinct(Without(waiters, r))
    ensures forall x {:trigger x in Without(waiters, r)} {:trigger x in waiters} ::
      x in Without(waiters, r) <==> x in waiters && x != r
  {
    if waiters != [] {
      var rest := waiters[1..];
      assert waiters == [waiters[0]] + rest;
      assert waiters[0] !in rest;
      if waiters[0] != r {
        WithoutRemoves(rest, r);
      }
    }
  }

  lemma StartSound(limit: nat)
    ensures Sound(Start(limit))
  {
    assert Permits(Start(limit)) == {} && Holders(Start(limit)) == {};
  }

  lemma TokensKept(s: State, e: Event)
    requires Sound(s) && Enabled(s, e)
    ensures TokensRight(Step(s, e))
  {
    hide TokensRight, AllFit, TokenOff, Permits, Holders;
    var r := e.r;
    if e.Enter? {
      EnterToken(s, r);
    } else if e.Resume? || e.CleanupEnds? || (e.Interrupt? && s.requests[r].helper.Acquired?) {
      TokenRemoved(s, r, Step(s, e));
    } else {
      FitAt(s, r);
      TokenStays(s, r, Step(s, e));
    }
  }

  lemma FitAt(s: State, r: nat)
    requires Sound(s) && r in s.requests
    ensures Fits(s.requests[r])
  {
  }

  // A request that no longer belongs on the list takes its token off.
  lemma TokenRemoved(s: State, r: nat, s': State)
    requires TokensRight(s) && r in s.requests && r in s'.requests && !OnList(s'.requests[r])
    requires s'.requests == s.requests[r := s'.requests[r]] && s'.requests[r].waits == s.requests[r].waits
    requires s'.waiters == TokenOff(s, r)
    ensures TokensRight(s')
  {
    hide Distinct;
    WithoutRemoves(s.waiters, r);
  }

  lemma TokenStays(s: State, r: nat, s': State)
    requires TokensRight(s) && r in s.requests && r in s'.requests && OnList(s'.requests[r]) == OnList(s.requests[r])
    requires s'.requests == s.requests[r := s'.requests[r]] && s'.waiters == s.waiters
    ensures TokensRight(s')
  {
    hide Distinct, OnList;
  }

  lemma EnterToken(s: State, r: nat)
    requires Sound(s) && Enabled(s, Enter(r))
    ensures TokensRight(Step(s, Enter(r)))
  {
    assert r !in s.waiters;
    var waiters := s.waiters + [r];
    assert Distinct(waiters);
    assert forall x :: x in waiters <==> x in s.waiters || x == r;
  }

  lemma FitKept(s: State, e: Event)
    requires Sound(s) && Enabled(s, e)
    ensures AllFit(Step(s, e))
  {
    hide TokensRight;
  }

  // How one request's new state changes the numbers of permits and of holders.
  lemma CountsChange(s: State, r: nat, q: Request, s': State)
    requires s'.requests == s.requests[r := q]
    ensures |Permits(s')| == |Permits(s)| + One(HasPermit(q)) - One(r in s.requests && HasPermit(s.requests[r]))
    ensures |Holders(s')| == |Holders(s)| + One(q.phase.Holding?) - One(r in s.requests && s.requests[r].phase.Holding?)
  {
    hide Permits, Holders;
    PermitsChange(s, r, q, s');
    HoldersChange(s, r, q, s');
    SetChange(Permits(s), Permits(s'), r);
    SetChange(Holders(s), Holders(s'), r);
  }

  lemma PermitsChange(s: State, r: nat, q: Request, s': State)
    requires s'.requests == s.requests[r := q]
    ensures forall x :: x != r ==> (x in Permits(s') <==> x in Permits(s))
    ensures r in Permits(s') <==> HasPermit(q)
    ensures r in Permits(s) <==> r in s.requests && HasPermit(s.requests[r])
  {
  }

  lemma HoldersChange(s: State, r: nat, q: Request, s': State)
    requires s'.requests == s.requests[r := q]
    ensures forall x :: x != r ==> (x in Holders(s') <==> x in Holders(s))
    ensures r in Holders(s') <==> q.phase.Holding?
    ensures r in Holders(s) <==> r in s.requests && s.requests[r].phase.Holding?
  {
  }

  lemma CountsKept(s: State, e: Event)
    requires Sound(s) && Enabled(s, e)
    ensures Step(s, e).limit == s.limit && Step(s, e).free >= 0
    ensures Step(s, e).free + |Permits(Step(s, e))| == s.limit
    ensures Step(s, e).active == |Holders(Step(s, e))|
  {
    hide TokensRight, Permits, Holders;
    if e.Release? {
      ClampNeverFires(s, e.r);
    }
    CountsChange(s, e.r, Step(s, e).requests[e.r], Step(s, e));
  }

  lemma HoldersWithinLimit(s: State)
    requires AllFit(s) && s.free >= 0 && s.free + |Permits(s)| == s.limit && s.active == |Holders(s)|
    ensures s.active <= s.limit
  {
    assert Holders(s) <= Permits(s);
    SubsetSize(Holders(s), Permits(s));
  }

  // Permits and active requests always add up, and the list holds exactly the tokens it
  // should.
  lemma StepKeepsSound(s: State, e: Event)
    requires Sound(s) && Enabled(s, e)
    ensures Sound(Step(s, e))
  {
    TokensKept(s, e);
    FitKept(s, e);
    CountsKept(s, e);
    hide Step, TokensRight, AllFit;
    HoldersWithinLimit(Step(s, e));
  }

  lemma {:induction false} RunIsSound(limit: nat, run: seq<Event>)
    requires CanRun(Start(limit), run)
    ensures Sound(After(Start(limit), run))
  {
    hide Sound;
    if run == [] {
      StartSound(limit);
    } else {
      RunIsSound(limit, run[..|run| - 1]);
      StepKeepsSound(After(Start(limit), run[..|run| - 1]), run[|run| - 1]);
    }
  }

  // A release always finds its own request counted, so the count is never clamped at zero.
  lemma ClampNeverFires(s: State, r: nat)
    requires Sound(s) && Enabled(s, Release(r))
    ensures s.active >= 1 && Step(s, Release(r)).active == s.active - 1
  {
    assert r in Holders(s);
  }

  // Once every request is gone and its helper has ended all permits are back, whatever was
  // interrupted; the tokens left are those of requests interrupted during their cleanup.
  lemma NoPermitIsLost(s: State)
    requires Sound(s)
    requires forall r {:trigger s.requests[r]} ::
      r in s.requests ==> s.requests[r].phase.Gone? && s.requests[r].helper.Ended?
    ensures s.free == s.limit && s.active == 0
    ensures forall r ::
      r in s.waiters <==> r in s.requests && s.requests[r].waits && s.requests[r].phase.interruptedAgain
  {
    assert Permits(s) == {} && Holders(s) == {};
  }

  // A request carries the mark of a second interruption exactly if it met one in the run.
  lemma {:induction false} MarkedByRun(limit: nat, run: seq<Event>, r: nat)
    requires CanRun(Start(limit), run)
    ensures r in After(Start(limit), run).requests && After(Start(limit), run).requests[r].phase == Gone(true)
      <==> InterruptAgain(r) in run
  {
    if run != [] {
      var last := |run| - 1;
      assert run == run[..last] + [run[last]];
      MarkedByRun(limit, run[..last], r);
      MarkStep(After(Start(limit), run[..last]), run[last], r);
      hide Step;
    }
  }

  lemma MarkStep(s: State, e: Event, r: nat)
    requires Enabled(s, e)
    ensures r in Step(s, e).requests && Step(s, e).requests[r].phase == Gone(true)
      <==> (r in s.requests && s.requests[r].phase == Gone(true)) || e == InterruptAgain(r)
  {
  }

  // A request that is over has left the list exactly if it was not interrupted again during its
  // cleanup, or never waited.
  lemma TokenLeftBehind(limit: nat, run: seq<Event>, r: nat)
    requires CanRun(Start(limit), run) && r in After(Start(limit), run).requests
    requires After(Start(limit), run).requests[r].phase.Gone?
    ensures var s := After(Start(limit), run);
      r in s.waiters <==> s.requests[r].waits && InterruptAgain(r) in run
  {
    RunIsSound(limit, run);
    MarkedByRun(limit, run, r);
    hide After, CanRun;
  }

  // A run that leaves a token behind: one holder, one waiter interrupted twice.
  function Leaving(): seq<Event> {
    [Enter(0), Grant(0), HelperDone(0), Resume(0), Enter(1), Interrupt(1), InterruptAgain(1), HelperCancelled(1),
      Release(0)]
  }

  lemma HolderEnters(s: State, s': State)
    requires s == State(1, 0, 0, [], map[0 := Request(false, Acquiring, Acquired)])
    requires s' == State(1, 0, 1, [], map[0 := Request(false, Holding, Acquired)])
    ensures Enabled(s, Resume(0)) && Step(s, Resume(0)) == s'
  {
    assert Updated(s, 0, Holding, Acquired)[0] == Request(false, Holding, Acquired);
    assert Updated(s, 0, Holding, Acquired).Keys == {0};
    assert Updated(s, 0, Holding, Acquired) == s'.requests;
    assert TokenOff(s, 0) == [];
  }

  lemma HolderGranted()
    ensures CanRun(Start(1), Leaving()[..3])
    ensures After(Start(1), Leaving()[..3]) == State(1, 0, 0, [], map[0 := Request(false, Acquiring, Acquired)])
  {
    hide CanRun, After;
    var s0 := Start(1);
    NoStep(s0, Leaving());
    RunStep(s0, Leaving(), 0, s0);
    var s1 := State(1, 1, 0, [], map[0 := Request(false, Acquiring, Queued)]);
    RunStep(s0, Leaving(), 1, s1);
    var s2 := State(1, 0, 0, [], map[0 := Request(false, Acquiring, Granted)]);
    RunStep(s0, Leaving(), 2, s2);
  }

  lemma NoStep(s: State, run: seq<Event>)
    ensures CanRun(s, run[..0]) && After(s, run[..0]) == s
  {
  }

  lemma WaiterQueues()
    ensures CanRun(Start(1), Leaving()[..5])
    ensures After(Start(1), Leaving()[..5]) ==
      State(1, 0, 1, [1], map[0 := Request(false, Holding, Acquired), 1 := Request(true, Acquiring, Queued)])
  {
    hide CanRun, After;
    var s0 := Start(1);
    HolderGranted();
    var s3 := State(1, 0, 0, [], map[0 := Request(false, Acquiring, Acquired)]);
    var s4 := State(1, 0, 1, [], map[0 := Request(false, Holding, Acquired)]);
    HolderEnters(s3, s4);
    RunStep(s0, Leaving(), 3, s3);
    RunStep(s0, Leaving(), 4, s4);
  }

  lemma WaiterInterruptedTwice()
    ensures CanRun(Start(1), Leaving()[..7])
    ensures After(Start(1), Leaving()[..7]) ==
      State(1, 0, 1, [1], map[0 := Request(false, Holding, Acquired), 1 := Request(true, Gone(true), Queued)])
  {
    hide CanRun, After;
    var s0, holder := Start(1), Request(false, Holding, Acquired);
    WaiterQueues();
    var s5 := State(1, 0, 1, [1], map[0 := holder, 1 := Request(true, Acquiring, Queued)]);
    RunStep(s0, Leaving(), 5, s5);
    var s6 := State(1, 0, 1, [1], map[0 := holder, 1 := Request(true, Cleaning, Queued)]);
    RunStep(s0, Leaving(), 6, s6);
  }

  lemma TokenCanBeLeft()
    ensures CanRun(Start(1), Leaving())
    ensures After(Start(1), Leaving()).waiters == [1]
    ensures After(Start(1), Leaving()).free == 1 && After(Start(1), Leaving()).active == 0
  {
    hide CanRun, After;
    var s0, holder := Start(1), Request(false, Holding, Acquired);
    WaiterInterruptedTwice();
    var s7 := State(1, 0, 1, [1], map[0 := holder, 1 := Request(true, Gone(true), Queued)]);
    RunStep(s0, Leaving(), 7, s7);
    var s8 := State(1, 0, 1, [1], map[0 := holder, 1 := Request(true, Gone(true), Ended)]);
    RunStep(s0, Leaving(), 8, s8);
    assert Leaving()[..9] == Leaving();
  }

  lemma RunStep(s: State, run: seq<Event>, k: nat, mid: State)
    requires k < |run| && CanRun(s, run[..k]) && After(s, run[..k]) == mid
    requires Enabled(mid, run[k])
    ensures CanRun(s, run[..k + 1]) && After(s, run[..k + 1]) == Step(mid, run[k])
  {
    assert run[..k + 1][..k] == run[..k];
  }

  // -------------------------------------------------------- the position

  // How many tokens stand before this one.
  function IndexOf(waiters: seq<nat>, r: nat): nat
    requires r in waiters
  {
    if waiters[0] == r then 0 else 1 + IndexOf(waiters[1..], r)
  }

  lemma {:induction false} WithoutIndex(waiters: seq<nat>, r: nat, gone: nat)
    requires r in waiters && gone != r
    ensures r in Without(waiters, gone) && IndexOf(Without(waiters, gone), r) <= IndexOf(waiters, r)
  {
    if waiters[0] != gone && waiters[0] != r {
      assert waiters == [waiters[0]] + waiters[1..];
      WithoutIndex(waiters[1..], r, gone);
    }
  }

  lemma {:induction false} IndexAppend(waiters: seq<nat>, r: nat, x: nat)
    requires r in waiters
    ensures IndexOf(waiters + [x], r) == IndexOf(waiters, r)
  {
    assert (waiters + [x])[1..] == waiters[1..] + [x];
    if waiters[0] != r {
      IndexAppend(waiters[1..], r, x);
    }
  }

  lemma StepPosition(s: State, e: Event, r: nat)
    requires Sound(s) && Enabled(s, e) && r in s.requests
    ensures r in Step(s, e).requests
    ensures r in Step(s, e).waiters ==> r in s.waiters && IndexOf(Step(s, e).waiters, r) <= IndexOf(s.waiters, r)
  {
    hide IndexOf;
    WithoutRemoves(s.waiters, e.r);
    if r in s.waiters {
      if e.Enter? {
        IndexAppend(s.waiters, r, e.r);
      } else if e.r != r {
        WithoutIndex(s.waiters, r, e.r);
      }
    }
  }

  lemma {:induction false} RunKeepsSound(s: State, run: seq<Event>)
    requires Sound(s) && CanRun(s, run)
    ensures Sound(After(s, run))
  {
    hide Sound;
    if run != [] {
      RunKeepsSound(s, run[..|run| - 1]);
      StepKeepsSound(After(s, run[..|run| - 1]), run[|run| - 1]);
    }
  }

  // Over any run a token never gains places in front of it, and never comes back.
  lemma {:induction false} PositionNeverGrows(s: State, run: seq<Event>, r: nat)
    requires Sound(s) && CanRun(s, run) && r in s.requests
    ensures r in After(s, run).requests
    ensures r in After(s, run).waiters ==> r in s.waiters && IndexOf(After(s, run).waiters, r) <= IndexOf(s.waiters, r)
  {
    hide Sound, IndexOf;
    if run != [] {
      var last := |run| - 1;
      PositionNeverGrows(s, run[..last], r);
      RunKeepsSound(s, run[..last]);
      StepPosition(After(s, run[..last]), run[last], r);
    }
  }

  // A request waits exactly if the places were taken or others were listed when it entered.
  lemma {:induction false} WaitsByRun(limit: nat, run: seq<Event>, k: nat, r: nat)
    requires CanRun(Start(limit), run) && k < |run| && run[k] == Enter(r)
    ensures CanRun(Start(limit), run[..k])
    ensures var before, after := After(Start(limit), run[..k]), After(Start(limit), run);
      r in after.requests && (after.requests[r].waits <==> before.active >= limit || before.waiters != [])
  {
    hide Step, Enabled;
    var last := |run| - 1;
    if k < last {
      assert run[..last][..k] == run[..k];
      WaitsByRun(limit, run[..last], k, r);
      WaitsKept(After(Start(limit), run[..last]), run[last], r);
    } else {
      KeepsLimit(limit, run[..last]);
      WaitsEntered(After(Start(limit), run[..last]), r);
    }
  }

  // Entering lists the token at the end exactly then, and otherwise leaves the list alone.
  lemma {:induction false} ListedOnEntry(limit: nat, run: seq<Event>, k: nat, r: nat)
    requires CanRun(Start(limit), run) && k < |run| && run[k] == Enter(r)
    ensures CanRun(Start(limit), run[..k]) && CanRun(Start(limit), run[..k + 1])
    ensures var before, after := After(Start(limit), run[..k]), After(Start(limit), run[..k + 1]);
      after.waiters ==
      if before.active >= limit || before.waiters != [] then before.waiters + [r] else before.waiters
  {
    hide Step, Enabled;
    var last := |run| - 1;
    assert run[..k + 1][..k] == run[..k];
    if k < last {
      assert run[..last][..k] == run[..k] && run[..last][..k + 1] == run[..k + 1];
      ListedOnEntry(limit, run[..last], k, r);
    } else {
      assert run[..k + 1] == run;
      KeepsLimit(limit, run[..last]);
      WaitsEntered(After(Start(limit), run[..last]), r);
    }
  }

  lemma WaitsEntered(s: State, r: nat)
    requires Enabled(s, Enter(r))
    ensures r in Step(s, Enter(r)).requests
    ensures Step(s, Enter(r)).requests[r].waits <==> s.active >= s.limit || s.waiters != []
    ensures Step(s, Enter(r)).waiters ==
      if s.active >= s.limit || s.waiters != [] then s.waiters + [r] else s.waiters
  {
  }

  lemma WaitsKept(s: State, e: Event, r: nat)
    requires Enabled(s, e) && r in s.requests
    ensures r in Step(s, e).requests && Step(s, e).requests[r].waits == s.requests[r].waits
  {
  }

  lemma {:induction false} KeepsLimit(limit: nat, run: seq<Event>)
    requires CanRun(Start(limit), run)
    ensures After(Start(limit), run).limit == limit
  {
    if run != [] {
      KeepsLimit(limit, run[..|run| - 1]);
    }
  }

  // The list is in the order of entering: who stands in front entered before.
  ghost predicate InEntryOrder(run: seq<Event>, waiters: seq<nat>) {
    forall a, b, k: nat {:trigger waiters[a], waiters[b], run[k]} ::
      0 <= a < b < |waiters| && k < |run| && run[k] == Enter(waiters[b]) ==> Enter(waiters[a]) in run[..k]
  }

  // Over any run every token listed stands behind all tokens of requests that entered before it.
  lemma {:induction false} ListedByEntry(limit: nat, run: seq<Event>)
    requires CanRun(Start(limit), run)
    ensures InEntryOrder(run, After(Start(limit), run).waiters)
    ensures forall r {:trigger r in After(Start(limit), run).requests} ::
      r in After(Start(limit), run).requests <==> Enter(r) in run
  {
    hide Step, Enabled;
    if run != [] {
      var last := |run| - 1;
      var s := After(Start(limit), run[..last]);
      assert run == run[..last] + [run[last]];
      ListedByEntry(limit, run[..last]);
      RunIsSound(limit, run[..last]);
      EntersOnce(s, run[last]);
      if run[last].Enter? {
        EntryAppended(run, s.waiters, run[last].r);
        InSubsequence(run, s.waiters + [run[last].r], Step(s, run[last]).waiters);
      } else {
        EntryKept(run, s.waiters);
        InSubsequence(run, s.waiters, Step(s, run[last]).waiters);
      }
    }
  }

  // Every element of a, in the order in which b has them.
  ghost predicate Subsequence(a: seq<nat>, b: seq<nat>) {
    exists at: seq<nat> :: IsEmbedding(at, a, b)
  }

  ghost predicate IsEmbedding(at: seq<nat>, a: seq<nat>, b: seq<nat>) {
    && |at| == |a| && (forall i {:trigger at[i]} :: 0 <= i < |a| ==> at[i] < |b| && b[at[i]] == a[i])
    && forall i, j {:trigger at[i], at[j]} :: 0 <= i < j < |a| ==> at[i] < at[j]
  }

  lemma InSubsequence(run: seq<Event>, b: seq<nat>, a: seq<nat>)
    requires InEntryOrder(run, b) && Subsequence(a, b)
    ensures InEntryOrder(run, a)
  {
    var at :| IsEmbedding(at, a, b);
    forall i, j, k: nat {:trigger a[i], a[j], run[k]} | 0 <= i < j < |a| && k < |run| && run[k] == Enter(a[j])
      ensures Enter(a[i]) in run[..k]
    {
      assert b[at[i]] == a[i] && b[at[j]] == a[j];
    }
  }

  lemma SameSubsequence(a: seq<nat>)
    ensures Subsequence(a, a)
  {
    assert IsEmbedding(seq(|a|, i requires 0 <= i < |a| => i), a, a);
  }

  lemma {:induction false} WithoutSubsequence(waiters: seq<nat>, r: nat)
    ensures Subsequence(Without(waiters, r), waiters)
  {
    hide Subsequence;
    if waiters == [] {
      SameSubsequence(waiters);
    } else if waiters[0] == r {
      RestSubsequence(waiters);
    } else {
      WithoutSubsequence(waiters[1..], r);
      ConsSubsequence(waiters[0], Without(waiters[1..], r), waiters[1..]);
      assert [waiters[0]] + waiters[1..] == waiters;
    }
  }

  lemma RestSubsequence(waiters: seq<nat>)
    requires waiters != []
    ensures Subsequence(waiters[1..], waiters)
  {
    assert IsEmbedding(seq(|waiters| - 1, i requires 0 <= i < |waiters| - 1 => i + 1), waiters[1..], waiters);
  }

  lemma ConsSubsequence(x: nat, a: seq<nat>, b: seq<nat>)
    requires Subsequence(a, b)
    ensures Subsequence([x] + a, [x] + b)
  {
    var at :| IsEmbedding(at, a, b);
    var shifted: seq<nat> := seq(|a| + 1, i requires 0 <= i <= |a| => if i == 0 then 0 else at[i - 1] + 1);
    assert IsEmbedding(shifted, [x] + a, [x] + b);
  }

  lemma EntersOnce(s: State, e: Event)
    requires Sound(s) && Enabled(s, e)
    ensures forall r {:trigger r in Step(s, e).requests} ::
      r in Step(s, e).requests <==> r in s.requests || e == Enter(r)
    ensures e.Enter? ==> e.r !in s.requests && Subsequence(Step(s, e).waiters, s.waiters + [e.r])
    ensures !e.Enter? ==> Subsequence(Step(s, e).waiters, s.waiters)
    ensures forall r :: r in s.waiters ==> r in s.requests
  {
    hide Subsequence;
    SameSubsequence(s.waiters);
    SameSubsequence(s.waiters + [e.r]);
    FrontSubsequence(s.waiters, e.r);
    WithoutSubsequence(s.waiters, e.r);
  }

  lemma FrontSubsequence(waiters: seq<nat>, r: nat)
    ensures Subsequence(waiters, waiters + [r])
  {
    assert IsEmbedding(seq(|waiters|, i requires 0 <= i < |waiters| => i), waiters, waiters + [r]);
  }

  lemma EntryAppended(run: seq<Event>, waiters: seq<nat>, r: nat)
    requires run != [] && run[|run| - 1] == Enter(r) && InEntryOrder(run[..|run| - 1], waiters)
    requires forall x {:trigger Enter(x)} :: x in waiters ==> Enter(x) in run[..|run| - 1]
    requires Enter(r) !in run[..|run| - 1] && r !in waiters
    ensures InEntryOrder(run, waiters + [r])
  {
    var last, all := |run| - 1, waiters + [r];
    forall a, b, k: nat {:trigger all[a], all[b], run[k]} |
      0 <= a < b < |all| && k < |run| && run[k] == Enter(all[b])
      ensures Enter(all[a]) in run[..k]
    {
      assert all[a] in waiters;
      if k < last {
        assert run[..last][k] == run[k] && run[..last][..k] == run[..k];
        assert b < |waiters|;
      }
    }
  }

  lemma EntryKept(run: seq<Event>, waiters: seq<nat>)
    requires run != [] && !run[|run| - 1].Enter? && InEntryOrder(run[..|run| - 1], waiters)
    ensures InEntryOrder(run, waiters)
  {
    var last := |run| - 1;
    forall a, b, k: nat {:trigger waiters[a], waiters[b], run[k]} |
      0 <= a < b < |waiters| && k < |run| && run[k] == Enter(waiters[b])
      ensures Enter(waiters[a]) in run[..k]
    {
      assert run[..last][k] == run[k] && run[..last][..k] == run[..k];
    }
  }

  // ------------------------------------------------------------ the class

  datatype WaitSnapshot = WaitSnapshot(limit: nat, active: int, waiting: nat, ahead: nat)

  class LimiterState {
    const limit: nat
    var semaphore: int
    var active: int
    var waiters: seq<nat>
    var requests: map<nat, Request>

    ghost function Snapshot(): State
      reads this
    {
      State(limit, semaphore, active, waiters, requests)
    }

    ghost predicate Valid()
      reads this
    {
      Sound(Snapshot())
    }

    constructor (limit: nat)
      ensures Valid() && Snapshot() == Start(limit)
    {
      this.limit := limit;
      semaphore, active, waiters, requests := limit, 0, [], map[];
      new;
      StartSound(limit);
    }

    method BuildWaitSnapshot(token: nat) returns (snapshot: Option<WaitSnapshot>)
      ensures snapshot ==
        if token in waiters then Some(WaitSnapshot(limit, active, |waiters|, IndexOf(waiters, token))) else None
      ensures snapshot.Some? ==>
        snapshot.value.ahead < |waiters| && waiters[snapshot.value.ahead] == token
        && token !in waiters[..snapshot.value.ahead]
    {
      if token !in waiters {
        return None;
      }
      var k := 0;
      while waiters[k] != token
        invariant k < |waiters| && token !in waiters[..k]
        decreases |waiters| - k
      {
        assert waiters[..k + 1] == waiters[..k] + [waiters[k]];
        k := k + 1;
        assert token !in waiters[..k];
        assert waiters == waiters[..k] + waiters[k..];
      }
      FirstIndex(waiters, token, k);
      return Some(WaitSnapshot(limit, active, |waiters|, k));
    }

    // Removes a token that may not be on the list.
    method RemoveWaiter(token: nat)
      modifies this`waiters
      ensures waiters == Without(old(waiters), token)
      ensures token !in old(waiters) ==> waiters == old(waiters)
      ensures token in old(waiters) ==>
        exists k :: (0 <= k < |old(waiters)| && old(waiters)[k] == token && token !in old(waiters)[..k]
                     && waiters == old(waiters)[..k] + old(waiters)[k + 1..])
    {
      var k := 0;
      while k < |waiters| && waiters[k] != token
        invariant k <= |waiters| && token !in waiters[..k]
      {
        assert waiters[..k + 1] == waiters[..k] + [waiters[k]];
        k := k + 1;
      }
      WithoutAt(waiters, token, k);
      if k < |waiters| {
        waiters := waiters[..k] + waiters[k + 1..];
      }
    }

    // Entering: the token goes on the list if a request is ahead, and the helper starts.
    method EnterRequest(r: nat) returns (snapshot: Option<WaitSnapshot>)
      requires Valid() && Enabled(Snapshot(), Enter(r))
      modifies this
      ensures Valid() && Snapshot() == Step(old(Snapshot()), Enter(r))
      ensures snapshot.Some? <==> old(active) >= limit || old(waiters) != []
      ensures waiters == if old(active) >= limit || old(waiters) != [] then old(waiters) + [r] else old(waiters)
      ensures requests == old(requests)[r := Request(r in waiters, Acquiring, Queued)]
      ensures semaphore == old(semaphore) && active == old(active)
      ensures snapshot.Some? ==> snapshot.value == WaitSnapshot(limit, old(active), |old(waiters)| + 1, |old(waiters)|)
    {
      assert r !in waiters;
      StepKeepsSound(Snapshot(), Enter(r));
      hide Sound;
      var shouldWait := active >= limit || waiters != [];
      snapshot := None;
      if shouldWait {
        FirstIndex(waiters + [r], r, |waiters|);
        waiters := waiters + [r];
        snapshot := BuildWaitSnapshot(r);
      }
      requests := requests[r := Request(shouldWait, Acquiring, Queued)];
    }

    method GrantPermit(r: nat)
      requires Valid() && Enabled(Snapshot(), Grant(r))
      modifies this
      ensures Valid() && Snapshot() == Step(old(Snapshot()), Grant(r))
      ensures semaphore == old(semaphore) - 1 && active == old(active) && waiters == old(waiters)
      ensures r in old(requests) && requests == old(requests)[r := old(requests)[r].(helper := Granted)]
    {
      hide Sound;
      StepKeepsSound(Snapshot(), Grant(r));
      semaphore := semaphore - 1;
      requests := requests[r := requests[r].(helper := Granted)];
    }

    // The helper task runs to its end with the permit it was handed.
    method FinishHelper(r: nat)
      requires Valid() && Enabled(Snapshot(), HelperDone(r))
      modifies this
      ensures Valid() && Snapshot() == Step(old(Snapshot()), HelperDone(r))
      ensures semaphore == old(semaphore) && active == old(active) && waiters == old(waiters)
      ensures r in old(requests) && requests == old(requests)[r := old(requests)[r].(helper := Acquired)]
    {
      hide Sound;
      StepKeepsSound(Snapshot(), HelperDone(r));
      requests := requests[r := requests[r].(helper := Acquired)];
    }

    method ResumeRequest(r: nat)
      requires Valid() && Enabled(Snapshot(), Resume(r))
      modifies this
      ensures Valid() && Snapshot() == Step(old(Snapshot()), Resume(r))
      ensures semaphore == old(semaphore) && active == old(active) + 1 && r !in waiters
      ensures waiters == Without(old(waiters), r)
      ensures r in old(requests) && requests == old(requests)[r := old(requests)[r].(phase := Holding)]
    {
      TokenOffIs(Snapshot(), r);
      hide Sound;
      StepKeepsSound(Snapshot(), Resume(r));
      if requests[r].waits {
        RemoveWaiter(r);
      }
      active := active + 1;
      requests := requests[r := requests[r].(phase := Holding)];
    }

    // Interrupted while acquiring: a finished helper's permit is given back at once, an
    // unfinished helper is cancelled and awaited.
    method InterruptRequest(r: nat)
      requires Valid() && Enabled(Snapshot(), Interrupt(r))
      modifies this
      ensures Valid() && Snapshot() == Step(old(Snapshot()), Interrupt(r))
      ensures active == old(active) && r in old(requests)
      ensures var q := old(requests)[r];
        if q.helper == Acquired then
          && semaphore == old(semaphore) + 1 && waiters == Without(old(waiters), r)
          && requests == old(requests)[r := q.(phase := Gone(false), helper := Ended)]
        else
          && semaphore == old(semaphore) && waiters == old(waiters)
          && requests == old(requests)[r := q.(phase := Cleaning)]
    {
      TokenOffIs(Snapshot(), r);
      hide Sound;
      StepKeepsSound(Snapshot(), Interrupt(r));
      if requests[r].helper.Acquired? {
        semaphore := semaphore + 1;
        if requests[r].waits {
          RemoveWaiter(r);
        }
        requests := requests[r := requests[r].(phase := Gone(false), helper := Ended)];
      } else {
        requests := requests[r := requests[r].(phase := Cleaning)];
      }
    }

    method CancelHelper(r: nat)
      requires Valid() && Enabled(Snapshot(), HelperCancelled(r))
      modifies this
      ensures Valid() && Snapshot() == Step(old(Snapshot()), HelperCancelled(r))
      ensures active == old(active) && waiters == old(waiters) && r in old(requests)
      ensures semaphore == if old(requests)[r].helper == Granted then old(semaphore) + 1 else old(semaphore)
      ensures requests == old(requests)[r := old(requests)[r].(helper := Ended)]
    {
      hide Sound;
      StepKeepsSound(Snapshot(), HelperCancelled(r));
      if requests[r].helper.Granted? {
        semaphore := semaphore + 1;
      }
      requests := requests[r := requests[r].(helper := Ended)];
    }

    method EndCleanup(r: nat)
      requires Valid() && Enabled(Snapshot(), CleanupEnds(r))
      modifies this
      ensures Valid() && Snapshot() == Step(old(Snapshot()), CleanupEnds(r))
      ensures semaphore == old(semaphore) && active == old(active) && waiters == Without(old(waiters), r)
      ensures r in old(requests) && requests == old(requests)[r := old(requests)[r].(phase := Gone(false))]
    {
      TokenOffIs(Snapshot(), r);
      hide Sound;
      StepKeepsSound(Snapshot(), CleanupEnds(r));
      if requests[r].waits {
        RemoveWaiter(r);
      }
      requests := requests[r := requests[r].(phase := Gone(false))];
    }

    method InterruptCleanup(r: nat)
      requires Valid() && Enabled(Snapshot(), InterruptAgain(r))
      modifies this
      ensures Valid() && Snapshot() == Step(old(Snapshot()), InterruptAgain(r))
      ensures semaphore == old(semaphore) && active == old(active) && waiters == old(waiters)
      ensures r in old(requests) && requests == old(requests)[r := old(requests)[r].(phase := Gone(true))]
    {
      hide Sound;
      StepKeepsSound(Snapshot(), InterruptAgain(r));
      requests := requests[r := requests[r].(phase := Gone(true))];
    }

    method ReleaseRequest(r: nat)
      requires Valid() && Enabled(Snapshot(), Release(r))
      modifies this
      ensures Valid() && Snapshot() == Step(old(Snapshot()), Release(r))
      ensures semaphore == old(semaphore) + 1 && waiters == old(waiters) && r in old(requests)
      ensures requests == old(requests)[r := old(requests)[r].(phase := Gone(false), helper := Ended)]
      ensures active == old(active) - 1
    {
      StepKeepsSound(Snapshot(), Release(r));
      ClampNeverFires(Snapshot(), r);
      hide Sound;
      active := Max(0, active - 1);
      semaphore := semaphore + 1;
      requests := requests[r := requests[r].(phase := Gone(false), helper := Ended)];
    }
  }

  // A request that put no token on the list has none there.
  lemma TokenOffIs(s: State, r: nat)
    requires Sound(s) && r in s.requests
    ensures TokenOff(s, r) == Without(s.waiters, r) && r !in Without(s.waiters, r)
  {
    WithoutRemoves(s.waiters, r);
    if !s.requests[r].waits {
      assert r !in s.waiters;
      WithoutAt(s.waiters, r, |s.waiters|);
    }
  }

  lemma {:induction false} FirstIndex(waiters: seq<nat>, token: nat, k: nat)
    requires k < |waiters| && waiters[k] == token && token !in waiters[..k]
    ensures token in waiters && IndexOf(waiters, token) == k
  {
    if k > 0 {
      assert waiters[..k][0] == waiters[0];
      assert forall x :: x in waiters[1..][..k - 1] ==> x in waiters[..k];
      FirstIndex(waiters[1..], token, k - 1);
    }
  }

  lemma {:induction false} WithoutAt(waiters: seq<nat>, token: nat, k: nat)
    requires k <= |waiters| && token !in waiters[..k] && (k < |waiters| ==> waiters[k] == token)
    ensures Without(waiters, token) == if k < |waiters| then waiters[..k] + waiters[k + 1..] else waiters
  {
    if k > 0 {
      assert waiters[..k][0] == waiters[0];
      assert forall x :: x in waiters[1..][..k - 1] ==> x in waiters[..k];
      WithoutAt(waiters[1..], token, k - 1);
    }
  }
}
