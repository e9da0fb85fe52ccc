/**
 The router: every submission goes to the healthy upstream server with the least load for
 its capacity, and is retried on another one while servers turn out to be unavailable.
 */
module Router {
  import opened Wrappers
  import opened Counting

  // What the scheduler reads and writes of one upstream server.
  datatype Server = Server(isLocal: bool, healthy: bool, queued: nat, processing: nat, maxRequests: int, pending: nat)

  function Load(server: Server): nat {
    server.queued + server.processing + server.pending
  }

  function Capacity(server: Server): (c: int)
    ensures c >= 1
  {
    Max(1, server.maxRequests)
  }

  function Score(server: Server): real {
    Load(server) as real / Capacity(server) as real
  }

  // The sort key's order: score, then submissions under way, then local servers first.
  predicate Before(a: Server, b: Server) {
    || Score(a) < Score(b)
    || (Score(a) == Score(b) && a.pending < b.pending)
    || (Score(a) == Score(b) && a.pending == b.pending && a.isLocal && !b.isLocal)
  }

  predicate Candidate(servers: seq<Server>, excluded: set<nat>, i: nat) {
    i < |servers| && servers[i].healthy && i !in excluded
  }

  // A candidate no candidate comes before.
  ghost predicate IsLeast(servers: seq<Server>, excluded: set<nat>, i: nat) {
    && Candidate(servers, excluded, i)
    && forall j: nat {:trigger Candidate(servers, excluded, j)} ::
         Candidate(servers, excluded, j) ==> !Before(servers[j], servers[i])
  }

  function Assigned(servers: seq<Server>, i: nat): seq<Server>
    requires i < |servers|
  {
    servers[i := servers[i].(pending := servers[i].pending + 1)]
  }

  function Released(servers: seq<Server>, i: nat): seq<Server> {
    if i < |servers| && servers[i].pending > 0 then servers[i := servers[i].(pending := servers[i].pending - 1)]
    else servers
  }

  function Marked(servers: seq<Server>, i: nat): seq<Server> {
    if i < |servers| then servers[i := servers[i].(healthy := false)] else servers
  }

  // The scores of two servers compared across, without a division.
  lemma ScoreCompares(a: Server, b: Server)
    ensures Score(a) <= Score(b) <==> Load(a) * Capacity(b) <= Load(b) * Capacity(a)
    ensures Score(a) <= Score(b) <==>
      (a.queued + a.processing + a.pending) * Max(1, b.maxRequests) <=
      (b.queued + b.processing + b.pending) * Max(1, a.maxRequests)
  {
    var la, lb, ca, cb := Load(a) as real, Load(b) as real, Capacity(a) as real, Capacity(b) as real;
    FractionsCompare(la, ca, lb, cb);
    assert (la * cb) == (Load(a) * Capacity(b)) as real;
    assert (lb * ca) == (Load(b) * Capacity(a)) as real;
  }

  lemma FractionsCompare(la: real, ca: real, lb: real, cb: real)
    requires ca > 0.0 && cb > 0.0
    ensures la / ca <= lb / cb <==> la * cb <= lb * ca
  {
    var x, y := la / ca, lb / cb;
    assert la == x * ca && lb == y * cb;
    assert la * cb == x * (ca * cb) && lb * ca == y * (ca * cb);
    if x <= y {
      ProductKeepsOrder(x, y, ca * cb);
    } else {
      ProductKeepsOrder(y, x, ca * cb);
      assert (x - y) * (ca * cb) > 0.0;
    }
  }

  lemma ProductKeepsOrder(x: real, y: real, c: real)
    requires x <= y && c > 0.0
    ensures x * c <= y * c
  {
    assert (y - x) * c >= 0.0;
  }

  // ---------------------------------------------------------- the pool

  ghost predicate IsOrder(order: seq<nat>, n: nat) {
    && (forall k {:trigger order[k]} :: 0 <= k < |order| ==> order[k] < n)
    && forall i: nat :: i < n ==> i in order
  }

  // Every candidate ahead of place m comes after the one at m.
  ghost predicate NoneBefore(servers: seq<Server>, excluded: set<nat>, order: seq<nat>, m: nat)
    requires m < |order| && forall k {:trigger order[k]} :: 0 <= k < |order| ==> order[k] < |servers|
  {
    forall k {:trigger order[k]} :: 0 <= k < m && Candidate(servers, excluded, order[k]) ==>
      Before(servers[order[m]], servers[order[k]])
  }

  // Among equals it is the one the shuffle put first.
  ghost predicate FirstOfEquals(servers: seq<Server>, excluded: set<nat>, order: seq<nat>, i: nat)
    requires forall k {:trigger order[k]} :: 0 <= k < |order| ==> order[k] < |servers|
  {
    exists m :: 0 <= m < |order| && order[m] == i && NoneBefore(servers, excluded, order, m)
  }

  class WorkerPool {
    var servers: seq<Server>

    constructor (servers: seq<Server>)
      ensures this.servers == servers
    {
      this.servers := servers;
    }

    // `order` is the order the shuffle left the servers in; the sort keeps it among equals.
    method AcquireSubmissionServer(excluded: set<nat>, order: seq<nat>) returns (selected: Option<nat>)
      requires IsOrder(order, |servers|)
      modifies this
      ensures selected.Some? ==>
        IsLeast(old(servers), excluded, selected.value) && servers == Assigned(old(servers), selected.value)
      ensures selected.None? ==>
        servers == old(servers)
          && forall i: nat {:trigger Candidate(servers, excluded, i)} :: !Candidate(servers, excluded, i)
      ensures selected.None? <==>
        forall j: nat {:trigger old(servers)[j]} ::
          j < |old(servers)| && old(servers)[j].healthy ==> j in excluded
      ensures selected.Some? ==>
        var i := selected.value;
        && i < |old(servers)| && old(servers)[i].healthy && i !in excluded
        && servers == old(servers)[i := old(servers)[i].(pending := old(servers)[i].pending + 1)]
        && forall j: nat {:trigger old(servers)[j]} ::
             j < |old(servers)| && old(servers)[j].healthy && j !in excluded ==>
               var a, b := old(servers)[i], old(servers)[j];
               var la := (a.queued + a.processing + a.pending) * Max(1, b.maxRequests);
               var lb := (b.queued + b.processing + b.pending) * Max(1, a.maxRequests);
               && la <= lb
               && (la == lb ==> a.pending <= b.pending)
               && (la == lb && a.pending == b.pending ==> a.isLocal || !b.isLocal)
      ensures selected.Some? ==> FirstOfEquals(old(servers), excluded, order, selected.value)
    {
      hide Before, Score;
      selected := None;
      for k := 0 to |order|
        invariant servers == old(servers)
        invariant selected.Some? ==>
          exists m :: 0 <= m < k && order[m] == selected.value && NoneBefore(servers, excluded, order, m)
        invariant selected.Some? ==> Candidate(servers, excluded, selected.value)
        invariant forall j {:trigger order[j]} :: 0 <= j < k && Candidate(servers, excluded, order[j]) ==>
          selected.Some? && !Before(servers[order[j]], servers[selected.value])
      {
        var i := order[k];
        if servers[i].healthy && i !in excluded && (selected.None? || Before(servers[i], servers[selected.value])) {
          if selected.Some? {
            forall j {:trigger order[j]} | 0 <= j < k && Candidate(servers, excluded, order[j])
              ensures !Before(servers[order[j]], servers[i])
            {
              BeforeTransitive(servers[order[j]], servers[i], servers[selected.value]);
            }
          }
          BeforeIrreflexive(servers[i]);
          forall m {:trigger order[m]} | 0 <= m < k && Candidate(servers, excluded, order[m])
            ensures Before(servers[i], servers[order[m]])
          {
            BeforeAllOthers(servers[i], servers[selected.value], servers[order[m]]);
          }
          assert NoneBefore(servers, excluded, order, k);
          selected := Some(i);
        }
      }
      forall i: nat {:trigger Candidate(servers, excluded, i)} | Candidate(servers, excluded, i)
        ensures selected.Some? && !Before(servers[i], servers[selected.value])
      {
        assert i in order;
        var j :| 0 <= j < |order| && order[j] == i;
      }
      forall j: nat {:trigger servers[j]} | j < |servers| && servers[j].healthy && j !in excluded
        ensures selected.Some?
      {
        assert Candidate(servers, excluded, j);
      }
      if selected.Some? {
        LeastByFields(servers, excluded, selected.value);
        servers := Assigned(servers, selected.value);
      }
    }

    method ReleaseSubmissionServer(i: nat)
      modifies this
      ensures servers == Released(old(servers), i)
      ensures i < |old(servers)| && old(servers)[i].pending > 0 ==>
        servers == old(servers)[i := old(servers)[i].(pending := old(servers)[i].pending - 1)]
      ensures i >= |old(servers)| || old(servers)[i].pending == 0 ==> servers == old(servers)
    {
      if i >= |servers| {
        return;
      }
      if servers[i].pending > 0 {
        servers := servers[i := servers[i].(pending := servers[i].pending - 1)];
      }
    }

    method MarkSubmissionFailure(i: nat)
      modifies this
      ensures servers == Marked(old(servers), i)
      ensures i < |old(servers)| ==> servers == old(servers)[i := old(servers)[i].(healthy := false)]
      ensures i >= |old(servers)| ==> servers == old(servers)
    {
      if i >= |servers| {
        return;
      }
      servers := servers[i := servers[i].(healthy := false)];
    }
  }

  // The chosen server against any other candidate, by the numbers the servers report.
  lemma LeastByFields(servers: seq<Server>, excluded: set<nat>, i: nat)
    requires IsLeast(servers, excluded, i)
    ensures i < |servers| && servers[i].healthy && i !in excluded
    ensures forall j: nat {:trigger servers[j]} :: j < |servers| && servers[j].healthy && j !in excluded ==>
      var a, b := servers[i], servers[j];
      var la := (a.queued + a.processing + a.pending) * Max(1, b.maxRequests);
      var lb := (b.queued + b.processing + b.pending) * Max(1, a.maxRequests);
      && la <= lb
      && (la == lb ==> a.pending <= b.pending)
      && (la == lb && a.pending == b.pending ==> a.isLocal || !b.isLocal)
  {
    hide Score;
    forall j: nat {:trigger servers[j]} | j < |servers| && servers[j].healthy && j !in excluded
      ensures Load(servers[i]) * Capacity(servers[j]) <= Load(servers[j]) * Capacity(servers[i])
      ensures !Before(servers[j], servers[i])
      ensures Load(servers[i]) * Capacity(servers[j]) == Load(servers[j]) * Capacity(servers[i]) <==>
        Score(servers[i]) == Score(servers[j])
    {
      assert Candidate(servers, excluded, j);
      ScoreCompares(servers[i], servers[j]);
      ScoreCompares(servers[j], servers[i]);
    }
  }

  lemma BeforeIrreflexive(a: Server)
    ensures !Before(a, a)
  {
  }

  lemma BeforeAllOthers(a: Server, b: Server, c: Server)
    requires Before(a, b) && !Before(c, b)
    ensures Before(a, c)
  {
    hide Score;
  }

  lemma BeforeTransitive(a: Server, b: Server, c: Server)
    ensures Before(a, b) && Before(b, c) ==> Before(a, c)
  {
    hide Score;
  }

  // ---------------------------------------------------- the retry loop

  datatype Reply = Accepted | Rejected | Unavailable

  datatype Result = Registered(server: nat) | Refused(server: nat) | NoServer(lastTried: Option<nat>)

  lemma DistinctWithin(tried: seq<nat>, n: nat)
    requires Distinct(tried) && forall k {:trigger tried[k]} :: 0 <= k < |tried| ==> tried[k] < n
    ensures |tried| <= n
  {
    Pigeonhole(tried, Below(n));
  }

  // The awaits of one attempt at which others act: before the choice, until the answer, and
  // between the marking and the release.
  datatype Moment = BeforeChoice | UntilAnswer | BeforeRelease

  // Replies to the attempts, the shuffles, and what other requests and health checks do to
  // the servers at each moment of an attempt.
  datatype World = World(reply: nat -> Reply, order: nat -> seq<nat>,
                         others: (nat, Moment, seq<Server>) -> seq<Server>)

  ghost predicate Possible(world: World, n: nat) {
    && (forall k {:trigger world.order(k)} :: IsOrder(world.order(k), n))
    && forall k, m, servers {:trigger world.others(k, m, servers)} ::
         |servers| == n ==> |world.others(k, m, servers)| == n
  }

  // Nobody else touches the servers.
  ghost predicate Quiet(world: World) {
    forall k, m, servers {:trigger world.others(k, m, servers)} :: world.others(k, m, servers) == servers
  }

  // All places are given back, and only the servers that failed have lost their health.
  ghost predicate OnlyMarked(now: seq<Server>, base: seq<Server>, failed: set<nat>) {
    && |now| == |base|
    && forall i: nat {:trigger now[i]} :: i < |now| ==>
         now[i] == base[i].(healthy := base[i].healthy && i !in failed)
  }

  lemma NothingMarked(base: seq<Server>)
    ensures OnlyMarked(base, base, {})
  {
  }

  lemma Undone(before: seq<Server>, base: seq<Server>, failed: set<nat>, i: nat)
    requires i < |before|
    ensures |Assigned(before, i)| == |before| == |Marked(Assigned(before, i), i)|
    ensures OnlyMarked(before, base, failed) ==>
      && OnlyMarked(Released(Assigned(before, i), i), base, failed)
      && OnlyMarked(Released(Marked(Assigned(before, i), i), i), base, failed + {i})
  {
  }

  lemma QuietMeans(world: World, k: nat, m: Moment, servers: seq<Server>)
    ensures Quiet(world) ==> world.others(k, m, servers) == servers
  {
  }

  // Every server is tried at most once, the first answer that is not an outage decides, and
  // giving up means no healthy server was left untried. Alone, a submission leaves the servers
  // as they were but for the health of those that failed it.
  method SubmitRouterTask(pool: WorkerPool, world: World) returns (result: Result, tried: seq<nat>)
    requires Possible(world, |pool.servers|)
    modifies pool
    ensures |pool.servers| == old(|pool.servers|)
    ensures Distinct(tried) && |tried| <= |pool.servers|
    ensures forall k {:trigger tried[k]} :: 0 <= k < |tried| ==> tried[k] < |pool.servers|
    ensures forall k: nat {:trigger world.reply(k)} :: k < |tried| - 1 ==> world.reply(k).Unavailable?
    ensures match result
      case Registered(i) => tried != [] && tried[|tried| - 1] == i && world.reply(|tried| - 1).Accepted?
      case Refused(i) => tried != [] && tried[|tried| - 1] == i && world.reply(|tried| - 1).Rejected?
      case NoServer(last) =>
        && last == (if tried == [] then None else Some(tried[|tried| - 1]))
        && (tried != [] ==> world.reply(|tried| - 1).Unavailable?)
        && forall i: nat {:trigger pool.servers[i]} :: i < |pool.servers| && pool.servers[i].healthy ==> i in tried
    ensures Quiet(world) ==>
      OnlyMarked(pool.servers, old(pool.servers),
        SetOf(if result.NoServer? then tried else tried[..|tried| - 1]))
  {
    hide IsLeast, OnlyMarked, Assigned, Marked, Released, FirstOfEquals, Quiet;
    var attempted: set<nat> := {};
    ghost var base := pool.servers;
    NothingMarked(base);
    ghost var n := |pool.servers|;
    tried := [];
    while true
      invariant |pool.servers| == n && Distinct(tried)
      invariant attempted == SetOf(tried)
      invariant forall k {:trigger tried[k]} :: 0 <= k < |tried| ==> tried[k] < n
      invariant forall k: nat {:trigger world.reply(k)} :: k < |tried| ==> world.reply(k).Unavailable?
      invariant |tried| <= n
      invariant Quiet(world) ==> OnlyMarked(pool.servers, base, attempted)
      decreases n - |tried|
    {
      QuietMeans(world, |tried|, BeforeChoice, pool.servers);
      pool.servers := world.others(|tried|, BeforeChoice, pool.servers);
      ghost var before := pool.servers;
      var server := pool.AcquireSubmissionServer(attempted, world.order(|tried|));
      if server.None? {
        forall i: nat | i < n && pool.servers[i].healthy ensures i in tried {
          assert !Candidate(pool.servers, attempted, i);
        }
        return NoServer(if tried == [] then None else Some(tried[|tried| - 1])), tried;
      }
      LeastIsCandidate(before, attempted, server.value);
      Undone(before, base, attempted, server.value);
      var k := |tried|;
      tried := tried + [server.value];
      DistinctWithin(tried, n);
      QuietMeans(world, k, UntilAnswer, pool.servers);
      pool.servers := world.others(k, UntilAnswer, pool.servers);
      match world.reply(k) {
        case Accepted =>
          QuietMeans(world, k, BeforeRelease, pool.servers);
          pool.servers := world.others(k, BeforeRelease, pool.servers);
          pool.ReleaseSubmissionServer(server.value);
          return Registered(server.value), tried;
        case Rejected =>
          QuietMeans(world, k, BeforeRelease, pool.servers);
          pool.servers := world.others(k, BeforeRelease, pool.servers);
          pool.ReleaseSubmissionServer(server.value);
          return Refused(server.value), tried;
        case Unavailable =>
          attempted := attempted + {server.value};
          pool.MarkSubmissionFailure(server.value);
          QuietMeans(world, k, BeforeRelease, pool.servers);
          pool.servers := world.others(k, BeforeRelease, pool.servers);
          pool.ReleaseSubmissionServer(server.value);
      }
    }
  }

  lemma LeastIsCandidate(servers: seq<Server>, excluded: set<nat>, i: nat)
    requires IsLeast(servers, excluded, i)
    ensures Candidate(servers, excluded, i)
  {
  }

  // ------------------------------------------- submissions side by side

  // A submission choosing its server, waiting for one's answer, giving its place back, or
  // over.
  datatype Phase = Choosing | InFlight(server: nat) | Releasing(server: nat, again: bool) | Done

  datatype Submission = Submission(phase: Phase, attempted: set<nat>, tries: nat)

  datatype State = State(servers: seq<Server>, submissions: map<nat, Submission>)

  datatype Event =
    | Arrive(s: nat)
    | Choose(s: nat, server: nat)
    | GiveUp(s: nat)
    | Answer(s: nat)
    | Outage(s: nat)
    | Release(s: nat)
    | Refresh(server: nat, healthy: bool, queued: nat, processing: nat, maxRequests: int)

  predicate IsIn(st: State, s: nat, phase: Phase) {
    s in st.submissions && st.submissions[s].phase == phase
  }

  ghost predicate Enabled(st: State, e: Event) {
    match e
    case Arrive(s) => s !in st.submissions
    case Choose(s, i) => IsIn(st, s, Choosing) && IsLeast(st.servers, st.submissions[s].attempted, i)
    case GiveUp(s) => IsIn(st, s, Choosing)
      && forall i: nat {:trigger Candidate(st.servers, st.submissions[s].attempted, i)} ::
      !Candidate(st.servers, st.submissions[s].attempted, i)
    case Answer(s) => s in st.submissions && st.submissions[s].phase.InFlight?
    case Outage(s) => s in st.submissions && st.submissions[s].phase.InFlight?
    case Release(s) => s in st.submissions && st.submissions[s].phase.Releasing?
    case Refresh(i, _, _, _, _) => i < |st.servers|
  }

  ghost function Step(st: State, e: Event): State
    requires Enabled(st, e)
  {
    match e
    case Arrive(s) =>
      st.(submissions := st.submissions[s := Submission(Choosing, {}, 0)])
    case Choose(s, i) =>
      var sub := st.submissions[s];
      st.(servers := Assigned(st.servers, i),
          submissions := st.submissions[s := sub.(phase := InFlight(i), tries := sub.tries + 1)])
    case GiveUp(s) =>
      st.(submissions := st.submissions[s := st.submissions[s].(phase := Done)])
    case Answer(s) =>
      var sub := st.submissions[s];
      st.(submissions := st.submissions[s := sub.(phase := Releasing(sub.phase.server, false))])
    case Outage(s) =>
      var sub := st.submissions[s];
      st.(servers := Marked(st.servers, sub.phase.server),
          submissions := st.submissions[s := sub.(phase := Releasing(sub.phase.server, true),
            attempted := sub.attempted + {sub.phase.server})])
    case Release(s) =>
      var sub := st.submissions[s];
      st.(servers := Released(st.servers, sub.phase.server),
          submissions := st.submissions[s := sub.(phase := if sub.phase.again then Choosing else Done)])
    case Refresh(i, healthy, queued, processing, maxRequests) =>
      st.(servers := st.servers[i := st.servers[i].(healthy := healthy, queued := queued, processing := processing,
        maxRequests := maxRequests)])
  }

  predicate On(phase: Phase, i: nat) {
    (phase.InFlight? || phase.Releasing?) && phase.server == i
  }

  // The submissions holding a place on a server.
  ghost function Under(submissions: map<nat, Submission>, i: nat): set<nat> {
    set s | s in submissions && On(submissions[s].phase, i)
  }

  ghost predicate TriesRight(sub: Submission, n: nat) {
    && (forall i: nat {:trigger i in sub.attempted} :: i in sub.attempted ==> i < n)
    && match sub.phase
       case Choosing => sub.tries == |sub.attempted|
       case InFlight(i) => i < n && i !in sub.attempted && sub.tries == |sub.attempted| + 1
       case Releasing(i, again) => i < n &&
         if again then sub.tries == |sub.attempted|
         else i !in sub.attempted && sub.tries == |sub.attempted| + 1
       case Done => sub.tries <= n
  }

  ghost predicate CountsRight(st: State) {
    forall i: nat {:trigger st.servers[i]} :: i < |st.servers| ==> st.servers[i].pending == |Under(st.submissions, i)|
  }

  ghost predicate Sound(st: State) {
    && CountsRight(st)
    && forall s {:trigger st.submissions[s]} :: s in st.submissions ==> TriesRight(st.submissions[s], |st.servers|)
  }

  lemma UnderChanges(submissions: map<nat, Submission>, s: nat, sub: Submission, i: nat)
    ensures |Under(submissions[s := sub], i)| ==
      |Under(submissions, i)| + One(On(sub.phase, i)) - One(s in submissions && On(submissions[s].phase, i))
  {
    SetChange(Under(submissions, i), Under(submissions[s := sub], i), s);
  }

  // Servers' counts of assigned submissions equal the submissions holding a place there.
  lemma CountsKept(st: State, e: Event)
    requires Sound(st) && Enabled(st, e)
    ensures CountsRight(Step(st, e))
  {
    hide Under, IsLeast, TriesRight, Candidate;
    if e.Choose? {
      LeastIsCandidate(st.servers, st.submissions[e.s].attempted, e.server);
    }
    var st' := Step(st, e);
    forall i: nat {:trigger st'.servers[i]} | i < |st'.servers|
      ensures st'.servers[i].pending == |Under(st'.submissions, i)|
    {
      assert st.servers[i].pending == |Under(st.submissions, i)|;
      if !e.Refresh? {
        UnderChanges(st.submissions, e.s, st'.submissions[e.s], i);
      }
    }
  }

  lemma TriesKept(st: State, e: Event)
    requires Sound(st) && Enabled(st, e)
    ensures |Step(st, e).servers| == |st.servers|
    ensures forall s {:trigger Step(st, e).submissions[s]} :: s in Step(st, e).submissions ==>
      TriesRight(Step(st, e).submissions[s], |st.servers|)
  {
    hide CountsRight, TriesRight;
    if !e.Refresh? {
      var n := |st.servers|;
      if !e.Arrive? {
        assert TriesRight(st.submissions[e.s], n);
      }
      OneTryKept(st, e, n);
    }
  }

  lemma OneTryKept(st: State, e: Event, n: nat)
    requires Enabled(st, e) && !e.Refresh? && n == |st.servers|
    requires e.s in st.submissions ==> TriesRight(st.submissions[e.s], n)
    ensures TriesRight(Step(st, e).submissions[e.s], n)
  {
    if e.s in st.submissions {
      SubsetSize(st.submissions[e.s].attempted, Below(n));
    }
    if e.Release? && !st.submissions[e.s].phase.again {
      SubsetSize(st.submissions[e.s].attempted + {st.submissions[e.s].phase.server}, Below(n));
    }
  }

  lemma StepKeepsSound(st: State, e: Event)
    requires Sound(st) && Enabled(st, e)
    ensures Sound(Step(st, e))
  {
    hide Step, CountsRight, TriesRight;
    CountsKept(st, e);
    TriesKept(st, e);
  }

  ghost predicate CanRun(st: State, run: seq<Event>)
    decreases |run|, 0
  {
    run == [] || (CanRun(st, run[..|run| - 1]) && Enabled(After(st, run[..|run| - 1]), run[|run| - 1]))
  }

  ghost function After(st: State, run: seq<Event>): State
    requires CanRun(st, run)
    decreases |run|, 1
  {
    if run == [] then st else Step(After(st, run[..|run| - 1]), run[|run| - 1])
  }

  ghost predicate Idle(servers: seq<Server>) {
    forall i: nat {:trigger servers[i]} :: i < |servers| ==> servers[i].pending == 0
  }

  lemma {:induction false} RunIsSound(servers: seq<Server>, run: seq<Event>)
    requires Idle(servers) && CanRun(State(servers, map[]), run)
    ensures Sound(After(State(servers, map[]), run))
  {
    if run == [] {
      forall i: nat ensures Under(map[], i) == {} {
      }
    } else {
      hide Sound, Step;
      RunIsSound(servers, run[..|run| - 1]);
      StepKeepsSound(After(State(servers, map[]), run[..|run| - 1]), run[|run| - 1]);
    }
  }

  // No submission is sent more often than there are servers, however the others interleave.
  lemma TriesBounded(st: State, s: nat)
    requires Sound(st) && s in st.submissions
    ensures st.submissions[s].tries <= |st.servers|
  {
    hide CountsRight;
    var sub, n := st.submissions[s], |st.servers|;
    assert TriesRight(sub, n);
    SubsetSize(sub.attempted, Below(n));
    if sub.phase.InFlight? || sub.phase.Releasing? {
      SubsetSize(sub.attempted + {sub.phase.server}, Below(n));
    }
  }

  // A release finds its own submission counted, so it always counts down.
  lemma ReleaseCountsDown(st: State, s: nat)
    requires Sound(st) && Enabled(st, Release(s))
    ensures var i := st.submissions[s].phase.server;
      i < |st.servers| && st.servers[i].pending > 0
        && Step(st, Release(s)).servers[i].pending == st.servers[i].pending - 1
  {
    var i := st.submissions[s].phase.server;
    assert TriesRight(st.submissions[s], |st.servers|);
    assert s in Under(st.submissions, i);
  }

  // The server an outage was met on.
  ghost function FailedServer(st: State, run: seq<Event>, k: nat): nat
    requires CanRun(st, run) && k < |run| && run[k].Outage? && CanRun(st, run[..k])
    requires Enabled(After(st, run[..k]), run[k])
  {
    After(st, run[..k]).submissions[run[k].s].phase.server
  }

  lemma {:induction false} RunPrefix(st: State, run: seq<Event>, k: nat)
    requires CanRun(st, run) && k < |run|
    ensures CanRun(st, run[..k]) && Enabled(After(st, run[..k]), run[k])
    ensures CanRun(st, run[..k + 1]) && After(st, run[..k + 1]) == Step(After(st, run[..k]), run[k])
  {
    hide Step, Enabled;
    assert run[..k + 1][..k] == run[..k];
    if k < |run| - 1 {
      RunPrefix(st, run[..|run| - 1], k);
      assert run[..|run| - 1][..k] == run[..k] && run[..|run| - 1][..k + 1] == run[..k + 1];
    } else {
      assert run[..k + 1] == run;
    }
  }

  predicate FoundHealthy(e: Event, i: nat) {
    e.Refresh? && e.server == i && e.healthy
  }

  lemma OutageMarks(st: State, s: nat)
    requires Sound(st) && Enabled(st, Outage(s))
    ensures s in st.submissions && st.submissions[s].phase.InFlight?
    ensures var i := st.submissions[s].phase.server;
      i < |Step(st, Outage(s)).servers| && !Step(st, Outage(s)).servers[i].healthy
      && i in Step(st, Outage(s)).submissions[s].attempted
  {
    assert TriesRight(st.submissions[s], |st.servers|);
  }

  lemma StaysDown(st: State, e: Event, i: nat)
    requires Enabled(st, e) && i < |st.servers| && !st.servers[i].healthy && !FoundHealthy(e, i)
    ensures i < |Step(st, e).servers| && !Step(st, e).servers[i].healthy
  {
    hide IsLeast;
    if e.Choose? {
      LeastIsCandidate(st.servers, st.submissions[e.s].attempted, e.server);
    }
  }

  // A server that failed is not healthy again before a health check says so.
  lemma {:induction false} DownUntilRefreshed(servers: seq<Server>, run: seq<Event>, k: nat, m: nat)
    requires Idle(servers) && CanRun(State(servers, map[]), run) && k < m <= |run| && run[k].Outage?
    requires CanRun(State(servers, map[]), run[..k]) && Enabled(After(State(servers, map[]), run[..k]), run[k])
    requires var i := FailedServer(State(servers, map[]), run, k);
      forall x: nat {:trigger run[x]} :: k < x < m ==> !FoundHealthy(run[x], i)
    ensures CanRun(State(servers, map[]), run[..m])
    ensures var i := FailedServer(State(servers, map[]), run, k);
      var after := After(State(servers, map[]), run[..m]).servers;
      i < |after| && !after[i].healthy
    decreases m
  {
    hide Step, Enabled, Sound, CanRun, After, FoundHealthy;
    var st := State(servers, map[]);
    RunPrefix(st, run, m - 1);
    if m == k + 1 {
      RunIsSound(servers, run[..k]);
      var before := After(st, run[..k]);
      assert run[k] == Outage(run[k].s);
      OutageMarks(before, run[k].s);
    } else {
      DownUntilRefreshed(servers, run, k, m - 1);
      StaysDown(After(st, run[..m - 1]), run[m - 1], FailedServer(st, run, k));
    }
  }

  // So no submission is sent to it in between.
  lemma FailedIsAvoided(servers: seq<Server>, run: seq<Event>, k: nat, m: nat)
    requires Idle(servers) && CanRun(State(servers, map[]), run) && k < m < |run|
    requires run[k].Outage? && run[m].Choose?
    requires CanRun(State(servers, map[]), run[..k]) && Enabled(After(State(servers, map[]), run[..k]), run[k])
    requires run[m].server == FailedServer(State(servers, map[]), run, k)
    ensures exists x: nat :: k < x < m && FoundHealthy(run[x], run[m].server)
  {
    hide FoundHealthy, Step, IsLeast, CanRun, After;
    var st := State(servers, map[]);
    RunPrefix(st, run, m);
    var before := After(st, run[..m]);
    LeastIsCandidate(before.servers, before.submissions[run[m].s].attempted, run[m].server);
    if forall x: nat {:trigger run[x]} :: k < x < m ==> !FoundHealthy(run[x], run[m].server) {
      DownUntilRefreshed(servers, run, k, m);
      assert false;
    }
  }

  // -------------------------------------------------------- the balance

  // One less than a's load, for its capacity, is no more than b's load for its own.
  predicate Fair(a: Server, b: Server) {
    (Load(a) - 1) * Capacity(b) <= Load(b) * Capacity(a)
  }

  // A run of choices with no release, outage or refresh between them.
  ghost predicate CanChoose(servers: seq<Server>, chosen: seq<nat>)
    decreases |chosen|, 0
  {
    chosen == [] || (CanChoose(servers, chosen[..|chosen| - 1])
                     && IsLeast(AfterChoices(servers, chosen[..|chosen| - 1]), {}, chosen[|chosen| - 1]))
  }

  ghost function AfterChoices(servers: seq<Server>, chosen: seq<nat>): (r: seq<Server>)
    requires CanChoose(servers, chosen)
    ensures |r| == |servers|
    decreases |chosen|, 1
  {
    if chosen == [] then servers else Assigned(AfterChoices(servers, chosen[..|chosen| - 1]), chosen[|chosen| - 1])
  }

  ghost predicate FairTo(servers: seq<Server>, i: nat)
    requires i < |servers|
  {
    forall j: nat {:trigger servers[j]} :: j < |servers| && servers[j].healthy ==> Fair(servers[i], servers[j])
  }

  ghost predicate Balanced(servers: seq<Server>) {
    forall i: nat {:trigger servers[i]} :: i < |servers| && servers[i].healthy ==> FairTo(servers, i)
  }

  lemma ChosenIsFair(servers: seq<Server>, i: nat)
    requires IsLeast(servers, {}, i)
    ensures FairTo(Assigned(servers, i), i)
  {
    hide Before, Score;
    var after := Assigned(servers, i);
    forall j: nat {:trigger after[j]} | j < |after| && after[j].healthy ensures Fair(after[i], after[j]) {
      assert Candidate(servers, {}, j);
      NotBeforeScore(servers[j], servers[i]);
      ScoreCompares(servers[i], servers[j]);
      LoadGrows(servers[i], servers[j]);
    }
  }

  lemma NotBeforeScore(a: Server, b: Server)
    requires !Before(a, b)
    ensures Score(b) <= Score(a)
  {
    hide Score;
  }

  lemma LoadGrows(a: Server, b: Server)
    requires Load(a) * Capacity(b) <= Load(b) * Capacity(a)
    ensures Fair(a.(pending := a.pending + 1), b) && Fair(a.(pending := a.pending + 1), a.(pending := a.pending + 1))
  {
    var more := a.(pending := a.pending + 1);
    assert Load(more) - 1 == Load(a) && Capacity(more) == Capacity(a);
  }

  lemma OtherStaysFair(servers: seq<Server>, a: nat, i: nat)
    requires a < |servers| && i < |servers| && a != i && FairTo(servers, a)
    ensures FairTo(Assigned(servers, i), a)
  {
    var after := Assigned(servers, i);
    forall j: nat {:trigger after[j]} | j < |after| && after[j].healthy ensures Fair(after[a], after[j]) {
      assert Fair(servers[a], servers[j]);
      if j == i {
        assert Capacity(after[i]) == Capacity(servers[i]) && Load(after[i]) == Load(servers[i]) + 1;
        assert Load(after[i]) * Capacity(servers[a]) == Load(servers[i]) * Capacity(servers[a]) + Capacity(servers[a]);
      }
    }
  }

  // Whatever the start and the shuffles, a chosen server ends within one submission of what
  // every healthy server carries for its capacity.
  lemma {:induction false} RunIsFair(servers: seq<Server>, chosen: seq<nat>, i: nat)
    requires CanChoose(servers, chosen) && i < |servers| && (i in chosen || FairTo(servers, i))
    ensures FairTo(AfterChoices(servers, chosen), i)
    ensures var after := AfterChoices(servers, chosen);
      forall j: nat {:trigger after[j]} :: j < |after| && after[j].healthy ==>
        (after[i].queued + after[i].processing + after[i].pending - 1) * Max(1, after[j].maxRequests) <=
        (after[j].queued + after[j].processing + after[j].pending) * Max(1, after[i].maxRequests)
  {
    FairByFields(AfterChoices(servers, chosen), i);
    hide FairTo, IsLeast;
    if chosen != [] {
      var last := |chosen| - 1;
      var mid := AfterChoices(servers, chosen[..last]);
      LeastIsCandidate(mid, {}, chosen[last]);
      if chosen[last] == i {
        ChosenIsFair(mid, i);
      } else {
        assert i in chosen ==> i in chosen[..last];
        RunIsFair(servers, chosen[..last], i);
        OtherStaysFair(mid, i, chosen[last]);
      }
    }
  }

  lemma FairByFields(servers: seq<Server>, i: nat)
    requires i < |servers|
    ensures FairTo(servers, i) ==>
      forall j: nat {:trigger servers[j]} :: j < |servers| && servers[j].healthy ==>
        (servers[i].queued + servers[i].processing + servers[i].pending - 1) * Max(1, servers[j].maxRequests) <=
        (servers[j].queued + servers[j].processing + servers[j].pending) * Max(1, servers[i].maxRequests)
  {
    if FairTo(servers, i) {
      forall j: nat {:trigger servers[j]} | j < |servers| && servers[j].healthy
        ensures Fair(servers[i], servers[j])
      {
      }
    }
  }

  lemma {:induction false} HealthStays(servers: seq<Server>, chosen: seq<nat>, i: nat)
    requires CanChoose(servers, chosen) && i < |servers|
    ensures AfterChoices(servers, chosen)[i].healthy == servers[i].healthy
  {
    if chosen != [] {
      HealthStays(servers, chosen[..|chosen| - 1], i);
    }
  }

  // A balanced pool stays balanced.
  lemma BalanceKept(servers: seq<Server>, chosen: seq<nat>)
    requires CanChoose(servers, chosen) && Balanced(servers)
    ensures Balanced(AfterChoices(servers, chosen))
  {
    hide FairTo, CanChoose, AfterChoices;
    var after := AfterChoices(servers, chosen);
    forall i: nat {:trigger after[i]} | i < |after| && after[i].healthy ensures FairTo(after, i) {
      HealthStays(servers, chosen, i);
      RunIsFair(servers, chosen, i);
    }
  }

  // ------------------------------------------ against any other spread

  ghost function TotalCapacity(servers: seq<Server>): int {
    if servers == [] then 0
    else
      var last := |servers| - 1;
      TotalCapacity(servers[..last]) + if servers[last].healthy then Capacity(servers[last]) else 0
  }

  ghost function TotalLoad(servers: seq<Server>, loads: seq<nat>): int
    requires |loads| == |servers|
  {
    if servers == [] then 0
    else
      var last := |servers| - 1;
      TotalLoad(servers[..last], loads[..last]) + if servers[last].healthy then loads[last] else 0
  }

  ghost function Loads(servers: seq<Server>): (r: seq<nat>)
    ensures |r| == |servers| && forall j {:trigger r[j]} :: 0 <= j < |r| ==> r[j] == Load(servers[j])
  {
    seq(|servers|, j requires 0 <= j < |servers| => Load(servers[j]))
  }

  lemma {:induction false} SumOfShares(servers: seq<Server>, loads: seq<nat>, x: int, c: int)
    requires |loads| == |servers|
    requires forall j: nat {:trigger servers[j]} ::
      j < |servers| && servers[j].healthy ==> x * Capacity(servers[j]) <= loads[j] * c
    ensures x * TotalCapacity(servers) <= TotalLoad(servers, loads) * c
  {
    if servers != [] {
      var last := |servers| - 1;
      var front := servers[..last];
      forall j: nat {:trigger front[j]} | j < last && front[j].healthy
        ensures x * Capacity(front[j]) <= loads[..last][j] * c
      {
        assert servers[j].healthy;
      }
      SumOfShares(front, loads[..last], x, c);
      var cap := if servers[last].healthy then Capacity(servers[last]) else 0;
      var load := if servers[last].healthy then loads[last] else 0;
      Distribute(x, TotalCapacity(front), cap);
      Distribute(c, TotalLoad(front, loads[..last]), load);
    }
  }

  lemma Distribute(x: int, a: int, b: int)
    ensures x * (a + b) == x * a + x * b
  {
  }

  // A chosen server carries at most one submission more than its share of the whole load.
  lemma FairShare(servers: seq<Server>, i: nat)
    requires i < |servers| && FairTo(servers, i)
    ensures (Load(servers[i]) - 1) * TotalCapacity(servers) <= TotalLoad(servers, Loads(servers)) * Capacity(servers[i])
  {
    hide Capacity, Load;
    forall j: nat {:trigger servers[j]} | j < |servers| && servers[j].healthy
      ensures (Load(servers[i]) - 1) * Capacity(servers[j]) <= Loads(servers)[j] * Capacity(servers[i])
    {
      assert Fair(servers[i], servers[j]);
    }
    SumOfShares(servers, Loads(servers), Load(servers[i]) - 1, Capacity(servers[i]));
  }

  // However the same total is spread instead, some healthy server is at least as loaded for
  // its capacity as a chosen one is without its last submission.
  lemma NoSpreadIsMuchBetter(servers: seq<Server>, i: nat, other: seq<nat>)
    requires i < |servers| && servers[i].healthy && FairTo(servers, i) && |other| == |servers|
    requires TotalLoad(servers, other) == TotalLoad(servers, Loads(servers))
    ensures exists j: nat :: (j < |servers| && servers[j].healthy
      && (Load(servers[i]) - 1) * Capacity(servers[j]) <= other[j] * Capacity(servers[i]))
  {
    hide Capacity, Load;
    FairShare(servers, i);
    var x, c := Load(servers[i]) - 1, Capacity(servers[i]);
    if forall j: nat {:trigger servers[j]} ::
         j < |servers| && servers[j].healthy ==> other[j] * c < x * Capacity(servers[j])
    {
      StrictShares(servers, other, x, c, i);
      assert false;
    }
  }

  lemma {:induction false} StrictShares(servers: seq<Server>, loads: seq<nat>, x: int, c: int, i: nat)
    requires |loads| == |servers| && i < |servers| && servers[i].healthy
    requires forall j: nat {:trigger servers[j]} ::
      j < |servers| && servers[j].healthy ==> loads[j] * c < x * Capacity(servers[j])
    ensures TotalLoad(servers, loads) * c < x * TotalCapacity(servers)
  {
    hide Capacity;
    var last := |servers| - 1;
    var front := servers[..last];
    forall j: nat {:trigger front[j]} | j < last && front[j].healthy
      ensures loads[..last][j] * c < x * Capacity(front[j])
    {
      assert servers[j].healthy;
    }
    var cap := if servers[last].healthy then Capacity(servers[last]) else 0;
    var load := if servers[last].healthy then loads[last] else 0;
    Distribute(x, TotalCapacity(front), cap);
    Distribute(c, TotalLoad(front, loads[..last]), load);
    if i < last {
      StrictShares(front, loads[..last], x, c, i);
    } else {
      WeakShares(front, loads[..last], x, c);
    }
  }

  lemma {:induction false} WeakShares(servers: seq<Server>, loads: seq<nat>, x: int, c: int)
    requires |loads| == |servers|
    requires forall j: nat {:trigger servers[j]} ::
      j < |servers| && servers[j].healthy ==> loads[j] * c < x * Capacity(servers[j])
    ensures TotalLoad(servers, loads) * c <= x * TotalCapacity(servers)
  {
    hide Capacity;
    if servers != [] {
      var last := |servers| - 1;
      var front := servers[..last];
      forall j: nat {:trigger front[j]} | j < last && front[j].healthy
        ensures loads[..last][j] * c < x * Capacity(front[j])
      {
        assert servers[j].healthy;
      }
      WeakShares(front, loads[..last], x, c);
      var cap := if servers[last].healthy then Capacity(servers[last]) else 0;
      var load := if servers[last].healthy then loads[last] else 0;
      Distribute(x, TotalCapacity(front), cap);
      Distribute(c, TotalLoad(front, loads[..last]), load);
    }
  }
}
