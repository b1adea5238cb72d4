/** The actions of the frontier and what each operation does to them. */
module Actions {
  import opened Prelude
  import opened Graph

  type ActionId = Node

  datatype ActionState = Open | Claimed | Done | Blocked | Exhausted | Cancelled | Stopped {
    predicate IsTerminal() { !Open? && !Claimed? }
    /** Terminal without being a failure. */
    predicate IsNonFailureStop() { Cancelled? || Stopped? }
  }

  datatype FailureKind = TransientFailure | ExhaustedFailure | LeaseExpiredFailure | BlockedFailure {
    predicate BlamesWorker() { BlockedFailure? || LeaseExpiredFailure? }
  }

  datatype Reason = Text(text: string) | DepFailed(deps: seq<ActionId>) | StopNote(note: string) | GoalMet(goal: nat)
    | Reported(state: ActionState)

  datatype Action = Action(
    id: ActionId,
    priority: nat,
    state: ActionState,
    claimedBy: Option<string>,
    assignee: Option<string>,
    assignedAt: Option<int>,
    claimedAt: Option<int>,
    leaseUntil: Option<int>,
    requeueCount: nat,
    dependsOn: seq<ActionId>,
    paused: bool,
    steerPending: seq<string>,
    steerDelivered: nat,
    goalId: Option<nat>,
    requiredCapabilities: seq<string>,
    transientRetries: nat,
    notBefore: Option<int>,
    lastFailureKind: Option<FailureKind>,
    lastFailureReason: Option<Reason>,
    lastResponsible: Option<string>,
    escalated: bool,
    outcomeMemoryId: Option<nat>,
    createdAt: int,
    updatedAt: int)
  {
    predicate Live() { !state.IsTerminal() }
    function Owner(): Option<string> { if assignee.Some? then assignee else claimedBy }
  }

  type ActionMap = map<ActionId, Action>

  datatype FrontierError =
    | NotFound | WrongState | InBackoff | WaitingOn(deps: seq<ActionId>) | DepsFailed(deps: seq<ActionId>) | NotOwner
    | AlreadyAssigned | AlreadyPaused | PausedNow | BadArgument | TooManyNotes
    | SelfDependency | MissingDependency(dep: ActionId) | DependencyCycle | FrontierFull

  datatype Result<+T> = Ok(value: T) | Err(error: FrontierError)

  const MAX_REQUEUES: nat := 2
  const MAX_TRANSIENT_RETRIES: nat := 5
  const TRANSIENT_BACKOFF_BASE_SECS: int := 30
  const TRANSIENT_BACKOFF_MAX_SECS: int := 900
  const MAX_OPEN: nat := 64
  const MAX_STEER_NOTES: nat := 16
  const U32_MAX: nat := 0xFFFF_FFFF
  const I64_MAX: int := 0x7FFF_FFFF_FFFF_FFFF
  const I64_MIN: int := -0x8000_0000_0000_0000

  /** Saturating addition of clock values. */
  function SatAdd(a: int, b: int): int {
    if a + b > I64_MAX then I64_MAX else if a + b < I64_MIN then I64_MIN else a + b
  }

  function SatInc(n: nat): nat {
    if n < U32_MAX then n + 1 else n
  }

  function Pow2(n: nat): nat {
    if n == 0 then 1 else 2 * Pow2(n - 1)
  }

  function TransientBackoffSecs(attempt: nat): int {
    var shift := if attempt <= 1 then 0 else if attempt - 1 > 16 then 16 else attempt - 1;
    var secs := TRANSIENT_BACKOFF_BASE_SECS * Pow2(shift);
    if secs > TRANSIENT_BACKOFF_MAX_SECS then TRANSIENT_BACKOFF_MAX_SECS else secs
  }

  // ---- Readiness ------------------------------------------------------------------------

  /** A dependency that can no longer be met: missing, escalated, or terminal without being done. */
  predicate FailedDep(actions: ActionMap, d: ActionId) {
    d !in actions || (actions[d].state != Done && (actions[d].escalated || actions[d].state.IsTerminal()))
  }

  predicate WaitingDep(actions: ActionMap, d: ActionId) {
    d in actions && actions[d].state != Done && !FailedDep(actions, d)
  }

  datatype Readiness = Ready | Waiting(deps: seq<ActionId>) | Failed(deps: seq<ActionId>)

  function FailedDeps(actions: ActionMap, deps: seq<ActionId>): seq<ActionId> {
    Filter(deps, d => FailedDep(actions, d))
  }

  function WaitingDeps(actions: ActionMap, deps: seq<ActionId>): seq<ActionId> {
    Filter(deps, d => WaitingDep(actions, d))
  }

  function ReadinessIn(actions: ActionMap, a: Action): Readiness {
    var failed, waiting := FailedDeps(actions, a.dependsOn), WaitingDeps(actions, a.dependsOn);
    if failed != [] then Failed(failed) else if waiting != [] then Waiting(waiting) else Ready
  }

  method ComputeReadiness(actions: ActionMap, a: Action) returns (r: Readiness)
    ensures r == ReadinessIn(actions, a)
  {
    hide FailedDeps, WaitingDeps;
    NoDepsAtFirst(actions);
    var waiting: seq<ActionId>, failed: seq<ActionId> := [], [];
    var deps := a.dependsOn;
    var i := 0;
    while i < |deps|
      invariant 0 <= i <= |deps|
      invariant failed == FailedDeps(actions, deps[..i]) && waiting == WaitingDeps(actions, deps[..i])
    {
      var d := deps[i];
      DepsOneMore(actions, deps, i);
      if d !in actions {
        failed := failed + [d];
      } else if actions[d].state == Done {
      } else if actions[d].escalated || actions[d].state.IsTerminal() {
        failed := failed + [d];
      } else {
        waiting := waiting + [d];
      }
      i := i + 1;
    }
    assert deps[..i] == deps;
    r := if failed != [] then Failed(failed) else if waiting != [] then Waiting(waiting) else Ready;
  }

  lemma NoDepsAtFirst(actions: ActionMap)
    ensures FailedDeps(actions, []) == [] && WaitingDeps(actions, []) == []
  {
  }

  lemma DepsOneMore(actions: ActionMap, deps: seq<ActionId>, i: nat)
    requires i < |deps|
    ensures FailedDeps(actions, deps[..i + 1]) ==
      if FailedDep(actions, deps[i]) then FailedDeps(actions, deps[..i]) + [deps[i]] else FailedDeps(actions, deps[..i])
    ensures WaitingDeps(actions, deps[..i + 1]) ==
      if WaitingDep(actions, deps[i]) then WaitingDeps(actions, deps[..i]) + [deps[i]]
      else WaitingDeps(actions, deps[..i])
  {
    FilterOneMore(deps, i, d => FailedDep(actions, d));
    FilterOneMore(deps, i, d => WaitingDep(actions, d));
  }

  lemma FilterOneMore<T>(s: seq<T>, i: nat, p: T -> bool)
    requires i < |s|
    ensures Filter(s[..i + 1], p) == if p(s[i]) then Filter(s[..i], p) + [s[i]] else Filter(s[..i], p)
  {
    assert s[..i + 1] == s[..i] + [s[i]];
    FilterAppend(s[..i], s[i], p);
  }

  lemma {:induction false} FilterAppend<T>(s: seq<T>, x: T, p: T -> bool)
    ensures Filter(s + [x], p) == if p(x) then Filter(s, p) + [x] else Filter(s, p)
  {
    if s != [] {
      assert (s + [x])[1..] == s[1..] + [x];
      FilterAppend(s[1..], x, p);
    }
  }

  /** Ready means that every dependency is present and done; failed, that some dependency has failed. */
  lemma ReadinessMeaning(actions: ActionMap, a: Action)
    ensures ReadinessIn(actions, a).Ready?
      <==> forall d :: d in a.dependsOn ==> d in actions && actions[d].state == Done
    ensures ReadinessIn(actions, a).Failed? <==> exists d :: d in a.dependsOn && FailedDep(actions, d)
    ensures ReadinessIn(actions, a).Failed? ==>
      forall d :: d in ReadinessIn(actions, a).deps <==> d in a.dependsOn && FailedDep(actions, d)
  {
    var failed, waiting := FailedDeps(actions, a.dependsOn), WaitingDeps(actions, a.dependsOn);
    if failed != [] {
      assert failed[0] in failed;
    }
    if waiting != [] {
      assert waiting[0] in waiting;
    }
  }

  // ---- Edits of one action -----------------------------------------------------------------

  datatype Edit =
    | Claim(who: string, t0: int, t1: int)
    | Assign(worker: string, t0: int, t1: int)
    | Complete(outcome: nat, terminal: ActionState, actor: string, isAdmin: bool, now: int)
    | Requeue(reason: string, bump: nat, now: int)
    | RetryTransient(reason: string, now: int)
    | Escalate(reason: string, now: int)
    | SetFailureKind(kind: FailureKind)
    | Heartbeat(actor: string, now: int)
    | RenewLease(actor: string, now: int)
    | SetPaused(paused: bool, now: int)
    | Stop(note: string, now: int)
    | Steer(note: string, now: int)

  /** Why an action cannot be taken up at `now`, if it cannot. */
  function TakeUpError(actions: ActionMap, a: Action, now: int): Option<FrontierError> {
    if a.state != Open then Some(WrongState)
    else if a.notBefore.Some? && now < a.notBefore.value then Some(InBackoff)
    else match ReadinessIn(actions, a)
      case Ready => None
      case Waiting(w) => Some(WaitingOn(w))
      case Failed(f) => Some(DepsFailed(f))
  }

  function TakenUp(a: Action, who: string, now: int, lease: int): Action {
    a.(state := Claimed, claimedAt := Some(now), leaseUntil := Some(SatAdd(now, lease)), claimedBy := Some(who),
       updatedAt := now)
  }

  /** Back to Open with ownership cleared. */
  function Disowned(a: Action): Action {
    a.(state := Open, lastResponsible := a.Owner(), claimedBy := None, assignee := None, assignedAt := None,
       claimedAt := None,
       leaseUntil := None)
  }

  /** The action after an edit, or why the edit is refused. */
  function EditAction(actions: ActionMap, lease: int, id: ActionId, e: Edit): Result<Action> {
    if e.Assign? && e.worker == "" then Err(BadArgument)
    else if e.Steer? && e.note == "" then Err(BadArgument)
    else if e.Complete? && e.terminal !in {Done, Blocked, Exhausted} then Err(BadArgument)
    else if id !in actions then Err(NotFound)
    else
      var a := actions[id];
      match e
      case Claim(who, t0, t1) =>
        var refused := TakeUpError(actions, a, t0);
        if refused.Some? then Err(refused.value)
        else if a.assignee.Some? && a.assignee.value != who then Err(NotOwner)
        else
          var c := TakenUp(a, who, t1, lease);
          Ok(if a.assignee.None? then c.(assignee := Some(who), assignedAt := Some(t1)) else c)
      case Assign(worker, t0, t1) =>
        var refused := TakeUpError(actions, a, t0);
        if refused.Some? then Err(refused.value)
        else if a.assignee.Some? then Err(AlreadyAssigned)
        else Ok(TakenUp(a, worker, t1, lease).(assignee := Some(worker), assignedAt := Some(t1)))
      case Complete(outcome, terminal, actor, isAdmin, now) =>
        if a.state.IsTerminal() then Err(WrongState)
        else if a.paused then Err(PausedNow)
        else if a.Owner().Some? && a.Owner().value != actor && !isAdmin then Err(NotOwner)
        else
          var c := a.(state := terminal, outcomeMemoryId := Some(outcome), updatedAt := now);
          Ok(if terminal == Done then c else c.(lastFailureReason := Some(Reported(terminal)),
                                                lastResponsible := a.assignee))
      case Requeue(reason, bump, now) =>
        if a.state in {Open, Done} || a.state.IsNonFailureStop() then Err(WrongState)
        else Ok(Disowned(a).(lastFailureReason := Some(Text(reason)), requeueCount := SatInc(a.requeueCount),
                             escalated := false,
                             priority := if a.priority + bump > 10 then 10 else a.priority + bump, updatedAt := now))
      case RetryTransient(reason, now) =>
        if a.state == Done || a.state.IsNonFailureStop() then Err(WrongState)
        else
          var n := SatInc(a.transientRetries);
          Ok(Disowned(a).(transientRetries := n, notBefore := Some(SatAdd(now, TransientBackoffSecs(n))),
                          lastFailureKind := Some(TransientFailure), lastFailureReason := Some(Text(reason)),
                          updatedAt := now))
      case Escalate(reason, now) =>
        Ok(a.(escalated := true, lastFailureReason := Some(Text(reason)), lastResponsible := a.Owner(),
              state := if a.state.IsTerminal() then a.state else Blocked, updatedAt := now))
      case SetFailureKind(kind) => Ok(a.(lastFailureKind := Some(kind)))
      case Heartbeat(actor, now) =>
        if a.Owner() != Some(actor) then Err(NotOwner)
        else if !a.state.IsNonFailureStop() && a.state != Claimed then Err(WrongState)
        else
          var c := a.(steerPending := [], steerDelivered := a.steerDelivered + |a.steerPending|, updatedAt := now);
          Ok(if !a.state.IsNonFailureStop() && !a.paused then c.(leaseUntil := Some(SatAdd(now, lease))) else c)
      case RenewLease(actor, now) =>
        if a.state != Claimed then Err(WrongState)
        else if a.Owner() != Some(actor) then Err(NotOwner)
        else Ok(a.(leaseUntil := Some(SatAdd(now, lease)), updatedAt := now))
      case SetPaused(paused, now) =>
        if a.state != Claimed then Err(WrongState)
        else if a.paused == paused then Err(AlreadyPaused)
        else
          var c := a.(paused := paused, updatedAt := now);
          Ok(if paused then c else c.(leaseUntil := Some(SatAdd(now, lease))))
      case Stop(note, now) =>
        if a.state.IsTerminal() then Err(WrongState)
        else Ok(a.(state := Stopped, paused := false, lastFailureReason := Some(StopNote(note)), leaseUntil := None,
                   notBefore := None, updatedAt := now))
      case Steer(note, now) =>
        if a.state != Claimed then Err(WrongState)
        else if |a.steerPending| >= MAX_STEER_NOTES then Err(TooManyNotes)
        else Ok(a.(steerPending := a.steerPending + [note], updatedAt := now))
  }

  function Applied(actions: ActionMap, id: ActionId, r: Result<Action>): ActionMap {
    if r.Ok? then actions[id := r.value] else actions
  }

  // ---- Dependencies -------------------------------------------------------------------------

  /** The dependency edges, including those to actions that have been pruned. */
  function Deps(actions: ActionMap): Graph {
    map id | id in actions :: actions[id].dependsOn
  }

  /** Why a list of dependencies is refused, if it is. */
  ghost function DepsError(actions: ActionMap, id: ActionId, deps: seq<ActionId>): Option<FrontierError> {
    var i := FirstIndex(deps, d => d == id || d !in actions);
    if i < |deps| then Some(if deps[i] == id then SelfDependency else MissingDependency(deps[i]))
    else if AnyReaches(Deps(actions), deps, id) then Some(DependencyCycle)
    else None
  }

  method ValidateDeps(actions: ActionMap, id: ActionId, deps: seq<ActionId>) returns (r: Result<()>)
    ensures r == match DepsError(actions, id, deps) case None => Ok(()) case Some(e) => Err(e)
  {
    var i := 0;
    while i < |deps|
      invariant 0 <= i <= |deps| && i <= FirstIndex(deps, d => d == id || d !in actions)
    {
      if deps[i] == id {
        assert FirstIndex(deps, d => d == id || d !in actions) == i;
        return Err(SelfDependency);
      }
      if deps[i] !in actions {
        assert FirstIndex(deps, d => d == id || d !in actions) == i;
        return Err(MissingDependency(deps[i]));
      }
      i := i + 1;
    }
    var cycle := Search(Deps(actions), deps, id);
    return if cycle then Err(DependencyCycle) else Ok(());
  }

  /** Among dependency lists over existing actions, exactly those that would close a cycle are refused. */
  lemma ValidationRejectsExactlyCycles(actions: ActionMap, id: ActionId, deps: seq<ActionId>)
    requires Acyclic(Deps(actions))
    requires forall d :: d in deps ==> d in actions
    ensures DepsError(actions, id, deps).None? <==> Acyclic(Deps(actions)[id := deps])
  {
    NewEdgesCloseACycle(Deps(actions), id, deps);
    var i := FirstIndex(deps, d => d == id || d !in actions);
    if i < |deps| {
      ReachesItself(Deps(actions), id);
      assert deps[i] in deps;
    }
  }

  function InsertDistinct(s: seq<ActionId>, x: ActionId): (r: seq<ActionId>)
    ensures forall y :: y in r <==> y in s || y == x
    ensures (forall i, j :: 0 <= i < j < |s| ==> s[i] < s[j]) ==> forall i, j :: 0 <= i < j < |r| ==> r[i] < r[j]
  {
    if s == [] || x < s[0] then [x] + s
    else if x == s[0] then s
    else
      assert s == [s[0]] + s[1..];
      var rest := InsertDistinct(s[1..], x);
      assert forall j :: 0 <= j < |rest| ==> rest[j] in rest;
      assert (forall i, j :: 0 <= i < j < |s| ==> s[i] < s[j]) ==> forall j :: 0 <= j < |rest| ==> s[0] < rest[j];
      [s[0]] + rest
  }

  /** Sorted, without repetitions. */
  function SortDedup(s: seq<ActionId>): (r: seq<ActionId>)
    ensures forall y :: y in r <==> y in s
    ensures forall i, j :: 0 <= i < j < |r| ==> r[i] < r[j]
  {
    if s == [] then []
    else
      assert s == s[..|s| - 1] + [s[|s| - 1]];
      InsertDistinct(SortDedup(s[..|s| - 1]), s[|s| - 1])
  }

  // ---- Cascading failures ----------------------------------------------------------------------

  /** A chain of live actions, each depending on the next, that ends in a failed dependency. */
  ghost predicate FailingChain(actions: ActionMap, p: seq<ActionId>) {
    && |p| > 1
    && (forall i :: 0 <= i < |p| - 1 ==> p[i] in actions && actions[p[i]].Live() && Edge(Deps(actions), p[i], p[i + 1]))
    && FailedDep(actions, p[|p| - 1])
  }

  /** A live action from which a failed or missing dependency is reachable through live ones. */
  ghost predicate Doomed(actions: ActionMap, id: ActionId) {
    exists p :: FailingChain(actions, p) && p[0] == id
  }

  function BlockedBy(a: Action, failed: seq<ActionId>, now: int): Action {
    a.(state := Blocked, lastFailureKind := Some(BlockedFailure), lastFailureReason := Some(DepFailed(failed)),
       lastResponsible := a.Owner(), claimedBy := None, assignee := None, claimedAt := None,
       leaseUntil := None, updatedAt := now)
  }

  /** `a` was blocked for some of its dependencies, every one of which had failed or was itself doomed. */
  ghost predicate BlockedForCause(actions: ActionMap, a: Action, a': Action, now: int) {
    exists failed :: failed != [] && a' == BlockedBy(a, failed, now)
      && forall d :: d in failed ==> d in a.dependsOn && (FailedDep(actions, d) || Doomed(actions, d))
  }

  /** The effect of a cascade: exactly the doomed actions are blocked, for cause, and nothing else changes. */
  ghost predicate Cascaded(before: ActionMap, after: ActionMap, now: int) {
    && after.Keys == before.Keys
    && forall id :: id in before ==>
         if Doomed(before, id) then BlockedForCause(before, before[id], after[id], now) else after[id] == before[id]
  }

  /** A stage of the cascade: some doomed actions are blocked, the rest is as before. */
  ghost predicate Cascading(before: ActionMap, cur: ActionMap, now: int) {
    && cur.Keys == before.Keys
    && forall id :: id in before ==>
         cur[id] == before[id]
         || (before[id].Live() && Doomed(before, id) && BlockedForCause(before, before[id], cur[id], now))
  }

  predicate Victim(actions: ActionMap, id: ActionId) {
    id in actions && actions[id].Live() && ReadinessIn(actions, actions[id]).Failed?
  }

  lemma VictimIsDoomed(before: ActionMap, cur: ActionMap, now: int, id: ActionId)
    requires Cascading(before, cur, now) && Victim(cur, id)
    ensures before[id] == cur[id] && Doomed(before, id)
    ensures var failed := ReadinessIn(cur, cur[id]).deps;
      BlockedForCause(before, before[id], BlockedBy(cur[id], failed, now), now)
  {
    hide Doomed, ReadinessIn;
    ReadinessMeaning(cur, cur[id]);
    var failed := ReadinessIn(cur, cur[id]).deps;
    forall d | d in failed
      ensures d in before[id].dependsOn && (FailedDep(before, d) || Doomed(before, d))
    {
      assert d in cur[id].dependsOn && FailedDep(cur, d);
    }
    assert failed[0] in failed;
    DoomedThrough(before, id, failed[0]);
  }

  lemma DoomedThrough(actions: ActionMap, id: ActionId, d: ActionId)
    requires id in actions && actions[id].Live() && d in actions[id].dependsOn
    requires FailedDep(actions, d) || Doomed(actions, d)
    ensures Doomed(actions, id)
  {
    if FailedDep(actions, d) {
      assert FailingChain(actions, [id, d]);
    } else {
      var p :| FailingChain(actions, p) && p[0] == d;
      var q := [id] + p;
      forall i | 0 <= i < |q| - 1
        ensures q[i] in actions && actions[q[i]].Live() && Edge(Deps(actions), q[i], q[i + 1])
      {
        if i > 0 {
          assert p[i - 1] in actions && Edge(Deps(actions), p[i - 1], p[i - 1 + 1]);
        }
      }
      assert FailingChain(actions, q) && q[0] == id;
    }
  }

  /** At the fixpoint every action on a failing chain counts as failed. */
  lemma {:induction false} ChainHasFailed(before: ActionMap, cur: ActionMap, now: int, p: seq<ActionId>, k: nat)
    requires Cascading(before, cur, now) && forall id :: !Victim(cur, id)
    requires FailingChain(before, p) && k < |p|
    ensures FailedDep(cur, p[k])
    ensures k < |p| - 1 ==> p[k] in before && cur[p[k]] != before[p[k]]
    decreases |p| - k
  {
    if k < |p| - 1 {
      ChainHasFailed(before, cur, now, p, k + 1);
      assert p[k] in before && Edge(Deps(before), p[k], p[k + 1]);
      if cur[p[k]] == before[p[k]] {
        ReadinessMeaning(cur, cur[p[k]]);
        assert Victim(cur, p[k]);
      }
    }
  }

  lemma FixpointIsCascaded(before: ActionMap, cur: ActionMap, now: int)
    requires Cascading(before, cur, now) && forall id :: !Victim(cur, id)
    ensures Cascaded(before, cur, now)
  {
    forall id | id in before && Doomed(before, id)
      ensures BlockedForCause(before, before[id], cur[id], now)
    {
      var p :| FailingChain(before, p) && p[0] == id;
      ChainHasFailed(before, cur, now, p, 0);
    }
  }

  /** Block every action with a failed dependency, round by round, until none is left. */
  method CascadeAll(before: ActionMap, now: int) returns (cur: ActionMap, blocked: set<ActionId>)
    ensures Cascaded(before, cur, now)
    ensures blocked == set id | id in before && Doomed(before, id)
  {
    hide BlockedForCause, ReadinessIn, Doomed;
    cur := before;
    blocked := {};
    while true
      invariant Cascading(before, cur, now)
      invariant forall id :: id in blocked <==> id in before && cur[id] != before[id]
      decreases |LiveIds(cur)|
    {
      var victims := set id | id in cur && Victim(cur, id);
      if victims == {} {
        break;
      }
      var round := cur;
      var todo := victims;
      while todo != {}
        invariant todo <= victims
        invariant cur.Keys == before.Keys
        invariant forall id :: id in cur ==>
          cur[id] == if id in victims - todo then BlockedBy(round[id], ReadinessIn(round, round[id]).deps, now)
                    else round[id]
        decreases todo
      {
        var id :| id in todo;
        todo := todo - {id};
        var f := ReadinessIn(round, round[id]).deps;
        cur := cur[id := BlockedBy(cur[id], f, now)];
      }
      RoundIsCascading(before, round, cur, now, victims);
      blocked := blocked + victims;
      RoundShrinksLive(round, cur, victims);
    }
    FixpointIsCascaded(before, cur, now);
    BlockedAreDoomed(before, cur, now, blocked);
  }

  ghost function LiveIds(actions: ActionMap): set<ActionId> {
    set id | id in actions && actions[id].Live()
  }

  lemma RoundIsCascading(before: ActionMap, round: ActionMap, cur: ActionMap, now: int, victims: set<ActionId>)
    requires Cascading(before, round, now) && cur.Keys == before.Keys
    requires victims == set id | id in round && Victim(round, id)
    requires forall id :: id in cur ==>
      cur[id] == if id in victims then BlockedBy(round[id], ReadinessIn(round, round[id]).deps, now) else round[id]
    ensures Cascading(before, cur, now)
    ensures forall id :: id in before ==> (cur[id] != before[id] <==> round[id] != before[id] || id in victims)
  {
    hide BlockedForCause, Doomed, ReadinessIn;
    forall id | id in before
      ensures cur[id] == before[id]
        || (before[id].Live() && Doomed(before, id) && BlockedForCause(before, before[id], cur[id], now))
    {
      if id in victims {
        VictimIsDoomed(before, round, now, id);
      }
    }
    forall id | id in before
      ensures cur[id] != before[id] <==> round[id] != before[id] || id in victims
    {
      if id in victims {
        VictimIsDoomed(before, round, now, id);
      }
    }
  }

  lemma RoundShrinksLive(round: ActionMap, cur: ActionMap, victims: set<ActionId>)
    requires cur.Keys == round.Keys && victims != {}
    requires forall id :: id in victims ==> id in round && round[id].Live() && !cur[id].Live()
    requires forall id :: id in cur && id !in victims ==> cur[id] == round[id]
    ensures |LiveIds(cur)| < |LiveIds(round)|
  {
    assert LiveIds(cur) == LiveIds(round) - victims;
    var id :| id in victims;
    assert id in LiveIds(round);
  }

  lemma BlockedAreDoomed(before: ActionMap, cur: ActionMap, now: int, blocked: set<ActionId>)
    requires Cascaded(before, cur, now) && Cascading(before, cur, now)
    requires forall id :: id in blocked <==> id in before && cur[id] != before[id]
    ensures blocked == set id | id in before && Doomed(before, id)
  {
    forall id | id in before && Doomed(before, id)
      ensures id in blocked
    {
      var p :| FailingChain(before, p) && p[0] == id;
      assert before[id].Live();
      assert BlockedForCause(before, before[id], cur[id], now);
    }
  }
}
