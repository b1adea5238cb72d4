/** The frontier object. Each method is one critical section; clock readings are its parameters. */
module FrontierStore {
  import opened Prelude
  import opened Graph
  import opened Actions
  import opened Frontier

  /** The lease of a frontier made without a choice. */
  const DEFAULT_LEASE_SECS: int := 900

  /** A claim whose lease has run out; paused claims never expire. */
  predicate LeaseExpired(a: Action, now: int) {
    !a.paused && a.leaseUntil.Some? && a.leaseUntil.value < now
  }

  predicate ExpiredClaim(a: Action, now: int) {
    a.state == Claimed && LeaseExpired(a, now)
  }

  /** A claim that counts as load. */
  predicate HoldsLiveClaim(a: Action, now: int) {
    a.state == Claimed && !a.paused && !LeaseExpired(a, now)
  }

  class ActionFrontier {
    var actions: ActionMap
    var nextId: ActionId
    const leaseSecs: int

    ghost function View(): State
      reads this
    {
      State(actions, nextId)
    }

    ghost predicate Valid()
      reads this
    {
      Inv(View())
    }

    constructor (lease: int)
      ensures Valid() && View() == State(map[], 1)
      ensures leaseSecs == if lease < 1 then 1 else lease
    {
      actions := map[];
      nextId := 1;
      leaseSecs := if lease < 1 then 1 else lease;
      new;
      EmptyIsSound();
    }

    method Claim(id: ActionId, who: string, t0: int, t1: int) returns (r: Result<Action>)
      requires Valid()
      modifies this`actions
      ensures Valid()
      ensures r == EditAction(old(actions), leaseSecs, id, Edit.Claim(who, t0, t1))
      ensures actions == Applied(old(actions), id, r)
    {
      hide Inv, ReadinessIn;
      EditKeepsInv(View(), leaseSecs, id, Edit.Claim(who, t0, t1));
      if id !in actions {
        return Err(NotFound);
      }
      var a := actions[id];
      if a.state != Open {
        return Err(WrongState);
      }
      if a.notBefore.Some? && t0 < a.notBefore.value {
        return Err(InBackoff);
      }
      var readiness := ComputeReadiness(actions, a);
      match readiness {
        case Waiting(w) => return Err(WaitingOn(w));
        case Failed(f) => return Err(DepsFailed(f));
        case Ready =>
      }
      if a.assignee.Some? && a.assignee.value != who {
        return Err(NotOwner);
      }
      a := a.(state := Claimed, claimedAt := Some(t1), leaseUntil := Some(SatAdd(t1, leaseSecs)),
              claimedBy := Some(who));
      if a.assignee.None? {
        a := a.(assignee := Some(who), assignedAt := Some(t1));
      }
      a := a.(updatedAt := t1);
      actions := actions[id := a];
      return Ok(a);
    }

    method Assign(id: ActionId, worker: string, t0: int, t1: int) returns (r: Result<Action>)
      requires Valid()
      modifies this`actions
      ensures Valid()
      ensures r == EditAction(old(actions), leaseSecs, id, Edit.Assign(worker, t0, t1))
      ensures actions == Applied(old(actions), id, r)
    {
      hide Inv, ReadinessIn;
      EditKeepsInv(View(), leaseSecs, id, Edit.Assign(worker, t0, t1));
      if worker == "" {
        return Err(BadArgument);
      }
      if id !in actions {
        return Err(NotFound);
      }
      var a := actions[id];
      if a.state != Open {
        return Err(WrongState);
      }
      if a.notBefore.Some? && t0 < a.notBefore.value {
        return Err(InBackoff);
      }
      var readiness := ComputeReadiness(actions, a);
      match readiness {
        case Waiting(w) => return Err(WaitingOn(w));
        case Failed(f) => return Err(DepsFailed(f));
        case Ready =>
      }
      if a.assignee.Some? {
        return Err(AlreadyAssigned);
      }
      a := a.(state := Claimed, claimedAt := Some(t1), leaseUntil := Some(SatAdd(t1, leaseSecs)));
      a := a.(assignee := Some(worker), assignedAt := Some(t1), claimedBy := Some(worker), updatedAt := t1);
      actions := actions[id := a];
      return Ok(a);
    }

    method CompleteAs(id: ActionId, outcome: nat, terminal: ActionState, actor: string, isAdmin: bool, now: int)
      returns (r: Result<Action>)
      requires Valid()
      modifies this`actions
      ensures Valid()
      ensures r == EditAction(old(actions), leaseSecs, id, Complete(outcome, terminal, actor, isAdmin, now))
      ensures actions == Applied(old(actions), id, r)
    {
      hide Inv;
      EditKeepsInv(View(), leaseSecs, id, Complete(outcome, terminal, actor, isAdmin, now));
      if terminal !in {Done, Blocked, Exhausted} {
        return Err(BadArgument);
      }
      if id !in actions {
        return Err(NotFound);
      }
      var a := actions[id];
      if a.state.IsTerminal() {
        return Err(WrongState);
      }
      if a.paused {
        return Err(PausedNow);
      }
      var owner := if a.assignee.Some? then a.assignee else a.claimedBy;
      if owner.Some? && owner.value != actor && !isAdmin {
        return Err(NotOwner);
      }
      a := a.(state := terminal, outcomeMemoryId := Some(outcome), updatedAt := now);
      if terminal == Blocked || terminal == Exhausted {
        a := a.(lastFailureReason := Some(Reported(terminal)), lastResponsible := a.assignee);
      }
      actions := actions[id := a];
      return Ok(a);
    }

    method Requeue(id: ActionId, reason: string, bump: nat, now: int) returns (r: Result<Action>)
      requires Valid()
      modifies this`actions
      ensures Valid()
      ensures r == EditAction(old(actions), leaseSecs, id, Edit.Requeue(reason, bump, now))
      ensures actions == Applied(old(actions), id, r)
    {
      hide Inv;
      EditKeepsInv(View(), leaseSecs, id, Edit.Requeue(reason, bump, now));
      if id !in actions {
        return Err(NotFound);
      }
      var a := actions[id];
      if a.state == Open {
        return Err(WrongState);
      }
      if a.state == Done || a.state.IsNonFailureStop() {
        return Err(WrongState);
      }
      var responsible := if a.assignee.Some? then a.assignee else a.claimedBy;
      a := a.(lastResponsible := responsible, lastFailureReason := Some(Text(reason)),
              requeueCount := SatInc(a.requeueCount));
      a := a.(state := Open, claimedBy := None, assignee := None, assignedAt := None, claimedAt := None,
              leaseUntil := None);
      a := a.(escalated := false, priority := if a.priority + bump > 10 then 10 else a.priority + bump,
              updatedAt := now);
      actions := actions[id := a];
      return Ok(a);
    }

    method RetryTransient(id: ActionId, reason: string, now: int) returns (r: Result<Action>)
      requires Valid()
      modifies this`actions
      ensures Valid()
      ensures r == EditAction(old(actions), leaseSecs, id, Edit.RetryTransient(reason, now))
      ensures actions == Applied(old(actions), id, r)
    {
      hide Inv;
      EditKeepsInv(View(), leaseSecs, id, Edit.RetryTransient(reason, now));
      if id !in actions {
        return Err(NotFound);
      }
      var a := actions[id];
      if a.state == Done || a.state.IsNonFailureStop() {
        return Err(WrongState);
      }
      a := a.(transientRetries := SatInc(a.transientRetries));
      a := a.(notBefore := Some(SatAdd(now, TransientBackoffSecs(a.transientRetries))));
      a := a.(lastFailureKind := Some(TransientFailure), lastFailureReason := Some(Text(reason)));
      a := a.(lastResponsible := if a.assignee.Some? then a.assignee else a.claimedBy);
      a := a.(state := Open, claimedBy := None, assignee := None, assignedAt := None, claimedAt := None,
              leaseUntil := None);
      a := a.(updatedAt := now);
      actions := actions[id := a];
      return Ok(a);
    }

    method Escalate(id: ActionId, reason: string, now: int) returns (r: Result<Action>)
      requires Valid()
      modifies this`actions
      ensures Valid()
      ensures r == EditAction(old(actions), leaseSecs, id, Edit.Escalate(reason, now))
      ensures actions == Applied(old(actions), id, r)
    {
      hide Inv;
      EditKeepsInv(View(), leaseSecs, id, Edit.Escalate(reason, now));
      if id !in actions {
        return Err(NotFound);
      }
      var a := actions[id];
      a := a.(escalated := true, lastFailureReason := Some(Text(reason)));
      a := a.(lastResponsible := if a.assignee.Some? then a.assignee else a.claimedBy);
      if !a.state.IsTerminal() {
        a := a.(state := Blocked);
      }
      a := a.(updatedAt := now);
      actions := actions[id := a];
      return Ok(a);
    }

    method SetFailureKind(id: ActionId, kind: FailureKind)
      requires Valid()
      modifies this`actions
      ensures Valid()
      ensures actions == Applied(old(actions), id, EditAction(old(actions), leaseSecs, id, Edit.SetFailureKind(kind)))
    {
      hide Inv;
      EditKeepsInv(View(), leaseSecs, id, Edit.SetFailureKind(kind));
      if id in actions {
        actions := actions[id := actions[id].(lastFailureKind := Some(kind))];
      }
    }

    /** Renew the lease of a live claim and hand over the queued notes; a stopped action's owner is told to stop. */
    method Heartbeat(id: ActionId, actor: string, now: int)
      returns (r: Result<Action>, stop: bool, steer: seq<string>)
      requires Valid()
      modifies this`actions
      ensures Valid()
      ensures r == EditAction(old(actions), leaseSecs, id, Edit.Heartbeat(actor, now))
      ensures actions == Applied(old(actions), id, r)
      ensures r.Ok? ==> id in old(actions) && steer == old(actions)[id].steerPending && r.value.steerPending == []
      ensures r.Ok? ==> (stop <==> old(actions)[id].state.IsNonFailureStop())
    {
      hide Inv;
      EditKeepsInv(View(), leaseSecs, id, Edit.Heartbeat(actor, now));
      stop, steer := false, [];
      if id !in actions {
        return Err(NotFound), stop, steer;
      }
      var a := actions[id];
      var owner := if a.assignee.Some? then a.assignee else a.claimedBy;
      if owner != Some(actor) {
        return Err(NotOwner), stop, steer;
      }
      stop := a.state.IsNonFailureStop();
      if !stop && a.state != Claimed {
        return Err(WrongState), stop, steer;
      }
      steer := a.steerPending;
      a := a.(steerPending := [], steerDelivered := a.steerDelivered + |steer|);
      if !stop && !a.paused {
        a := a.(leaseUntil := Some(SatAdd(now, leaseSecs)));
      }
      a := a.(updatedAt := now);
      actions := actions[id := a];
      r := Ok(a);
    }

    method SetPaused(id: ActionId, paused: bool, now: int) returns (r: Result<Action>)
      requires Valid()
      modifies this`actions
      ensures Valid()
      ensures r == EditAction(old(actions), leaseSecs, id, Edit.SetPaused(paused, now))
      ensures actions == Applied(old(actions), id, r)
    {
      hide Inv;
      EditKeepsInv(View(), leaseSecs, id, Edit.SetPaused(paused, now));
      if id !in actions {
        return Err(NotFound);
      }
      var a := actions[id];
      if a.state != Claimed {
        return Err(WrongState);
      }
      if a.paused == paused {
        return Err(AlreadyPaused);
      }
      a := a.(paused := paused);
      if !paused {
        a := a.(leaseUntil := Some(SatAdd(now, leaseSecs)));
      }
      a := a.(updatedAt := now);
      actions := actions[id := a];
      return Ok(a);
    }

    method Stop(id: ActionId, note: string, now: int) returns (r: Result<Action>)
      requires Valid()
      modifies this`actions
      ensures Valid()
      ensures r == EditAction(old(actions), leaseSecs, id, Edit.Stop(note, now))
      ensures actions == Applied(old(actions), id, r)
    {
      hide Inv;
      EditKeepsInv(View(), leaseSecs, id, Edit.Stop(note, now));
      if id !in actions {
        return Err(NotFound);
      }
      var a := actions[id];
      if a.state.IsTerminal() {
        return Err(WrongState);
      }
      a := a.(state := Stopped, paused := false, lastFailureReason := Some(StopNote(note)));
      a := a.(leaseUntil := None, notBefore := None, updatedAt := now);
      actions := actions[id := a];
      return Ok(a);
    }

    /** Replace the dependencies of an open action, unless that would close a cycle. */
    method SetDependsOn(id: ActionId, deps: seq<ActionId>, now: int) returns (r: Result<Action>)
      requires Valid()
      modifies this`actions
      ensures Valid()
      ensures r == SetDepsResult(old(View()), id, deps, now)
      ensures actions == Applied(old(actions), id, r)
    {
      hide Inv, DepsError;
      SetDepsKeepsInv(View(), id, deps, now);
      var sorted := SortDedup(deps);
      if id !in actions {
        return Err(NotFound);
      }
      if actions[id].state != Open {
        return Err(WrongState);
      }
      var valid := ValidateDeps(actions, id, sorted);
      if valid.Err? {
        return Err(valid.error);
      }
      var a := actions[id].(dependsOn := sorted, updatedAt := now);
      actions := actions[id := a];
      return Ok(a);
    }

    method Enqueue(draft: Action, now: int) returns (r: Result<Action>)
      requires Valid()
      modifies this
      ensures Valid()
      ensures r == EnqueueResult(old(View()), draft, now)
      ensures View() == if r.Ok? then State(old(actions)[old(nextId) := r.value], old(nextId) + 1) else old(View())
    {
      hide Inv, DepsError;
      var live := set k | k in actions && !actions[k].state.IsTerminal();
      assert live == LiveIds(actions);
      if |live| >= MAX_OPEN {
        return Err(FrontierFull);
      }
      var id := nextId;
      var deps := SortDedup(draft.dependsOn);
      var valid := ValidateDeps(actions, id, deps);
      if valid.Err? {
        return Err(valid.error);
      }
      EnqueueKeepsInv(View(), draft, now);
      nextId := nextId + 1;
      var a := draft.(id := id, dependsOn := deps, state := Open, createdAt := now, updatedAt := now);
      a := a.(claimedBy := None, claimedAt := None, leaseUntil := None, outcomeMemoryId := None);
      actions := actions[id := a];
      return Ok(a);
    }

    /** Block every live action with a failed dependency, transitively; the blocked ones are returned. */
    method CascadeDepFailures(now: int) returns (blocked: set<ActionId>)
      requires Valid()
      modifies this`actions
      ensures Valid()
      ensures Cascaded(old(actions), actions, now)
      ensures blocked == set id | id in old(actions) && Doomed(old(actions), id)
    {
      hide Inv, Cascaded, Doomed;
      var after;
      after, blocked := CascadeAll(actions, now);
      CascadeKeepsInv(View(), after, now);
      actions := after;
    }

    /** The goal is met: its live actions are cancelled. */
    method CancelGoalActions(goal: nat, now: int) returns (cancelled: set<ActionId>)
      requires Valid()
      modifies this`actions
      ensures Valid()
      ensures actions == WithGoalCancelled(old(actions), goal, now)
      ensures cancelled == set id | id in old(actions) && InGoal(old(actions)[id], goal)
    {
      hide Inv;
      CancelKeepsInv(View(), goal, now);
      cancelled := {};
      var before := actions;
      var cur := actions;
      var todo := cur.Keys;
      while todo != {}
        invariant todo <= before.Keys && cur.Keys == before.Keys
        invariant forall id :: id in before ==>
          cur[id] == if id !in todo && InGoal(before[id], goal) then CancelledFor(before[id], goal, now) else before[id]
        invariant cancelled == set id | id in before && id !in todo && InGoal(before[id], goal)
        decreases todo
      {
        var id :| id in todo;
        todo := todo - {id};
        var a := cur[id];
        if a.goalId == Some(goal) && !a.state.IsTerminal() {
          a := a.(state := Cancelled, lastFailureReason := Some(GoalMet(goal)), claimedAt := None, leaseUntil := None);
          a := a.(notBefore := None, updatedAt := now);
          cur := cur[id := a];
          cancelled := cancelled + {id};
        }
      }
      assert cur == WithGoalCancelled(before, goal, now);
      actions := cur;
    }

    /** Drop old terminal actions, but keep those that a live action still depends on. */
    method PruneTerminalOlderThan(maxAgeSecs: int, now: int) returns (dropped: nat)
      requires Valid()
      modifies this`actions
      ensures Valid()
      ensures actions == Pruned(old(actions), Cutoff(maxAgeSecs, now))
      ensures dropped == |old(actions)| - |actions|
    {
      hide Inv;
      var cutoff := Cutoff(maxAgeSecs, now);
      PruneKeepsInv(View(), cutoff);
      var before := |actions|;
      PrunedIsNoLarger(actions, cutoff);
      actions := Pruned(actions, cutoff);
      dropped := before - |actions|;
    }

    method ExpiredClaims(now: int) returns (expired: seq<ActionId>)
      ensures NoDup(expired) && Ascending(expired)
      ensures forall id :: id in expired <==> id in actions && ExpiredClaim(actions[id], now)
    {
      var remaining := set id | id in actions && ExpiredClaim(actions[id], now);
      ghost var all := remaining;
      expired := [];
      while remaining != {}
        invariant remaining <= all && Ascending(expired)
        invariant forall id :: id in expired <==> id in all && id !in remaining
        decreases remaining
      {
        var id :| id in remaining;
        remaining := remaining - {id};
        InsertKeepsAscending(expired, id);
        expired := SortedInsert(expired, id);
      }
    }

    /** The actions in a state, most urgent and newest first, cut off at a limit between 1 and 100. */
    method List(state: Option<ActionState>, limit: nat) returns (v: seq<Action>)
      requires Valid()
      ensures NoDup(v)
      ensures forall a :: a in v ==> a.id in actions && actions[a.id] == a && InState(a, state)
      ensures forall i, j :: 0 <= i < j < |v| ==> Precedes(v[i], v[j])
      ensures forall i, j :: 0 <= i < j < |v| ==>
        v[i].priority > v[j].priority || (v[i].priority == v[j].priority && v[i].id > v[j].id)
      ensures |v| <= if limit < 1 then 1 else if limit > 100 then 100 else limit
      ensures forall id :: id in actions && InState(actions[id], state) && actions[id] !in v ==>
        |v| == Bound(limit) && forall a :: a in v ==> Precedes(a, actions[id])
      ensures |v| <= Bound(limit)
    {
      hide Acyclic, ClaimsOk;
      var remaining := set id | id in actions && InState(actions[id], state);
      v := [];
      while remaining != {} && |v| < Bound(limit)
        invariant forall id :: id in remaining ==> id in actions && InState(actions[id], state)
        invariant forall id :: id in actions && InState(actions[id], state) ==> id in remaining || actions[id] in v
        invariant forall a :: a in v ==>
          a.id in actions && actions[a.id] == a && InState(a, state) && a.id !in remaining
        invariant forall a, id :: a in v && id in remaining ==> Precedes(a, actions[id])
        invariant forall i, j :: 0 <= i < j < |v| ==> Precedes(v[i], v[j])
        invariant |v| <= Bound(limit)
        decreases remaining
      {
        var id := FirstInOrder(actions, remaining);
        remaining := remaining - {id};
        assert forall a :: a in v ==> Precedes(a, actions[id]);
        v := v + [actions[id]];
      }
    }

    /** Load a stored snapshot; claims from before leases existed get one from the start of the claim. */
    method Restore(snapshot: seq<Action>)
      requires forall i, j :: 0 <= i < j < |snapshot| ==> snapshot[i].id != snapshot[j].id
      modifies this
      ensures RestoredFrom(snapshot, leaseSecs, actions)
      ensures FollowsAll(actions, nextId)
      ensures forall s: State :: Inv(s) && IsSnapshotOf(s, snapshot) ==> Valid() && actions == s.actions
    {
      hide Inv;
      var cur: ActionMap := map[];
      var maxId := 0;
      var i := 0;
      while i < |snapshot|
        invariant 0 <= i <= |snapshot|
        invariant RestoredFrom(snapshot[..i], leaseSecs, cur)
        invariant forall id :: id in cur ==> id <= maxId
        invariant maxId == 0 || maxId in cur
      {
        var a := snapshot[i];
        if a.id > maxId {
          maxId := a.id;
        }
        if a.state == Claimed && a.leaseUntil.None? {
          var start := if a.claimedAt.Some? then a.claimedAt.value
            else if a.assignedAt.Some? then a.assignedAt.value else a.updatedAt;
          a := a.(claimedAt := Some(start), leaseUntil := Some(SatAdd(start, leaseSecs)));
        }
        RestoredOneMore(snapshot, i, leaseSecs, cur);
        cur := cur[a.id := a];
        i := i + 1;
      }
      assert snapshot[..i] == snapshot;
      actions := cur;
      nextId := maxId + 1;
      forall s: State | Inv(s) && IsSnapshotOf(s, snapshot) ensures Valid() && actions == s.actions {
        RestoreGivesBackTheSnapshot(s, snapshot, leaseSecs, actions);
        RestartKeepsInv(s, View());
      }
    }
  }

  /** `n` is one more than the largest identifier in use. */
  ghost predicate FollowsAll(actions: ActionMap, n: ActionId) {
    && (forall id :: id in actions ==> id < n)
    && (n == 1 || exists id :: id in actions && n == id + 1)
  }

  /** The actions of the frontier, each once, in any order. */
  ghost predicate IsSnapshotOf(s: State, snapshot: seq<Action>) {
    forall a :: a in snapshot <==> a.id in s.actions && s.actions[a.id] == a
  }

  /** Stored and loaded again: the same actions, and a counter that may have fallen back to the largest one kept. */
  ghost predicate Restarted(s: State, s': State) {
    s'.actions == s.actions && FollowsAll(s'.actions, s'.nextId)
  }

  lemma RestartKeepsInv(s: State, s': State)
    requires Inv(s) && Restarted(s, s')
    ensures Inv(s')
  {
    hide Acyclic, ClaimsOk;
  }

  /** A run with restarts: a command each time, or none for a restart. */
  ghost predicate IsLongRun(states: seq<State>, lease: int, commands: seq<Option<Command>>) {
    && |states| == |commands| + 1
    && states[0] == State(map[], 1)
    && forall i :: 0 <= i < |commands| ==> LongStep(states[i], lease, commands[i], states[i + 1])
  }

  ghost predicate LongStep(s: State, lease: int, c: Option<Command>, s': State) {
    match c case Some(command) => Step(s, lease, command, s') case None => Restarted(s, s')
  }

  /** The invariant survives restarts as well. */
  lemma {:induction false} EveryStateIsSoundAcrossRestarts(states: seq<State>, lease: int,
                                                           commands: seq<Option<Command>>, n: nat)
    requires IsLongRun(states, lease, commands) && n < |states|
    ensures Inv(states[n])
  {
    hide Step, Restarted, Inv;
    if n == 0 {
      EmptyIsSound();
    } else {
      EveryStateIsSoundAcrossRestarts(states, lease, commands, n - 1);
      assert LongStep(states[n - 1], lease, commands[n - 1], states[n - 1 + 1]);
      match commands[n - 1]
      case Some(command) => StepKeepsInv(states[n - 1], lease, command, states[n]);
      case None => RestartKeepsInv(states[n - 1], states[n]);
    }
  }

  /** `actions` holds exactly the snapshot's actions, each with a lease if it is claimed. */
  ghost predicate RestoredFrom(snapshot: seq<Action>, lease: int, actions: ActionMap) {
    && (forall i :: 0 <= i < |snapshot| ==>
         snapshot[i].id in actions && actions[snapshot[i].id] == WithLease(snapshot[i], lease))
    && (forall id :: id in actions ==> exists i :: 0 <= i < |snapshot| && snapshot[i].id == id)
  }

  lemma RestoredOneMore(snapshot: seq<Action>, i: nat, lease: int, cur: ActionMap)
    requires i < |snapshot| && forall j :: 0 <= j < i ==> snapshot[j].id != snapshot[i].id
    requires RestoredFrom(snapshot[..i], lease, cur)
    ensures RestoredFrom(snapshot[..i + 1], lease, cur[snapshot[i].id := WithLease(snapshot[i], lease)])
  {
    hide WithLease;
    var cur' := cur[snapshot[i].id := WithLease(snapshot[i], lease)];
    var more := snapshot[..i + 1];
    forall id | id in cur'
      ensures exists j :: 0 <= j < |more| && more[j].id == id
    {
      if id == snapshot[i].id {
        assert more[i].id == id;
      } else {
        var j :| 0 <= j < |snapshot[..i]| && snapshot[..i][j].id == id;
        assert more[j].id == id;
      }
    }
    forall j | 0 <= j < |more|
      ensures more[j].id in cur' && cur'[more[j].id] == WithLease(more[j], lease)
    {
      if j < i {
        assert more[j] == snapshot[..i][j];
      }
    }
  }

  predicate InState(a: Action, state: Option<ActionState>) {
    state.None? || a.state == state.value
  }

  /** Higher priority first, then the higher id. */
  predicate Precedes(a: Action, b: Action) {
    a.priority > b.priority || (a.priority == b.priority && a.id > b.id)
  }

  const LIST_LIMIT: nat := 100

  function Bound(limit: nat): nat {
    if limit < 1 then 1 else if limit > LIST_LIMIT then LIST_LIMIT else limit
  }

  method FirstInOrder(actions: ActionMap, ids: set<ActionId>) returns (best: ActionId)
    requires ids != {} && forall id :: id in ids ==> id in actions && actions[id].id == id
    ensures best in ids && forall id :: id in ids && id != best ==> Precedes(actions[best], actions[id])
  {
    best :| best in ids;
    var rest := ids - {best};
    while rest != {}
      invariant rest <= ids && best in ids && best !in rest
      invariant forall id :: id in ids && id !in rest && id != best ==> Precedes(actions[best], actions[id])
      decreases rest
    {
      var id :| id in rest;
      rest := rest - {id};
      if Precedes(actions[id], actions[best]) {
        best := id;
      }
    }
  }

  function WithLease(a: Action, lease: int): Action {
    if a.state == Claimed && a.leaseUntil.None? then
      var start := if a.claimedAt.Some? then a.claimedAt.value
        else if a.assignedAt.Some? then a.assignedAt.value else a.updatedAt;
      a.(claimedAt := Some(start), leaseUntil := Some(SatAdd(start, lease)))
    else a
  }

  ghost predicate Ascending(s: seq<ActionId>) {
    forall i, j :: 0 <= i < j < |s| ==> s[i] < s[j]
  }

  function SortedInsert(s: seq<ActionId>, x: ActionId): (r: seq<ActionId>)
    ensures forall y :: y in r <==> y in s || y == x
  {
    if s == [] || x < s[0] then [x] + s
    else
      assert s == [s[0]] + s[1..];
      [s[0]] + SortedInsert(s[1..], x)
  }

  lemma {:induction false} InsertKeepsAscending(s: seq<ActionId>, x: ActionId)
    requires Ascending(s) && x !in s
    ensures Ascending(SortedInsert(s, x))
  {
    if s != [] && s[0] < x {
      InsertKeepsAscending(s[1..], x);
      var rest := SortedInsert(s[1..], x);
      forall j | 0 <= j < |rest| ensures s[0] < rest[j] {
        assert rest[j] in rest;
      }
    }
  }

  lemma PrunedIsNoLarger(actions: ActionMap, cutoff: int)
    ensures |Pruned(actions, cutoff)| <= |actions|
  {
    var kept := Pruned(actions, cutoff).Keys;
    assert kept <= actions.Keys;
    SubsetSize(kept, actions.Keys);
    assert |kept| == |Pruned(actions, cutoff)|;
  }

  lemma {:induction false} SubsetSize<T>(a: set<T>, b: set<T>)
    requires a <= b
    ensures |a| <= |b|
  {
    if a != {} {
      var x :| x in a;
      SubsetSize(a - {x}, b - {x});
    }
  }

  /** Storing a sound frontier and loading it again gives back the same actions. */
  lemma RestoreGivesBackTheSnapshot(s: State, snapshot: seq<Action>, lease: int, actions: ActionMap)
    requires Inv(s)
    requires IsSnapshotOf(s, snapshot)
    requires RestoredFrom(snapshot, lease, actions)
    ensures actions == s.actions
  {
    hide Acyclic;
    forall i | 0 <= i < |snapshot|
      ensures snapshot[i].id in s.actions && WithLease(snapshot[i], lease) == s.actions[snapshot[i].id]
    {
      assert snapshot[i] in snapshot;
    }
    forall id | id in s.actions
      ensures id in actions
    {
      assert s.actions[id] in snapshot;
      var i :| 0 <= i < |snapshot| && snapshot[i] == s.actions[id];
      assert snapshot[i].id == id;
    }
  }
}
