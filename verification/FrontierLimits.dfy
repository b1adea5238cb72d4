/** When an action can be taken up, and where reopening meets the limits of the frontier: the cap, and pausing. */
module FrontierLimits {
  import opened Prelude
  import opened Actions
  import opened Frontier
  import opened FrontierStore

  // ---- Taking up an action ------------------------------------------------------------------------

  /** Open, past its backoff, and every dependency present and done. */
  ghost predicate CanTakeUp(actions: ActionMap, a: Action, now: int) {
    && a.state == Open
    && (a.notBefore.Some? ==> a.notBefore.value <= now)
    && DepsDone(actions, a)
  }

  /** Exactly when a claim or an assignment succeeds. */
  lemma TakingUpExactly(actions: ActionMap, lease: int, id: ActionId, who: string, t0: int, t1: int)
    ensures EditAction(actions, lease, id, Edit.Claim(who, t0, t1)).Ok?
      <==> id in actions && CanTakeUp(actions, actions[id], t0) && actions[id].assignee in {None, Some(who)}
    ensures EditAction(actions, lease, id, Edit.Assign(who, t0, t1)).Ok?
      <==> who != "" && id in actions && CanTakeUp(actions, actions[id], t0) && actions[id].assignee == None
  {
    hide ReadinessIn;
    if id in actions {
      ReadinessMeaning(actions, actions[id]);
    }
  }

  /** Once taken up, nobody can take the action up again while it stays claimed, not even its owner. */
  lemma ClaimIsSingleFlight(actions: ActionMap, lease: int, id: ActionId, first: Edit, again: Edit)
    requires (first.Claim? || first.Assign?) && EditAction(actions, lease, id, first).Ok?
    requires again.Claim? || again.Assign?
    ensures EditAction(Applied(actions, id, EditAction(actions, lease, id, first)), lease, id, again).Err?
  {
    hide ReadinessIn;
  }

  // ---- The cap on live actions ------------------------------------------------------------------

  /** The command puts an action that counted as finished back to open. */
  ghost predicate RevivesTerminal(s: State, c: Command) {
    && c.EditOne? && (c.edit.Requeue? || c.edit.RetryTransient?)
    && c.id in s.actions && s.actions[c.id].state in {Blocked, Exhausted}
  }

  function Larger(a: nat, b: nat): nat {
    if a >= b then a else b
  }

  lemma SubsetIsNoLarger<T>(a: set<T>, b: set<T>)
    requires a <= b
    ensures |a| <= |b|
  {
    assert b == a + (b - a);
  }

  lemma OneMoreLive(actions: ActionMap, id: ActionId, a: Action)
    ensures var live, live' := LiveIds(actions), LiveIds(actions[id := a]);
      live' == if a.Live() then live + {id} else live - {id}
  {
  }

  /** An edit brings a finished action back to life exactly when it is one of the two reopenings. */
  lemma OnlyReopeningRevives(actions: ActionMap, lease: int, id: ActionId, e: Edit)
    requires EditAction(actions, lease, id, e).Ok? && id in actions
    ensures !actions[id].Live() && EditAction(actions, lease, id, e).value.Live()
      <==> (e.Requeue? || e.RetryTransient?) && actions[id].state in {Blocked, Exhausted}
  {
    hide ReadinessIn;
  }

  lemma ReopeningSucceeds(actions: ActionMap, lease: int, id: ActionId, e: Edit)
    requires (e.Requeue? || e.RetryTransient?) && id in actions && actions[id].state in {Blocked, Exhausted}
    ensures EditAction(actions, lease, id, e).Ok?
  {
  }

  /** No command lifts the number of live actions above the cap, except a reopening while the frontier is full. */
  lemma CapIsKeptExactly(s: State, lease: int, c: Command, s': State)
    requires Step(s, lease, c, s')
    ensures |LiveIds(s'.actions)| <= Larger(|LiveIds(s.actions)|, MAX_OPEN)
      <==> !(RevivesTerminal(s, c) && |LiveIds(s.actions)| >= MAX_OPEN)
  {
    hide EditAction, DepsError, LiveIds, Doomed;
    match c {
      case EditOne(id, e) => EditAndCap(s, lease, id, e);
      case SetDependsOn(id, deps, now) =>
        if SetDepsResult(s, id, deps, now).Ok? {
          OneMoreLive(s.actions, id, SetDepsResult(s, id, deps, now).value);
          SameLive(s.actions, id);
        }
      case Enqueue(draft, now) =>
        if EnqueueResult(s, draft, now).Ok? {
          OneMoreLive(s.actions, s.nextId, EnqueueResult(s, draft, now).value);
        }
      case Cascade(now) =>
        CascadeOnlyEnds(s.actions, s'.actions, now);
        SubsetIsNoLarger(LiveIds(s'.actions), LiveIds(s.actions));
      case CancelGoal(goal, now) =>
        CancelOnlyEnds(s.actions, goal, now);
        SubsetIsNoLarger(LiveIds(s'.actions), LiveIds(s.actions));
      case Prune(maxAge, now) =>
        PruneOnlyEnds(s.actions, Cutoff(maxAge, now));
        SubsetIsNoLarger(LiveIds(s'.actions), LiveIds(s.actions));
    }
  }

  ghost predicate WithinCap(s: State) {
    |LiveIds(s.actions)| <= MAX_OPEN
  }

  /** A finished action is reopened although the frontier is full. */
  ghost predicate RevivesWhenFull(s: State, c: Command) {
    RevivesTerminal(s, c) && |LiveIds(s.actions)| >= MAX_OPEN
  }

  /**
   * A run keeps the cap up to its state `n` exactly when nothing before reopens a finished action at a full frontier.
   */
  lemma {:induction false} CapOverRunsExactly(states: seq<State>, lease: int, commands: seq<Command>, n: nat)
    requires IsRun(states, lease, commands) && n < |states|
    ensures (forall i :: 0 <= i <= n ==> WithinCap(states[i]))
      <==> (forall i :: 0 <= i < n ==> !RevivesWhenFull(states[i], commands[i]))
  {
    hide Step, RevivesTerminal, LiveIds;
    if n == 0 {
      assert LiveIds(map[]) == {} by { NothingLives(); }
    } else {
      CapOverRunsExactly(states, lease, commands, n - 1);
      assert Step(states[n - 1], lease, commands[n - 1], states[n - 1 + 1]);
      CapIsKeptExactly(states[n - 1], lease, commands[n - 1], states[n]);
      assert WithinCap(states[n - 1]) ==> (WithinCap(states[n]) <==> !RevivesWhenFull(states[n - 1], commands[n - 1]));
    }
  }

  lemma NothingLives()
    ensures LiveIds(map[]) == {}
  {
  }

  lemma SameLive(actions: ActionMap, id: ActionId)
    requires id in actions && actions[id].Live()
    ensures LiveIds(actions) + {id} == LiveIds(actions)
  {
  }

  lemma EditAndCap(s: State, lease: int, id: ActionId, e: Edit)
    ensures var after := Applied(s.actions, id, EditAction(s.actions, lease, id, e));
      |LiveIds(after)| <= Larger(|LiveIds(s.actions)|, MAX_OPEN)
      <==> !(RevivesTerminal(s, EditOne(id, e)) && |LiveIds(s.actions)| >= MAX_OPEN)
  {
    hide EditAction, LiveIds;
    var r := EditAction(s.actions, lease, id, e);
    if RevivesTerminal(s, EditOne(id, e)) {
      ReopeningSucceeds(s.actions, lease, id, e);
    }
    if r.Ok? {
      EditFacts(s.actions, lease, id, e);
      OnlyReopeningRevives(s.actions, lease, id, e);
      OneMoreLive(s.actions, id, r.value);
      Membership(s.actions, id);
      var live := LiveIds(s.actions);
      if s.actions[id].Live() {
        SubsetIsNoLarger(live - {id}, live);
        SameLive(s.actions, id);
      } else {
        assert live - {id} == live;
      }
    }
  }

  lemma Membership(actions: ActionMap, id: ActionId)
    requires id in actions
    ensures id in LiveIds(actions) <==> actions[id].Live()
  {
  }

  lemma CascadeOnlyEnds(before: ActionMap, after: ActionMap, now: int)
    requires Cascaded(before, after, now)
    ensures LiveIds(after) <= LiveIds(before)
  {
    hide Doomed, FailedDep;
  }

  lemma CancelOnlyEnds(actions: ActionMap, goal: nat, now: int)
    ensures LiveIds(WithGoalCancelled(actions, goal, now)) <= LiveIds(actions)
  {
  }

  lemma PruneOnlyEnds(actions: ActionMap, cutoff: int)
    ensures LiveIds(Pruned(actions, cutoff)) <= LiveIds(actions)
  {
  }

  // ---- Pausing -----------------------------------------------------------------------------------

  /**
   * Neither reopening clears the pause. An action reopened while paused and claimed anew is therefore never swept,
   * never counted as load and cannot be completed, at any time, until somebody resumes it; without the pause the
   * new claim expires as soon as its own lease is over.
   */
  lemma PauseOutlivesReopening(actions: ActionMap, lease: int, id: ActionId, reopen: Edit, who: string, t0: int,
                               t1: int)
    requires reopen.Requeue? || reopen.RetryTransient?
    requires EditAction(actions, lease, id, reopen).Ok?
    requires var open := Applied(actions, id, EditAction(actions, lease, id, reopen));
      EditAction(open, lease, id, Edit.Claim(who, t0, t1)).Ok?
    ensures id in actions
    ensures var open := Applied(actions, id, EditAction(actions, lease, id, reopen));
      var claimed := EditAction(open, lease, id, Edit.Claim(who, t0, t1)).value;
      var held := open[id := claimed];
      && (forall now :: ExpiredClaim(claimed, now) <==> !actions[id].paused && SatAdd(t1, lease) < now)
      && (actions[id].paused ==> forall now :: !HoldsLiveClaim(claimed, now))
      && (actions[id].paused ==>
         forall outcome, now :: EditAction(held, lease, id, Complete(outcome, Done, who, true, now)).Err?)
  {
    hide ReadinessIn;
  }
}
