/** The frontier as a state machine: its commands, its invariant over every run, and the class that holds it. */
module Frontier {
  import opened Prelude
  import opened Graph
  import opened Actions

  datatype State = State(actions: ActionMap, nextId: ActionId)

  datatype Command =
    | EditOne(id: ActionId, edit: Edit)
    | SetDependsOn(id: ActionId, deps: seq<ActionId>, now: int)
    | Enqueue(draft: Action, now: int)
    | Cascade(now: int)
    | CancelGoal(goal: nat, now: int)
    | Prune(maxAgeSecs: int, now: int)

  // ---- The commands that are not edits of one action ----------------------------------------

  ghost function EnqueueResult(s: State, draft: Action, now: int): Result<Action> {
    if |LiveIds(s.actions)| >= MAX_OPEN then Err(FrontierFull)
    else
      var deps := SortDedup(draft.dependsOn);
      match DepsError(s.actions, s.nextId, deps)
      case Some(e) => Err(e)
      case None =>
        Ok(draft.(id := s.nextId, dependsOn := deps, state := Open, createdAt := now, updatedAt := now,
                  claimedBy := None,
                  claimedAt := None, leaseUntil := None, outcomeMemoryId := None))
  }

  ghost function SetDepsResult(s: State, id: ActionId, deps: seq<ActionId>, now: int): Result<Action> {
    if id !in s.actions then Err(NotFound)
    else if s.actions[id].state != Open then Err(WrongState)
    else match DepsError(s.actions, id, SortDedup(deps))
      case Some(e) => Err(e)
      case None => Ok(s.actions[id].(dependsOn := SortDedup(deps), updatedAt := now))
  }

  predicate InGoal(a: Action, goal: nat) {
    a.goalId == Some(goal) && a.Live()
  }

  function CancelledFor(a: Action, goal: nat, now: int): Action {
    a.(state := Cancelled, lastFailureReason := Some(GoalMet(goal)), claimedAt := None, leaseUntil := None,
       notBefore := None,
       updatedAt := now)
  }

  function WithGoalCancelled(actions: ActionMap, goal: nat, now: int): ActionMap {
    map id | id in actions :: if InGoal(actions[id], goal) then CancelledFor(actions[id], goal, now) else actions[id]
  }

  /** The dependencies that live actions still refer to. */
  function Referenced(actions: ActionMap): set<ActionId> {
    set id, d | id in actions && actions[id].Live() && d in actions[id].dependsOn :: d
  }

  predicate Kept(actions: ActionMap, id: ActionId, cutoff: int)
    requires id in actions
  {
    !(actions[id].state.IsTerminal() && actions[id].updatedAt < cutoff) || id in Referenced(actions)
  }

  function Pruned(actions: ActionMap, cutoff: int): ActionMap {
    map id | id in actions && Kept(actions, id, cutoff) :: actions[id]
  }

  function Cutoff(maxAgeSecs: int, now: int): int {
    SatAdd(now, -maxAgeSecs)
  }

  /** One command takes the frontier from `s` to `s'`. */
  ghost predicate Step(s: State, lease: int, c: Command, s': State) {
    match c
    case EditOne(id, e) => s' == s.(actions := Applied(s.actions, id, EditAction(s.actions, lease, id, e)))
    case SetDependsOn(id, deps, now) => s' == s.(actions := Applied(s.actions, id, SetDepsResult(s, id, deps, now)))
    case Enqueue(draft, now) =>
      var r := EnqueueResult(s, draft, now);
      s' == if r.Ok? then State(s.actions[s.nextId := r.value], s.nextId + 1) else s
    case Cascade(now) => s'.nextId == s.nextId && Cascaded(s.actions, s'.actions, now)
    case CancelGoal(goal, now) => s' == s.(actions := WithGoalCancelled(s.actions, goal, now))
    case Prune(maxAge, now) => s' == s.(actions := Pruned(s.actions, Cutoff(maxAge, now)))
  }

  // ---- The invariant --------------------------------------------------------------------------

  ghost predicate DepsDone(actions: ActionMap, a: Action) {
    forall d :: d in a.dependsOn ==> d in actions && actions[d].state == Done
  }

  ghost predicate IdsOk(s: State) {
    forall id :: id in s.actions ==> s.actions[id].id == id && id < s.nextId
  }

  /** A claimed action has a lease, and all its dependencies are present and done. */
  ghost predicate ClaimsOk(actions: ActionMap) {
    forall id :: id in actions && actions[id].state == Claimed ==>
      actions[id].leaseUntil.Some? && DepsDone(actions, actions[id])
  }

  ghost predicate Inv(s: State) {
    IdsOk(s) && Acyclic(Deps(s.actions)) && ClaimsOk(s.actions)
  }

  /** What no edit changes, and what it takes to end up claimed. */
  lemma EditFacts(actions: ActionMap, lease: int, id: ActionId, e: Edit)
    requires EditAction(actions, lease, id, e).Ok?
    ensures id in actions
    ensures var a, a' := actions[id], EditAction(actions, lease, id, e).value;
      && a'.id == a.id && a'.dependsOn == a.dependsOn
      && a'.requeueCount >= a.requeueCount && a'.transientRetries >= a.transientRetries
      && (a.state == Done ==> a'.state == Done)
      && (a'.state == Claimed ==>
         a.state == Claimed || (a.state == Open && (e.Claim? || e.Assign?) && ReadinessIn(actions, a).Ready?))
      && (a'.state == Claimed && (a.state == Claimed ==> a.leaseUntil.Some?) ==> a'.leaseUntil.Some?)
  {
    hide ReadinessIn;
  }

  lemma SameDepsAfterEdit(actions: ActionMap, id: ActionId, a': Action)
    requires id in actions && a'.dependsOn == actions[id].dependsOn
    ensures Deps(actions[id := a']) == Deps(actions)
  {
  }

  lemma EditKeepsInv(s: State, lease: int, id: ActionId, e: Edit)
    requires Inv(s)
    ensures Inv(s.(actions := Applied(s.actions, id, EditAction(s.actions, lease, id, e))))
  {
    hide EditAction, ReadinessIn;
    var r := EditAction(s.actions, lease, id, e);
    if r.Ok? {
      EditFacts(s.actions, lease, id, e);
      SameDepsAfterEdit(s.actions, id, r.value);
      ReadinessMeaning(s.actions, s.actions[id]);
    }
  }

  /** A dependency list that validation accepts leaves the graph acyclic. */
  lemma AcceptedDepsKeepAcyclic(actions: ActionMap, id: ActionId, a': Action)
    requires Acyclic(Deps(actions)) && DepsError(actions, id, a'.dependsOn).None?
    ensures Acyclic(Deps(actions[id := a']))
  {
    assert Deps(actions[id := a']) == Deps(actions)[id := a'.dependsOn];
    NewEdgesCloseACycle(Deps(actions), id, a'.dependsOn);
  }

  lemma ReplacingAnOpenAction(actions: ActionMap, id: ActionId, a': Action)
    requires ClaimsOk(actions) && a'.state == Open && (id in actions ==> actions[id].state == Open)
    ensures ClaimsOk(actions[id := a'])
  {
  }

  lemma EnqueueKeepsInv(s: State, draft: Action, now: int)
    requires Inv(s) && EnqueueResult(s, draft, now).Ok?
    ensures Inv(State(s.actions[s.nextId := EnqueueResult(s, draft, now).value], s.nextId + 1))
  {
    hide Acyclic, DepsError;
    var a := EnqueueResult(s, draft, now).value;
    AcceptedDepsKeepAcyclic(s.actions, s.nextId, a);
    ReplacingAnOpenAction(s.actions, s.nextId, a);
  }

  lemma SetDepsKeepsInv(s: State, id: ActionId, deps: seq<ActionId>, now: int)
    requires Inv(s)
    ensures Inv(s.(actions := Applied(s.actions, id, SetDepsResult(s, id, deps, now))))
  {
    hide Acyclic, DepsError;
    var r := SetDepsResult(s, id, deps, now);
    if r.Ok? {
      AcceptedDepsKeepAcyclic(s.actions, id, r.value);
      ReplacingAnOpenAction(s.actions, id, r.value);
    }
  }

  /** A cascade never reaches a claimed action: its dependencies are done, so it is not doomed. */
  lemma ClaimedIsNotDoomed(actions: ActionMap, id: ActionId)
    requires ClaimsOk(actions) && id in actions && (actions[id].state == Claimed || !actions[id].Live())
    ensures !Doomed(actions, id)
  {
    forall p | |p| > 1 && p[0] == id
      ensures !FailingChain(actions, p)
    {
      if actions[id].state == Claimed && Edge(Deps(actions), p[0], p[0 + 1]) {
        assert p[1] in actions && actions[p[1]].state == Done;
      }
    }
  }

  lemma CascadeKeepsInv(s: State, actions': ActionMap, now: int)
    requires Inv(s) && Cascaded(s.actions, actions', now)
    ensures Inv(s.(actions := actions'))
    ensures forall id :: id in s.actions && s.actions[id].state != Open ==> actions'[id] == s.actions[id]
  {
    hide Doomed, Acyclic;
    forall id | id in s.actions
      ensures actions'[id].dependsOn == s.actions[id].dependsOn && actions'[id].id == s.actions[id].id
      ensures s.actions[id].state != Open ==> actions'[id] == s.actions[id]
      ensures actions'[id].state == Claimed ==> actions'[id] == s.actions[id]
    {
      if s.actions[id].state != Open {
        ClaimedIsNotDoomed(s.actions, id);
      }
    }
    assert Deps(actions') == Deps(s.actions);
  }

  lemma CancelKeepsInv(s: State, goal: nat, now: int)
    requires Inv(s)
    ensures Inv(s.(actions := WithGoalCancelled(s.actions, goal, now)))
  {
    hide Acyclic;
    assert Deps(WithGoalCancelled(s.actions, goal, now)) == Deps(s.actions);
  }

  lemma PruneKeepsInv(s: State, cutoff: int)
    requires Inv(s)
    ensures Inv(s.(actions := Pruned(s.actions, cutoff)))
  {
    hide Acyclic;
    var actions' := Pruned(s.actions, cutoff);
    SubgraphIsAcyclic(Deps(s.actions), Deps(actions'));
    forall id | id in actions' && actions'[id].state == Claimed
      ensures DepsDone(actions', actions'[id])
    {
      forall d | d in actions'[id].dependsOn
        ensures d in actions' && actions'[d].state == Done
      {
        assert d in Referenced(s.actions);
      }
    }
  }

  lemma StepKeepsInv(s: State, lease: int, c: Command, s': State)
    requires Inv(s) && Step(s, lease, c, s')
    ensures Inv(s')
  {
    hide Inv, EditAction, EnqueueResult, SetDepsResult, Cascaded, Pruned;
    match c
    case EditOne(id, e) => EditKeepsInv(s, lease, id, e);
    case SetDependsOn(id, deps, now) => SetDepsKeepsInv(s, id, deps, now);
    case Enqueue(draft, now) =>
      if EnqueueResult(s, draft, now).Ok? {
        EnqueueKeepsInv(s, draft, now);
      }
    case Cascade(now) =>
      CascadeKeepsInv(s, s'.actions, now);
      assert s' == s.(actions := s'.actions);
    case CancelGoal(goal, now) => CancelKeepsInv(s, goal, now);
    case Prune(maxAge, now) => PruneKeepsInv(s, Cutoff(maxAge, now));
  }

  ghost predicate IsRun(states: seq<State>, lease: int, commands: seq<Command>) {
    && |states| == |commands| + 1
    && states[0] == State(map[], 1)
    && forall i :: 0 <= i < |commands| ==> Step(states[i], lease, commands[i], states[i + 1])
  }

  /** In every state of every run the dependencies are acyclic and every claimed action's dependencies are done. */
  lemma {:induction false} EveryReachableStateIsSound(states: seq<State>, lease: int, commands: seq<Command>, n: nat)
    requires IsRun(states, lease, commands) && n < |states|
    ensures Inv(states[n])
  {
    hide Step, Inv;
    if n == 0 {
      assert Inv(State(map[], 1)) by { EmptyIsSound(); }
    } else {
      EveryReachableStateIsSound(states, lease, commands, n - 1);
      assert Step(states[n - 1], lease, commands[n - 1], states[n - 1 + 1]);
      StepKeepsInv(states[n - 1], lease, commands[n - 1], states[n]);
    }
  }

  lemma EmptyIsSound()
    ensures Inv(State(map[], 1))
  {
    assert forall p :: IsPath(Deps(map[]), p) && |p| > 1 ==> Edge(Deps(map[]), p[0], p[0 + 1]);
  }

  /** Once done, an action stays done for as long as it is kept. */
  lemma DoneIsAbsorbing(s: State, lease: int, c: Command, s': State, id: ActionId)
    requires Inv(s) && Step(s, lease, c, s')
    requires id in s.actions && s.actions[id].state == Done && id in s'.actions
    ensures s'.actions[id].state == Done
  {
    hide EditAction, Acyclic, ReadinessIn, DepsError;
    match c
    case EditOne(k, e) =>
      if EditAction(s.actions, lease, k, e).Ok? {
        EditFacts(s.actions, lease, k, e);
      }
    case Cascade(now) => CascadeKeepsInv(s, s'.actions, now);
    case _ =>
  }

  // ---- No dependency deadlock -------------------------------------------------------------------

  ghost predicate IsReady(actions: ActionMap, id: ActionId) {
    id in actions && actions[id].Live() && ReadinessIn(actions, actions[id]).Ready?
  }

  /** Follow waiting dependencies from a live action: without cycles they run out, at a ready action. */
  lemma {:induction false} WaitingLeadsToReady(actions: ActionMap, p: seq<ActionId>) returns (id: ActionId)
    requires Acyclic(Deps(actions))
    requires forall a :: a in actions && actions[a].Live() ==> !ReadinessIn(actions, actions[a]).Failed?
    requires IsPath(Deps(actions), p) && NoDup(p)
    requires forall x :: x in p ==> x in actions && actions[x].Live()
    ensures IsReady(actions, id)
    decreases |LiveIds(actions)| - |p|
  {
    hide ReadinessIn;
    var x := p[|p| - 1];
    ReadinessMeaning(actions, actions[x]);
    NoDupBound(p, LiveIds(actions));
    if ReadinessIn(actions, actions[x]).Ready? {
      return x;
    }
    var d :| d in actions[x].dependsOn && !(d in actions && actions[d].state == Done);
    assert Edge(Deps(actions), x, d);
    if d in p {
      var i :| 0 <= i < |p| && p[i] == d;
      ClosingEdge(Deps(actions), p, i, d);
    }
    assert d in actions && actions[d].Live();
    var q := p + [d];
    ExtendPath(Deps(actions), p, d);
    NoDupBound(q, LiveIds(actions));
    id := WaitingLeadsToReady(actions, q);
  }

  lemma ExtendPath(g: Graph, p: seq<Node>, d: Node)
    requires IsPath(g, p) && Edge(g, p[|p| - 1], d)
    ensures IsPath(g, p + [d])
  {
    var q := p + [d];
    forall i | 0 <= i < |q| - 1
      ensures Edge(g, q[i], q[i + 1])
    {
      if i < |p| - 1 {
        assert Edge(g, p[i], p[i + 1]);
      }
    }
  }

  lemma ClosingEdge(g: Graph, p: seq<Node>, i: nat, d: Node)
    requires Acyclic(g) && IsPath(g, p) && i < |p| && p[i] == d
    ensures !Edge(g, p[|p| - 1], d)
  {
    if Edge(g, p[|p| - 1], d) {
      ExtendPath(g, p, d);
      var q := (p + [d])[i..];
      forall j | 0 <= j < |q| - 1
        ensures Edge(g, q[j], q[j + 1])
      {
        assert Edge(g, (p + [d])[i + j], (p + [d])[i + j + 1]);
      }
      assert IsPath(g, q);
    }
  }

  /** After a cascade, if any action is live then some live action is ready: dependencies never deadlock. */
  lemma NoDependencyDeadlock(s: State, actions': ActionMap, now: int, live: ActionId)
    requires Inv(s) && Cascaded(s.actions, actions', now)
    requires live in actions' && actions'[live].Live()
    ensures exists id :: IsReady(actions', id)
  {
    hide ReadinessIn, Acyclic;
    CascadeKeepsInv(s, actions', now);
    forall a | a in actions' && actions'[a].Live()
      ensures !ReadinessIn(actions', actions'[a]).Failed?
    {
      SurvivorsHaveNoFailedDep(s.actions, actions', now, a);
    }
    assert IsPath(Deps(actions'), [live]);
    var id := WaitingLeadsToReady(actions', [live]);
  }

  /** An action that a cascade leaves live has no failed dependency afterwards. */
  lemma SurvivorsHaveNoFailedDep(before: ActionMap, after: ActionMap, now: int, a: ActionId)
    requires Cascaded(before, after, now) && a in after && after[a].Live()
    ensures !ReadinessIn(after, after[a]).Failed?
  {
    hide Doomed, ReadinessIn;
    assert !Doomed(before, a);
    ReadinessMeaning(after, after[a]);
    if d :| d in after[a].dependsOn && FailedDep(after, d) {
      if d in before && Doomed(before, d) {
      } else {
        assert FailedDep(before, d);
      }
      DoomedThrough(before, a, d);
    }
  }

  /** A second cascade finds nothing to block. */
  lemma CascadeIsIdempotent(before: ActionMap, mid: ActionMap, after: ActionMap, now: int, later: int)
    requires Cascaded(before, mid, now) && Cascaded(mid, after, later)
    ensures after == mid
  {
    hide ReadinessIn;
    forall id | id in mid
      ensures !Doomed(mid, id)
    {
      if p :| FailingChain(mid, p) && p[0] == id {
        var n := |p| - 2;
        assert p[n] in mid && mid[p[n]].Live() && Edge(Deps(mid), p[n], p[n + 1]);
        SurvivorsHaveNoFailedDep(before, mid, now, p[n]);
        ReadinessMeaning(mid, mid[p[n]]);
      }
    }
  }
}
