/**
 * Failure accounting as its separate lock steps: read the action, reopen or escalate it, note the kind, cascade. A
 * sweep first lists the expired claims, in a step of its own. Commands of other clients, and other accountings, may
 * run between any two of them.
 */
module AccountingSteps {
  import opened Prelude
  import opened Actions
  import opened Frontier
  import opened FrontierStore
  import opened Dispatch
  import opened Accountability

  type CallId = nat

  /** How far an accounting has come. Once `seen` is read, the decision rests on it and not on the present. */
  datatype Phase =
    | Listed(id: ActionId)
    | Read(id: ActionId, kind: FailureKind, reason: string, seen: Action)
    | Acted(id: ActionId, effective: FailureKind, disposition: Disposition)
    | Noted
    | Returned

  datatype System = System(frontier: State, calls: map<CallId, Phase>)

  /** Blacklisting a worker takes the lock of the registry only and is not a step of the frontier. */
  datatype LockStep =
    | Other(command: Command, next: State)
    | Get(call: CallId, id: ActionId, kind: FailureKind, reason: string)
    | Listing(plan: map<CallId, ActionId>, now: int)
    | GetListed(call: CallId)
    | Act(call: CallId, now: int)
    | Note(call: CallId)
    | CascadeNow(call: CallId, now: int, after: ActionMap)

  /** No client reopens an action directly: requeue and retry are called by accounting alone. */
  predicate IsReopening(c: Command) {
    c.EditOne? && (c.edit.Requeue? || c.edit.RetryTransient?)
  }

  /** A sweep accounts each claim that has expired by `now`, in a call of its own, and nothing else. */
  ghost predicate ListsExpired(s: System, plan: map<CallId, ActionId>, now: int) {
    && plan.Keys !! s.calls.Keys
    && plan.Values == (set id | id in s.frontier.actions && ExpiredClaim(s.frontier.actions[id], now))
    && forall c, d :: c in plan && d in plan && plan[c] == plan[d] ==> c == d
  }

  ghost predicate Enabled(s: System, lease: int, step: LockStep) {
    match step
    case Other(command, next) => Step(s.frontier, lease, command, next) && !IsReopening(command)
    case Get(c, _, _, _) => c !in s.calls
    case Listing(plan, now) => ListsExpired(s, plan, now)
    case GetListed(c) => c in s.calls && s.calls[c].Listed?
    case Act(c, _) => c in s.calls && s.calls[c].Read?
    case Note(c) => c in s.calls && s.calls[c].Acted?
    case CascadeNow(c, now, after) => c in s.calls && s.calls[c].Noted? && Cascaded(s.frontier.actions, after, now)
  }

  /** The edit by which a call acts on what it read. */
  function ActEdit(p: Phase, now: int): Edit
    requires p.Read?
  {
    EditFor(DispositionOf(p.seen, p.kind), p.reason, now)
  }

  function AfterGet(s: System, id: ActionId, kind: FailureKind, reason: string): Phase {
    if id in s.frontier.actions then Read(id, kind, reason, s.frontier.actions[id]) else Returned
  }

  function AfterEditOf(s: System, lease: int, id: ActionId, e: Edit): State {
    s.frontier.(actions := Applied(s.frontier.actions, id, EditAction(s.frontier.actions, lease, id, e)))
  }

  function Perform(s: System, lease: int, step: LockStep): System
    requires step.GetListed? ==> step.call in s.calls && s.calls[step.call].Listed?
    requires step.Act? ==> step.call in s.calls && s.calls[step.call].Read?
    requires step.Note? ==> step.call in s.calls && s.calls[step.call].Acted?
  {
    match step
    case Other(_, next) => s.(frontier := next)
    case Get(c, id, kind, reason) => s.(calls := s.calls[c := AfterGet(s, id, kind, reason)])
    case Listing(plan, _) => s.(calls := s.calls + (map c | c in plan :: Listed(plan[c])))
    case GetListed(c) =>
      s.(calls := s.calls[c := AfterGet(s, s.calls[c].id, LeaseExpiredFailure, LEASE_EXPIRED_REASON)])
    case Act(c, now) =>
      var p := s.calls[c];
      var d := DispositionOf(p.seen, p.kind);
      var done := EditAction(s.frontier.actions, lease, p.id, ActEdit(p, now)).Err? || d.RetryBackoff?;
      System(AfterEditOf(s, lease, p.id, ActEdit(p, now)),
             s.calls[c := if done then Returned else Acted(p.id, EffectiveKind(p.seen, p.kind), d)])
    case Note(c) =>
      var p := s.calls[c];
      System(AfterEditOf(s, lease, p.id, Edit.SetFailureKind(p.effective)),
             s.calls[c := if p.disposition.Escalated? then Noted else Returned])
    case CascadeNow(c, _, after) => System(s.frontier.(actions := after), s.calls[c := Returned])
  }

  /** Any interleaving, from any sound frontier with any accountings under way. */
  ghost predicate IsTrace(states: seq<System>, lease: int, steps: seq<LockStep>) {
    && |states| == |steps| + 1
    && Inv(states[0].frontier)
    && forall i :: 0 <= i < |steps| ==> Moves(states[i], lease, steps[i], states[i + 1])
  }

  /** Any interleaving, from any sound frontier on which nothing is being accounted. */
  ghost predicate IsExecution(states: seq<System>, lease: int, steps: seq<LockStep>) {
    IsTrace(states, lease, steps) && states[0].calls == map[]
  }

  ghost predicate Moves(s: System, lease: int, step: LockStep, s': System) {
    Enabled(s, lease, step) && s' == Perform(s, lease, step)
  }

  // ---- What holds in every interleaving ------------------------------------------------------------

  lemma MoveKeepsInv(s: System, lease: int, step: LockStep, s': System)
    requires Inv(s.frontier) && Moves(s, lease, step, s')
    ensures Inv(s'.frontier)
  {
    hide Inv, EditAction, Step, Cascaded;
    match step
    case Other(command, next) => StepKeepsInv(s.frontier, lease, command, next);
    case Get(_, _, _, _) =>
    case Listing(_, _) =>
    case GetListed(_) =>
    case Act(c, now) => EditKeepsInv(s.frontier, lease, s.calls[c].id, ActEdit(s.calls[c], now));
    case Note(c) => EditKeepsInv(s.frontier, lease, s.calls[c].id, Edit.SetFailureKind(s.calls[c].effective));
    case CascadeNow(_, now, after) => CascadeKeepsInv(s.frontier, after, now);
  }

  lemma {:induction false} ExecutionKeepsInv(states: seq<System>, lease: int, steps: seq<LockStep>, n: nat)
    requires IsTrace(states, lease, steps) && n < |states|
    ensures Inv(states[n].frontier)
  {
    hide Inv, Moves;
    if n > 0 {
      ExecutionKeepsInv(states, lease, steps, n - 1);
      assert Moves(states[n - 1], lease, steps[n - 1], states[n - 1 + 1]);
      MoveKeepsInv(states[n - 1], lease, steps[n - 1], states[n]);
    }
  }

  /** The action a step of an accounting works on. */
  predicate WorksOn(s: System, step: LockStep, id: ActionId) {
    match step
    case Act(c, _) => c in s.calls && s.calls[c].Read? && s.calls[c].id == id
    case Note(c) => c in s.calls && s.calls[c].Acted? && s.calls[c].id == id
    case _ => false
  }

  /**
   * Whatever is interleaved, no step of an accounting touches any claim but the one it accounts, and only acting takes
   * that one: noting the kind leaves everything else of the action as it is.
   */
  lemma OtherClaimsAreUntouched(s: System, lease: int, step: LockStep, s': System, id: ActionId)
    requires Inv(s.frontier) && Moves(s, lease, step, s') && !step.Other?
    requires id in s.frontier.actions && s.frontier.actions[id].state == Claimed && !(step.Act? && WorksOn(s, step, id))
    ensures id in s'.frontier.actions
    ensures !WorksOn(s, step, id) ==> s'.frontier.actions[id] == s.frontier.actions[id]
    ensures var a, a' := s.frontier.actions[id], s'.frontier.actions[id];
      WorksOn(s, step, id) ==> a' == a.(lastFailureKind := a'.lastFailureKind)
  {
    hide Inv, Cascaded;
    match step
    case CascadeNow(_, now, after) =>
      CascadeKeepsInv(s.frontier, after, now);
      CascadeOnlyBlocks(s.frontier.actions, after, now);
    case _ =>
  }

  /** A call whose action was not touched since it read it does what an uninterrupted accounting does. */
  lemma UntouchedFailureIsSettled(s: System, lease: int, c: CallId, now: int)
    requires c in s.calls && s.calls[c].Read? && s.calls[c].id in s.frontier.actions
    requires s.frontier.actions[s.calls[c].id] == s.calls[c].seen && Accountable(s.calls[c].seen)
    ensures var p := s.calls[c];
      var s' := Perform(s, lease, Act(c, now));
      && p.id in s'.frontier.actions && Settled(p.seen, s'.frontier.actions[p.id], p.kind)
      && forall k :: k in s.frontier.actions && k != p.id ==>
         k in s'.frontier.actions && s'.frontier.actions[k] == s.frontier.actions[k]
  {
  }

  /** A whole accounting, up to its cascade, with nothing in between. */
  function Alone(s: System, lease: int, c: CallId, id: ActionId, kind: FailureKind, reason: string, now: int): System {
    var read := Perform(s, lease, Get(c, id, kind, reason));
    if read.calls[c].Returned? then read
    else
      var acted := Perform(read, lease, Act(c, now));
      if acted.calls[c].Returned? then acted else Perform(acted, lease, Note(c))
  }

  /** Uninterrupted, the lock steps of an accounting do what the method does in one step. */
  lemma UninterruptedIsAccounted(s: System, lease: int, c: CallId, id: ActionId, kind: FailureKind, reason: string,
                                 now: int)
    ensures var e := Alone(s, lease, c, id, kind, reason, now);
      && e.frontier.nextId == s.frontier.nextId
      && (e.calls[c].Returned? ==> exists r ::
          Accounted(s.frontier.actions, e.frontier.actions, lease, id, kind, reason, now, r))
      && (!e.calls[c].Returned? ==> e.calls[c].Noted? && forall after :: Cascaded(e.frontier.actions, after, now) ==>
          Accounted(s.frontier.actions, after, lease, id, kind, reason, now, Ok(Escalated)))
  {
    hide EditAction, Cascaded;
    var actions := s.frontier.actions;
    if id in actions {
      var d := DispositionOf(actions[id], kind);
      var r := EditAction(actions, lease, id, EditFor(d, reason, now));
      if r.Ok? {
        KindIsNoted(actions, lease, id, r.value, EffectiveKind(actions[id], kind));
      }
      var e := Alone(s, lease, c, id, kind, reason, now);
      if e.calls[c].Returned? {
        var answer := if r.Ok? then Ok(d) else Err(r.error);
        assert Accounted(actions, e.frontier.actions, lease, id, kind, reason, now, answer);
      }
    } else {
      assert Accounted(actions, actions, lease, id, kind, reason, now, Err(NotFound));
    }
  }

  // ---- The retry budget -----------------------------------------------------------------------------

  /** The step puts action `id` back to open. */
  predicate Reopens(s: System, lease: int, step: LockStep, id: ActionId) {
    && step.Act? && WorksOn(s, step, id)
    && !DispositionOf(s.calls[step.call].seen, s.calls[step.call].kind).Escalated?
    && EditAction(s.frontier.actions, lease, id, ActEdit(s.calls[step.call], step.now)).Ok?
  }

  /** Since the call read the action, something else has counted a reopening of it. */
  predicate Overtaken(s: System, c: CallId) {
    && c in s.calls && s.calls[c].Read? && s.calls[c].id in s.frontier.actions
    && var a := s.frontier.actions[s.calls[c].id];
       a.requeueCount != s.calls[c].seen.requeueCount || a.transientRetries != s.calls[c].seen.transientRetries
  }

  /** The reopening is decided on a count that is no longer true. */
  predicate ReopensLate(s: System, lease: int, step: LockStep, id: ActionId) {
    Reopens(s, lease, step, id) && Overtaken(s, step.call)
  }

  /** The counter that the reopening raises has reached its limit already. */
  predicate ReopensAtLimit(s: System, lease: int, step: LockStep, id: ActionId) {
    && Reopens(s, lease, step, id) && id in s.frontier.actions
    && var a := s.frontier.actions[id];
       if DispositionOf(s.calls[step.call].seen, s.calls[step.call].kind).RetryBackoff?
       then a.transientRetries >= MAX_TRANSIENT_RETRIES else a.requeueCount >= MAX_REQUEUES
  }

  datatype Reopening = Any | Late | AtLimit

  predicate IsReopeningOf(which: Reopening, s: System, lease: int, step: LockStep, id: ActionId) {
    match which
    case Any => Reopens(s, lease, step, id)
    case Late => ReopensLate(s, lease, step, id)
    case AtLimit => ReopensAtLimit(s, lease, step, id)
  }

  function Count(b: bool): nat {
    if b then 1 else 0
  }

  /** How many steps of a run are reopenings of this sort. */
  function Reopenings(which: Reopening, states: seq<System>, lease: int, steps: seq<LockStep>, id: ActionId): nat
    requires |states| == |steps| + 1
  {
    if steps == [] then 0
    else
      var n := |steps| - 1;
      Reopenings(which, states[..n + 1], lease, steps[..n], id)
      + Count(IsReopeningOf(which, states[n], lease, steps[n], id))
  }

  /** The counters of an action that is still there are changed by its reopenings only, each by one. */
  lemma MoveCounts(s: System, lease: int, step: LockStep, s': System, id: ActionId)
    requires Inv(s.frontier) && Moves(s, lease, step, s') && id < s.frontier.nextId
    ensures id < s'.frontier.nextId && (id in s'.frontier.actions ==> id in s.frontier.actions)
    ensures id in s'.frontier.actions ==>
      var a, a' := s.frontier.actions[id], s'.frontier.actions[id];
      if Reopens(s, lease, step, id) then
        if DispositionOf(s.calls[step.call].seen, s.calls[step.call].kind).RetryBackoff?
        then a'.transientRetries == SatInc(a.transientRetries) && a'.requeueCount == a.requeueCount
        else a'.requeueCount == SatInc(a.requeueCount) && a'.transientRetries == a.transientRetries
      else a'.requeueCount == a.requeueCount && a'.transientRetries == a.transientRetries
  {
    hide Inv, Cascaded, ReadinessIn, DepsError;
    match step
    case Other(command, next) => CommandKeepsCount(s.frontier, lease, command, next, id);
    case CascadeNow(_, now, after) =>
      if id in after {
        CascadeKeepsCount(s.frontier.actions, after, now, id);
      }
    case _ =>
  }

  lemma CascadeKeepsCount(before: ActionMap, after: ActionMap, now: int, id: ActionId)
    requires Cascaded(before, after, now) && id in after
    ensures id in before
    ensures after[id].requeueCount == before[id].requeueCount
    ensures after[id].transientRetries == before[id].transientRetries
  {
    hide Doomed;
  }

  lemma CommandKeepsCount(s: State, lease: int, c: Command, s': State, id: ActionId)
    requires Inv(s) && Step(s, lease, c, s') && !IsReopening(c) && id < s.nextId
    ensures id < s'.nextId && (id in s'.actions ==> id in s.actions)
    ensures id in s'.actions ==>
      s'.actions[id].requeueCount == s.actions[id].requeueCount
      && s'.actions[id].transientRetries == s.actions[id].transientRetries
  {
    hide Inv, Cascaded, ReadinessIn, DepsError;
    match c
    case Cascade(now) =>
      if id in s'.actions {
        CascadeKeepsCount(s.actions, s'.actions, now, id);
      }
    case _ =>
  }

  /** A reopening uses up one unit of the budget unless its counter is at the limit; nothing gives any back. */
  lemma MoveUsesBudget(s: System, lease: int, step: LockStep, s': System, id: ActionId)
    requires Inv(s.frontier) && Moves(s, lease, step, s') && id < s.frontier.nextId
    ensures id < s'.frontier.nextId && (id in s'.frontier.actions ==> id in s.frontier.actions)
    ensures var used, free := Count(Reopens(s, lease, step, id)), Count(ReopensAtLimit(s, lease, step, id));
      && Budget(s'.frontier, id) + used <= Budget(s.frontier, id) + free
      && (id in s'.frontier.actions ==> Budget(s'.frontier, id) + used == Budget(s.frontier, id) + free)
  {
    hide Inv, EditAction, Step, Cascaded;
    MoveCounts(s, lease, step, s', id);
    if Reopens(s, lease, step, id) {
      assert id in s.frontier.actions by {
        OnlyPresentIsEdited(s.frontier.actions, lease, id, ActEdit(s.calls[step.call], step.now)); }
    }
  }

  lemma OnlyPresentIsEdited(actions: ActionMap, lease: int, id: ActionId, e: Edit)
    requires EditAction(actions, lease, id, e).Ok?
    ensures id in actions
  {
    EditFacts(actions, lease, id, e);
  }

  /**
   * The exact account of every interleaving: while an action is there, its reopenings and what is left of its budget
   * add up to the budget it started with, plus one for every reopening that found its counter at the limit.
   */
  lemma {:induction false} BudgetIsConserved(states: seq<System>, lease: int, steps: seq<LockStep>, id: ActionId)
    requires IsTrace(states, lease, steps) && id < states[0].frontier.nextId
    ensures id < states[|steps|].frontier.nextId
    ensures var spent := Reopenings(Any, states, lease, steps, id) + Budget(states[|steps|].frontier, id);
      var granted := Budget(states[0].frontier, id) + Reopenings(AtLimit, states, lease, steps, id);
      spent <= granted && (id in states[|steps|].frontier.actions ==> spent == granted)
    decreases |steps|
  {
    hide Inv, Moves, Reopens, ReopensLate, ReopensAtLimit, Budget;
    if steps != [] {
      var n := |steps| - 1;
      PrefixIsTrace(states, lease, steps, n);
      BudgetIsConserved(states[..n + 1], lease, steps[..n], id);
      ExecutionKeepsInv(states, lease, steps, n);
      assert Moves(states[n], lease, steps[n], states[n + 1]);
      MoveUsesBudget(states[n], lease, steps[n], states[n + 1], id);
    }
  }

  lemma PrefixIsTrace(states: seq<System>, lease: int, steps: seq<LockStep>, n: nat)
    requires IsTrace(states, lease, steps) && n <= |steps|
    ensures IsTrace(states[..n + 1], lease, steps[..n])
  {
    hide Inv, Moves;
    forall i | 0 <= i < n ensures Moves(states[..n + 1][i], lease, steps[..n][i], states[..n + 1][i + 1]) {
      assert Moves(states[i], lease, steps[i], states[i + 1]);
    }
  }

  /** The decision was for reopening, so the counter was below its limit when it was read. */
  lemma AtLimitIsLate(s: System, lease: int, step: LockStep, id: ActionId)
    requires ReopensAtLimit(s, lease, step, id)
    ensures ReopensLate(s, lease, step, id)
  {
    hide EditAction;
  }

  lemma {:induction false} FewerAtLimitThanLate(states: seq<System>, lease: int, steps: seq<LockStep>, id: ActionId)
    requires |states| == |steps| + 1
    ensures Reopenings(AtLimit, states, lease, steps, id) <= Reopenings(Late, states, lease, steps, id)
    decreases |steps|
  {
    hide Reopens, ReopensLate, ReopensAtLimit;
    if steps != [] {
      var n := |steps| - 1;
      FewerAtLimitThanLate(states[..n + 1], lease, steps[..n], id);
      if ReopensAtLimit(states[n], lease, steps[n], id) {
        AtLimitIsLate(states[n], lease, steps[n], id);
      }
    }
  }

  /**
   * In every interleaving an action is reopened at most as often as its budget allows, plus the reopenings that
   * were decided on an outdated count.
   */
  lemma ReopeningsByBudget(states: seq<System>, lease: int, steps: seq<LockStep>, id: ActionId)
    requires IsTrace(states, lease, steps) && id < states[0].frontier.nextId
    ensures Reopenings(Any, states, lease, steps, id) + Budget(states[|steps|].frontier, id)
         <= Budget(states[0].frontier, id) + Reopenings(Late, states, lease, steps, id)
  {
    hide Inv, Moves, Reopenings, Budget;
    BudgetIsConserved(states, lease, steps, id);
    FewerAtLimitThanLate(states, lease, steps, id);
  }

  // ---- The limits of the counters ---------------------------------------------------------------------

  predicate WithinLimits(s: State, id: ActionId) {
    id in s.actions ==>
      s.actions[id].requeueCount <= MAX_REQUEUES && s.actions[id].transientRetries <= MAX_TRANSIENT_RETRIES
  }

  /** A step takes a counter past its limit exactly when it reopens the action with this counter at the limit. */
  lemma LimitIsPassedExactly(s: System, lease: int, step: LockStep, s': System, id: ActionId)
    requires Inv(s.frontier) && Moves(s, lease, step, s') && id < s.frontier.nextId && WithinLimits(s.frontier, id)
    ensures WithinLimits(s'.frontier, id) <==> !ReopensAtLimit(s, lease, step, id)
  {
    hide Inv, EditAction, Step, Cascaded;
    MoveCounts(s, lease, step, s', id);
    if Reopens(s, lease, step, id) {
      OnlyPresentIsEdited(s.frontier.actions, lease, id, ActEdit(s.calls[step.call], step.now));
    }
  }

  ghost predicate AlwaysWithinLimits(states: seq<System>, id: ActionId) {
    forall i :: 0 <= i < |states| ==> WithinLimits(states[i].frontier, id)
  }

  ghost predicate NeverAtLimit(states: seq<System>, lease: int, steps: seq<LockStep>, id: ActionId)
    requires |states| == |steps| + 1
  {
    forall i :: 0 <= i < |steps| ==> !ReopensAtLimit(states[i], lease, steps[i], id)
  }

  /** Both counters stay within their limits exactly in the runs without a reopening at the limit. */
  lemma {:induction false} LimitsAreKeptExactly(states: seq<System>, lease: int, steps: seq<LockStep>, id: ActionId)
    requires IsTrace(states, lease, steps) && id < states[0].frontier.nextId && WithinLimits(states[0].frontier, id)
    ensures AlwaysWithinLimits(states, id) <==> NeverAtLimit(states, lease, steps, id)
    decreases |steps|
  {
    hide Inv, Moves, ReopensAtLimit, WithinLimits;
    if steps != [] {
      var n := |steps| - 1;
      var front := states[..n + 1];
      PrefixIsTrace(states, lease, steps, n);
      LimitsAreKeptExactly(front, lease, steps[..n], id);
      BudgetIsConserved(front, lease, steps[..n], id);
      assert AlwaysWithinLimits(states, id)
        <==> AlwaysWithinLimits(front, id) && WithinLimits(states[n + 1].frontier, id) by {
        assert forall i :: 0 <= i <= n ==> front[i] == states[i];
      }
      assert NeverAtLimit(states, lease, steps, id)
        <==> NeverAtLimit(front, lease, steps[..n], id) && !ReopensAtLimit(states[n], lease, steps[n], id);
      if AlwaysWithinLimits(front, id) {
        assert WithinLimits(front[n].frontier, id);
        ExecutionKeepsInv(states, lease, steps, n);
        assert Moves(states[n], lease, steps[n], states[n + 1]);
        LimitIsPassedExactly(states[n], lease, steps[n], states[n + 1], id);
      }
    }
  }

  // ---- Accountings that do not overlap -------------------------------------------------------------------

  /** At most one accounting of the action stands between reading it and acting on it. */
  predicate OneInFlight(s: System, id: ActionId) {
    forall c, d ::
      c in s.calls && d in s.calls && s.calls[c].Read? && s.calls[d].Read? && s.calls[c].id == s.calls[d].id == id
      ==> c == d
  }

  predicate NoneOvertaken(s: System, id: ActionId) {
    forall c :: c in s.calls && s.calls[c].Read? && s.calls[c].id == id ==> !Overtaken(s, c)
  }

  lemma MoveOvertakesNone(s: System, lease: int, step: LockStep, s': System, id: ActionId)
    requires Inv(s.frontier) && Moves(s, lease, step, s') && id < s.frontier.nextId
    requires OneInFlight(s, id) && NoneOvertaken(s, id)
    ensures NoneOvertaken(s', id)
  {
    hide Inv, EditAction;
    MoveCounts(s, lease, step, s', id);
    forall c | c in s'.calls && s'.calls[c].Read? && s'.calls[c].id == id ensures !Overtaken(s', c) {
      if c in s.calls && s.calls[c] == s'.calls[c] {
        assert !Overtaken(s, c);
      }
    }
  }

  /** While at most one accounting of an action is in flight, none is overtaken, whatever else is interleaved. */
  lemma {:induction false} AloneIsNeverLate(states: seq<System>, lease: int, steps: seq<LockStep>, id: ActionId)
    requires IsExecution(states, lease, steps) && id < states[0].frontier.nextId
    requires forall i :: 0 <= i < |states| ==> OneInFlight(states[i], id)
    ensures NoneOvertaken(states[|steps|], id) && Reopenings(Late, states, lease, steps, id) == 0
    ensures NeverAtLimit(states, lease, steps, id)
    decreases |steps|
  {
    hide Inv, Moves, Reopens, ReopensLate, ReopensAtLimit, Overtaken, OneInFlight, NoneOvertaken;
    if steps == [] {
      assert NoneOvertaken(states[0], id) by { NothingReadYet(states[0], id); }
    } else {
      var n := |steps| - 1;
      var front := states[..n + 1];
      PrefixIsTrace(states, lease, steps, n);
      assert forall i :: 0 <= i < |front| ==> front[i] == states[i];
      AloneIsNeverLate(front, lease, steps[..n], id);
      ExecutionKeepsInv(states, lease, steps, n);
      BudgetIsConserved(front, lease, steps[..n], id);
      assert Moves(states[n], lease, steps[n], states[n + 1]);
      MoveOvertakesNone(states[n], lease, steps[n], states[n + 1], id);
      assert !ReopensLate(states[n], lease, steps[n], id) by { ReopeningWasRead(states[n], lease, steps[n], id); }
      if ReopensAtLimit(states[n], lease, steps[n], id) {
        AtLimitIsLate(states[n], lease, steps[n], id);
      }
    }
  }

  lemma NothingReadYet(s: System, id: ActionId)
    requires s.calls == map[]
    ensures NoneOvertaken(s, id)
  {
  }

  lemma ReopeningWasRead(s: System, lease: int, step: LockStep, id: ActionId)
    requires NoneOvertaken(s, id)
    ensures !ReopensLate(s, lease, step, id)
  {
    hide EditAction, Overtaken;
  }

  /** The promised bound, for every interleaving in which accountings of one action do not overlap. */
  lemma ReopeningsAreBoundedAlone(states: seq<System>, lease: int, steps: seq<LockStep>, id: ActionId)
    requires IsExecution(states, lease, steps) && id < states[0].frontier.nextId
    requires forall i :: 0 <= i < |states| ==> OneInFlight(states[i], id)
    ensures Reopenings(Any, states, lease, steps, id) <= MAX_REQUEUES + MAX_TRANSIENT_RETRIES
  {
    hide Inv, Moves, OneInFlight;
    assert Budget(states[0].frontier, id) <= MAX_REQUEUES + MAX_TRANSIENT_RETRIES;
    ReopeningsByBudget(states, lease, steps, id);
    AloneIsNeverLate(states, lease, steps, id);
  }

  /** Each counter stays within its own limit as well. */
  lemma CountersStayWithinLimits(states: seq<System>, lease: int, steps: seq<LockStep>, id: ActionId)
    requires IsExecution(states, lease, steps) && id < states[0].frontier.nextId && WithinLimits(states[0].frontier, id)
    requires forall i :: 0 <= i < |states| ==> OneInFlight(states[i], id)
    ensures AlwaysWithinLimits(states, id)
  {
    hide Inv, Moves, OneInFlight, WithinLimits, ReopensAtLimit;
    AloneIsNeverLate(states, lease, steps, id);
    LimitsAreKeptExactly(states, lease, steps, id);
  }
}
