/** Who may do what to an action, and exactly what that changes. */
module EditLaws {
  import opened Prelude
  import opened Graph
  import opened Actions
  import opened Frontier
  import opened FrontierLimits
  import opened FrontierStore

  /** The assignee owns the action; without one, whoever claimed it. */
  predicate OwnedBy(a: Action, who: string) {
    a.assignee == Some(who) || (a.assignee == None && a.claimedBy == Some(who))
  }

  predicate Unowned(a: Action) {
    a.assignee == None && a.claimedBy == None
  }

  /** What no report, renewal, pause or note touches. */
  predicate SameClaim(a: Action, b: Action) {
    && a.assignee == b.assignee && a.claimedBy == b.claimedBy
    && a.assignedAt == b.assignedAt && a.claimedAt == b.claimedAt
  }

  predicate SameCounters(a: Action, b: Action) {
    a.requeueCount == b.requeueCount && a.transientRetries == b.transientRetries
  }

  /** Everything that describes the work itself. */
  predicate SameWork(a: Action, b: Action) {
    && a.id == b.id && a.dependsOn == b.dependsOn && a.goalId == b.goalId
    && a.requiredCapabilities == b.requiredCapabilities && a.createdAt == b.createdAt
  }

  /** A claim or assignment gives the action to who asked for it, with a full lease, and changes nothing else. */
  lemma TakingUpGives(actions: ActionMap, lease: int, id: ActionId, e: Edit)
    requires (e.Claim? || e.Assign?) && EditAction(actions, lease, id, e).Ok?
    ensures id in actions
    ensures var a, a' := actions[id], EditAction(actions, lease, id, e).value;
      var who := if e.Claim? then e.who else e.worker;
      && a'.state == Claimed && a'.assignee == Some(who) && a'.claimedBy == Some(who)
      && a'.claimedAt == Some(e.t1) && a'.leaseUntil == Some(SatAdd(e.t1, lease)) && a'.updatedAt == e.t1
      && a'.assignedAt == (if a.assignee.Some? then a.assignedAt else Some(e.t1))
      && a' == a.(state := Claimed, assignee := a'.assignee, claimedBy := a'.claimedBy, claimedAt := a'.claimedAt,
                  assignedAt := a'.assignedAt, leaseUntil := a'.leaseUntil, updatedAt := e.t1)
  {
    hide ReadinessIn;
  }

  /**
   * An action is completed exactly as done, blocked or exhausted, while it is live and not paused, by its owner, an
   * administrator, or anybody if nobody owns it.
   */
  lemma CompletingExactly(actions: ActionMap, lease: int, id: ActionId, outcome: nat, terminal: ActionState,
                          actor: string, isAdmin: bool, now: int)
    ensures var r := EditAction(actions, lease, id, Complete(outcome, terminal, actor, isAdmin, now));
      r.Ok? <==> terminal in {Done, Blocked, Exhausted} && id in actions && actions[id].state in {Open, Claimed}
                 && !actions[id].paused && (isAdmin || OwnedBy(actions[id], actor) || Unowned(actions[id]))
    ensures var r := EditAction(actions, lease, id, Complete(outcome, terminal, actor, isAdmin, now));
      r.Ok? ==>
        var a, a' := actions[id], r.value;
        && a'.state == terminal && a'.outcomeMemoryId == Some(outcome) && a'.updatedAt == now
        && SameClaim(a, a') && SameCounters(a, a') && SameWork(a, a') && a'.leaseUntil == a.leaseUntil
        && (terminal == Done ==> a'.lastFailureReason == a.lastFailureReason && a'.lastResponsible == a.lastResponsible)
        && (terminal != Done ==> a'.lastFailureReason == Some(Reported(terminal)) && a'.lastResponsible == a.assignee)
        && a'.escalated == a.escalated && a'.priority == a.priority && a'.notBefore == a.notBefore
  {
  }

  /** Only the owner beats: of a claim, which is renewed unless paused, or of a stopped or cancelled action. */
  lemma HeartbeatExactly(actions: ActionMap, lease: int, id: ActionId, actor: string, now: int)
    ensures var r := EditAction(actions, lease, id, Edit.Heartbeat(actor, now));
      r.Ok? <==> id in actions && OwnedBy(actions[id], actor) && actions[id].state in {Claimed, Stopped, Cancelled}
    ensures var r := EditAction(actions, lease, id, Edit.Heartbeat(actor, now));
      r.Ok? ==>
        var a, a' := actions[id], r.value;
        && a'.leaseUntil == (if a.state == Claimed && !a.paused then Some(SatAdd(now, lease)) else a.leaseUntil)
        && a'.steerPending == [] && a'.steerDelivered == a.steerDelivered + |a.steerPending| && a'.updatedAt == now
        && a' == a.(leaseUntil := a'.leaseUntil, steerPending := [], steerDelivered := a'.steerDelivered,
                    updatedAt := now)
  {
  }

  /** Only the owner renews, and only a claim; a pause does not keep the lease from moving. */
  lemma RenewingExactly(actions: ActionMap, lease: int, id: ActionId, actor: string, now: int)
    ensures var r := EditAction(actions, lease, id, Edit.RenewLease(actor, now));
      r.Ok? <==> id in actions && actions[id].state == Claimed && OwnedBy(actions[id], actor)
    ensures var r := EditAction(actions, lease, id, Edit.RenewLease(actor, now));
      r.Ok? ==>
        && r.value.leaseUntil == Some(SatAdd(now, lease)) && r.value.updatedAt == now
        && r.value == actions[id].(leaseUntil := r.value.leaseUntil, updatedAt := now)
  {
  }

  /** A claim is paused or resumed, only to the other state; resuming starts a full lease. */
  lemma PausingExactly(actions: ActionMap, lease: int, id: ActionId, paused: bool, now: int)
    ensures var r := EditAction(actions, lease, id, Edit.SetPaused(paused, now));
      r.Ok? <==> id in actions && actions[id].state == Claimed && actions[id].paused != paused
    ensures var r := EditAction(actions, lease, id, Edit.SetPaused(paused, now));
      r.Ok? ==>
        var a, a' := actions[id], r.value;
        && a'.paused == paused && a'.leaseUntil == (if paused then a.leaseUntil else Some(SatAdd(now, lease)))
        && a' == a.(paused := paused, leaseUntil := a'.leaseUntil, updatedAt := now)
  {
  }

  /** Exactly a live action is stopped; it counts neither as done nor as failed, and keeps its owner for the record. */
  lemma StoppingExactly(actions: ActionMap, lease: int, id: ActionId, note: string, now: int)
    ensures var r := EditAction(actions, lease, id, Edit.Stop(note, now));
      r.Ok? <==> id in actions && actions[id].state in {Open, Claimed}
    ensures var r := EditAction(actions, lease, id, Edit.Stop(note, now));
      r.Ok? ==>
        var a, a' := actions[id], r.value;
        && a'.state == Stopped && !a'.paused && a'.leaseUntil == None && a'.notBefore == None
        && SameClaim(a, a') && SameCounters(a, a') && SameWork(a, a')
        && a'.outcomeMemoryId == a.outcomeMemoryId && a'.escalated == a.escalated
        && a'.lastFailureReason == Some(StopNote(note)) && a'.lastFailureKind == a.lastFailureKind
  {
  }

  /** The owner of a claim is sent a note, of which at most sixteen wait. */
  lemma SteeringExactly(actions: ActionMap, lease: int, id: ActionId, note: string, now: int)
    ensures var r := EditAction(actions, lease, id, Edit.Steer(note, now));
      r.Ok? <==> note != "" && id in actions && actions[id].state == Claimed && |actions[id].steerPending| < 16
    ensures var r := EditAction(actions, lease, id, Edit.Steer(note, now));
      r.Ok? ==>
        && r.value.steerPending == actions[id].steerPending + [note]
        && r.value == actions[id].(steerPending := r.value.steerPending, updatedAt := now)
  {
  }

  /** Exactly claimed and failed actions are requeued: nobody's any more, more urgent, and counted. */
  lemma RequeuingExactly(actions: ActionMap, lease: int, id: ActionId, reason: string, bump: nat, now: int)
    ensures var r := EditAction(actions, lease, id, Edit.Requeue(reason, bump, now));
      r.Ok? <==> id in actions && actions[id].state in {Claimed, Blocked, Exhausted}
    ensures var r := EditAction(actions, lease, id, Edit.Requeue(reason, bump, now));
      r.Ok? ==>
        var a, a' := actions[id], r.value;
        && a'.state == Open && Unowned(a') && a'.leaseUntil == None && a'.claimedAt == None && a'.assignedAt == None
        && (forall w :: OwnedBy(a, w) ==> a'.lastResponsible == Some(w)) && !a'.escalated
        && (a.requeueCount < U32_MAX ==> a'.requeueCount == a.requeueCount + 1)
        && a'.transientRetries == a.transientRetries && a'.notBefore == a.notBefore && SameWork(a, a')
        && a'.priority <= 10 && (a.priority + bump <= 10 ==> a'.priority == a.priority + bump)
        && (a.priority + bump >= 10 ==> a'.priority == 10)
  {
  }

  /**
   * Exactly live and failed actions are retried: nobody's any more, and not to be taken up before the backoff is over.
   */
  lemma RetryingExactly(actions: ActionMap, lease: int, id: ActionId, reason: string, now: int)
    ensures var r := EditAction(actions, lease, id, Edit.RetryTransient(reason, now));
      r.Ok? <==> id in actions && actions[id].state in {Open, Claimed, Blocked, Exhausted}
    ensures var r := EditAction(actions, lease, id, Edit.RetryTransient(reason, now));
      r.Ok? && actions[id].transientRetries < U32_MAX ==>
        var a, a' := actions[id], r.value;
        && a'.state == Open && Unowned(a') && a'.leaseUntil == None && a'.claimedAt == None && a'.assignedAt == None
        && a'.notBefore == Some(SatAdd(now, TransientBackoffSecs(a.transientRetries + 1)))
        && a'.transientRetries == a.transientRetries + 1 && a'.requeueCount == a.requeueCount
        && a'.lastFailureKind == Some(TransientFailure) && a'.lastFailureReason == Some(Text(reason))
        && a'.priority == a.priority && a'.escalated == a.escalated && SameWork(a, a')
  {
    hide TransientBackoffSecs;
  }

  /** Escalating marks any action; a live one is blocked, a finished one stays what it was. */
  lemma EscalatingExactly(actions: ActionMap, lease: int, id: ActionId, reason: string, now: int)
    ensures var r := EditAction(actions, lease, id, Edit.Escalate(reason, now));
      && (r.Ok? <==> id in actions)
      && (r.Ok? ==>
          var a, a' := actions[id], r.value;
          && a'.escalated && a'.state == (if a.state in {Open, Claimed} then Blocked else a.state)
          && SameClaim(a, a') && SameCounters(a, a') && SameWork(a, a') && a'.leaseUntil == a.leaseUntil
          && a'.lastFailureReason == Some(Text(reason)))
  {
  }

  /** Clock values add up until they reach the ends of the 64-bit range, and stop there. */
  lemma ClocksSaturate(a: int, b: int)
    ensures -0x8000_0000_0000_0000 <= SatAdd(a, b) <= 0x7FFF_FFFF_FFFF_FFFF
    ensures -0x8000_0000_0000_0000 <= a + b <= 0x7FFF_FFFF_FFFF_FFFF ==> SatAdd(a, b) == a + b
    ensures a + b > 0x7FFF_FFFF_FFFF_FFFF ==> SatAdd(a, b) == 0x7FFF_FFFF_FFFF_FFFF
  {
  }

  /** The n-th retry in a row waits half a minute, and each further one twice as long, up to a quarter of an hour. */
  lemma BackoffDoubles(n: nat)
    ensures TransientBackoffSecs(1) == 30 && TransientBackoffSecs(0) == 30
    ensures n >= 1 ==>
      var here, next := TransientBackoffSecs(n), TransientBackoffSecs(n + 1);
      30 <= here <= 900 && next == if 2 * here <= 900 then 2 * here else 900
  {
    Pow2Grows(if n <= 1 then 0 else if n - 1 > 16 then 16 else n - 1);
    assert Pow2(0) == 1 && Pow2(1) == 2;
    if n >= 17 {
      assert Pow2(4) == 16 && Pow2(5) == 32;
      Pow2AtLeast(16, 5);
    }
  }

  lemma {:induction false} Pow2Grows(n: nat)
    ensures Pow2(n) >= 1 && Pow2(n + 1) == 2 * Pow2(n)
  {
    if n > 0 {
      Pow2Grows(n - 1);
    }
  }

  lemma {:induction false} Pow2AtLeast(n: nat, m: nat)
    requires n >= m
    ensures Pow2(n) >= Pow2(m)
  {
    if n > m {
      Pow2Grows(n - 1);
      Pow2AtLeast(n - 1, m);
    }
  }

  // ---- Why an edit is refused --------------------------------------------------------------------------

  /** The states in which an edit is possible at all. */
  function Suitable(e: Edit): set<ActionState> {
    match e
    case Claim(_, _, _) => {Open}
    case Assign(_, _, _) => {Open}
    case Complete(_, _, _, _, _) => {Open, Claimed}
    case Requeue(_, _, _) => {Claimed, Blocked, Exhausted}
    case RetryTransient(_, _) => {Open, Claimed, Blocked, Exhausted}
    case Heartbeat(_, _) => {Claimed, Stopped, Cancelled}
    case RenewLease(_, _) => {Claimed}
    case SetPaused(_, _) => {Claimed}
    case Stop(_, _) => {Open, Claimed}
    case Steer(_, _) => {Claimed}
    case _ => {Open, Claimed, Done, Blocked, Exhausted, Cancelled, Stopped}
  }

  lemma AnyStateSuits(e: Edit, state: ActionState)
    requires e.Escalate? || e.SetFailureKind?
    ensures state in Suitable(e)
  {
    match state
    case Open =>
    case Claimed =>
    case Done =>
    case Blocked =>
    case Exhausted =>
    case Cancelled =>
    case Stopped =>
  }

  predicate IsMalformed(e: Edit) {
    || (e.Assign? && e.worker == "") || (e.Steer? && e.note == "")
    || (e.Complete? && e.terminal !in {Done, Blocked, Exhausted})
  }

  /** A malformed request is refused first, then an unknown action. */
  lemma RefusedUnseenExactly(actions: ActionMap, lease: int, id: ActionId, e: Edit)
    ensures EditAction(actions, lease, id, e) == Err(BadArgument) <==> IsMalformed(e)
    ensures EditAction(actions, lease, id, e) == Err(NotFound) <==> !IsMalformed(e) && id !in actions
  {
    hide ReadinessIn;
  }

  /** Then a wrong state, except that a heartbeat first asks who sends it. */
  lemma RefusedByStateExactly(actions: ActionMap, lease: int, id: ActionId, e: Edit)
    requires id in actions && !IsMalformed(e)
    ensures EditAction(actions, lease, id, e) == Err(WrongState) <==>
      actions[id].state !in Suitable(e) && (e.Heartbeat? ==> OwnedBy(actions[id], e.actor))
  {
    hide ReadinessIn;
    match e
    case Claim(_, _, _) =>
    case Assign(_, _, _) =>
    case Complete(_, _, _, _, _) =>
    case Requeue(_, _, _) =>
    case RetryTransient(_, _) =>
    case Escalate(_, _) => AnyStateSuits(e, actions[id].state);
    case SetFailureKind(_) => AnyStateSuits(e, actions[id].state);
    case Heartbeat(_, _) =>
    case RenewLease(_, _) =>
    case SetPaused(_, _) =>
    case Stop(_, _) =>
    case Steer(_, _) =>
  }

  /** Claims and assignments wait for the backoff, then for the dependencies, then ask whose the action is. */
  lemma RefusedToTakeUpExactly(actions: ActionMap, lease: int, id: ActionId, e: Edit)
    requires id in actions && !IsMalformed(e) && (e.Claim? || e.Assign?) && actions[id].state == Open
    ensures var a, r := actions[id], EditAction(actions, lease, id, e);
      var early := a.notBefore.Some? && e.t0 < a.notBefore.value;
      && (r == Err(InBackoff) <==> early)
      && (r.Err? && r.error.WaitingOn? <==> !early && ReadinessIn(actions, a).Waiting?)
      && (r.Err? && r.error.WaitingOn? ==> r.error.deps == ReadinessIn(actions, a).deps)
      && (r.Err? && r.error.DepsFailed? <==> !early && ReadinessIn(actions, a).Failed?)
      && (r.Err? && r.error.DepsFailed? ==> r.error.deps == ReadinessIn(actions, a).deps)
      && (r == Err(NotOwner) <==>
           !early && ReadinessIn(actions, a).Ready? && e.Claim? && a.assignee.Some? && a.assignee.value != e.who)
      && (r == Err(AlreadyAssigned) <==>
           !early && ReadinessIn(actions, a).Ready? && e.Assign? && a.assignee.Some?)
  {
    hide ReadinessIn;
  }

  /** The other refusals: somebody else's action, a paused one, one that is so already, too many notes. */
  lemma RefusedOtherwiseExactly(actions: ActionMap, lease: int, id: ActionId, e: Edit)
    requires id in actions && !IsMalformed(e) && !e.Claim? && !e.Assign? && actions[id].state in Suitable(e)
    ensures var a, r := actions[id], EditAction(actions, lease, id, e);
      && (r == Err(PausedNow) <==> e.Complete? && a.paused)
      && (r == Err(NotOwner) <==>
           || (e.Complete? && !a.paused && !e.isAdmin && !Unowned(a) && !OwnedBy(a, e.actor))
           || (e.Heartbeat? && !OwnedBy(a, e.actor)) || (e.RenewLease? && !OwnedBy(a, e.actor)))
      && (r == Err(AlreadyPaused) <==> e.SetPaused? && a.paused == e.paused)
      && (r == Err(TooManyNotes) <==> e.Steer? && |a.steerPending| >= 16)
      && (r.Err? ==> r.error in {PausedNow, NotOwner, AlreadyPaused, TooManyNotes})
  {
    hide ReadinessIn;
  }

  /** A dependency list is refused for its first entry that is the action itself or unknown, or else for a cycle. */
  lemma DependencyErrorsExactly(actions: ActionMap, id: ActionId, deps: seq<ActionId>, i: nat)
    requires Acyclic(Deps(actions))
    ensures i < |deps| && (forall j :: 0 <= j < i ==> deps[j] != id && deps[j] in actions) ==>
      && (deps[i] == id ==> DepsError(actions, id, deps) == Some(SelfDependency))
      && (deps[i] != id && deps[i] !in actions ==> DepsError(actions, id, deps) == Some(MissingDependency(deps[i])))
    ensures (forall d :: d in deps ==> d != id && d in actions) ==>
      DepsError(actions, id, deps) == if Acyclic(Deps(actions)[id := deps]) then None else Some(DependencyCycle)
  {
    hide Acyclic, AnyReaches;
    var first := FirstIndex(deps, d => d == id || d !in actions);
    assert first < |deps| ==> (deps[first] == id || deps[first] !in actions) && deps[first] in deps;
    if forall d :: d in deps ==> d != id && d in actions {
      ValidationRejectsExactlyCycles(actions, id, deps);
    }
  }

  /** A cascade blocks the doomed actions, names dependencies that failed or were doomed, and takes the work back. */
  lemma CascadingExactly(before: ActionMap, after: ActionMap, now: int, id: ActionId)
    requires Cascaded(before, after, now) && id in before
    ensures id in after
    ensures var a, a' := before[id], after[id];
      if Doomed(before, id) then
        && a'.state == Blocked && Unowned(a') && a'.claimedAt == None && a'.leaseUntil == None && a'.updatedAt == now
        && a'.lastFailureKind == Some(BlockedFailure) && (forall w :: OwnedBy(a, w) ==> a'.lastResponsible == Some(w))
        && a'.lastFailureReason.Some? && a'.lastFailureReason.value.DepFailed? && a'.lastFailureReason.value.deps != []
        && (forall d :: d in a'.lastFailureReason.value.deps ==> d in a.dependsOn)
        && SameCounters(a, a') && SameWork(a, a') && a'.escalated == a.escalated
        && a'.outcomeMemoryId == a.outcomeMemoryId
      else a' == a
  {
    hide Doomed, FailedDep;
  }

  // ---- Dependencies, new actions and old claims ------------------------------------------------------

  /** A dependency is met when it is done, and lost when it is missing, escalated, or finished otherwise. */
  lemma ReadinessExactly(actions: ActionMap, a: Action)
    ensures var lost := (d: ActionId) =>
        d !in actions || (actions[d].state != Done && (actions[d].escalated || actions[d].state !in {Open, Claimed}));
      match ReadinessIn(actions, a)
      case Ready => forall d :: d in a.dependsOn ==> d in actions && actions[d].state == Done
      case Failed(failed) => failed != [] && forall d :: d in failed <==> d in a.dependsOn && lost(d)
      case Waiting(waiting) =>
        && waiting != [] && (forall d :: d in a.dependsOn ==> !lost(d))
        && forall d :: d in waiting <==> d in a.dependsOn && d in actions && actions[d].state in {Open, Claimed}
  {
    ReadinessMeaning(actions, a);
  }

  /**
   * A new action is accepted exactly while fewer than 64 are live and its dependencies exist and close no cycle. It is
   * open, unclaimed and without an outcome, whatever the draft says, under the next identifier.
   */
  lemma EnqueuingExactly(s: State, draft: Action, now: int)
    requires Inv(s)
    ensures var deps := SortDedup(draft.dependsOn);
      EnqueueResult(s, draft, now).Ok? <==>
        |LiveIds(s.actions)| < 64 && (forall d :: d in draft.dependsOn ==> d in s.actions)
        && Acyclic(Deps(s.actions)[s.nextId := deps])
    ensures EnqueueResult(s, draft, now).Ok? ==>
      var a := EnqueueResult(s, draft, now).value;
      && a.id == s.nextId && a.state == Open && a.claimedBy == None && a.claimedAt == None && a.leaseUntil == None
      && a.outcomeMemoryId == None && a.createdAt == now && a.updatedAt == now
      && (forall d :: d in a.dependsOn <==> d in draft.dependsOn)
      && (forall i, j :: 0 <= i < j < |a.dependsOn| ==> a.dependsOn[i] < a.dependsOn[j])
      && a.assignee == draft.assignee && a.priority == draft.priority && SameCounters(a, draft)
      && a.goalId == draft.goalId && a.requiredCapabilities == draft.requiredCapabilities
  {
    hide Acyclic, LiveIds;
    var deps := SortDedup(draft.dependsOn);
    if forall d :: d in deps ==> d in s.actions {
      ValidationRejectsExactlyCycles(s.actions, s.nextId, deps);
    }
  }

  /** A claim expires the moment after its lease is over, and never while it is paused. */
  lemma ExpiringExactly(a: Action, now: int)
    ensures ExpiredClaim(a, now) <==>
      a.state == Claimed && !a.paused && a.leaseUntil.Some? && a.leaseUntil.value < now
  {
  }

  /** A restored claim without a lease gets one that runs from when it was claimed, assigned or last touched. */
  lemma OldClaimsGetALease(a: Action, lease: int)
    ensures WithLease(a, lease) != a <==> a.state == Claimed && a.leaseUntil == None
    ensures WithLease(a, lease) != a ==>
      var a' := WithLease(a, lease);
      && (a.claimedAt.Some? ==> a'.leaseUntil == Some(SatAdd(a.claimedAt.value, lease)))
      && (a.claimedAt.None? && a.assignedAt.Some? ==> a'.leaseUntil == Some(SatAdd(a.assignedAt.value, lease)))
      && (a.claimedAt.None? && a.assignedAt.None? ==> a'.leaseUntil == Some(SatAdd(a.updatedAt, lease)))
      && a' == a.(claimedAt := a'.claimedAt, leaseUntil := a'.leaseUntil)
      && (a.claimedAt.Some? ==> a'.claimedAt == a.claimedAt)
  {
  }

  // ---- Ownership over runs --------------------------------------------------------------------------

  lemma EditKeepsOwner(actions: ActionMap, lease: int, id: ActionId, e: Edit, who: string)
    requires EditAction(actions, lease, id, e).Ok? && !e.Requeue? && !e.RetryTransient?
    ensures id in actions
    ensures actions[id].assignee == Some(who) ==> EditAction(actions, lease, id, e).value.assignee == Some(who)
  {
    hide ReadinessIn;
  }

  /** Once assigned, an action has the same assignee in every later state, until it is reopened or dropped. */
  lemma AssigneeIsImmutable(s: State, lease: int, c: Command, s': State, id: ActionId, who: string)
    requires Inv(s) && Step(s, lease, c, s') && id in s.actions && s.actions[id].assignee == Some(who)
    ensures id in s'.actions && s'.actions[id].assignee != Some(who) ==>
      (c.EditOne? && c.id == id && (c.edit.Requeue? || c.edit.RetryTransient?))
      || (c.Cascade? && s.actions[id].state == Open && s'.actions[id].state == Blocked)
  {
    hide EditAction, Doomed, DepsError, ReadinessIn, Acyclic;
    match c
    case EditOne(k, e) =>
      if k == id && EditAction(s.actions, lease, id, e).Ok? && !e.Requeue? && !e.RetryTransient? {
        EditKeepsOwner(s.actions, lease, id, e, who);
      }
    case Cascade(now) => CascadeKeepsInv(s, s'.actions, now);
    case _ =>
  }

  // ---- Ending without an outcome ------------------------------------------------------------------

  /** A goal that is met cancels exactly its live actions; none of them counts as done or failed. */
  lemma CancellingExactly(actions: ActionMap, goal: nat, now: int, id: ActionId)
    requires id in actions
    ensures id in WithGoalCancelled(actions, goal, now)
    ensures var a, a' := actions[id], WithGoalCancelled(actions, goal, now)[id];
      if a.goalId == Some(goal) && a.state in {Open, Claimed} then
        && a'.state == Cancelled && a'.leaseUntil == None && a'.notBefore == None && a'.claimedAt == None
        && a'.lastFailureReason == Some(GoalMet(goal)) && a'.assignee == a.assignee && a'.claimedBy == a.claimedBy
        && SameCounters(a, a') && SameWork(a, a') && a'.escalated == a.escalated
      else a' == a
  {
  }

  /**
   * Pruning drops exactly the finished actions that were last touched longer ago than the given age and that no live
   * action depends on, and changes none of the others.
   */
  lemma PruningExactly(actions: ActionMap, maxAgeSecs: int, now: int, id: ActionId)
    requires I64_MIN <= now - maxAgeSecs <= I64_MAX && id in actions
    ensures var kept := Pruned(actions, Cutoff(maxAgeSecs, now));
      && (id !in kept <==>
           && actions[id].state !in {Open, Claimed} && now - actions[id].updatedAt > maxAgeSecs
           && forall k :: k in actions && actions[k].state in {Open, Claimed} ==> id !in actions[k].dependsOn)
      && (id in kept ==> kept[id] == actions[id])
  {
  }
}
