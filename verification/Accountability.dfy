/** Failure accounting: retry, requeue or escalate; and the sweep of expired leases. */
module Accountability {
  import opened Prelude
  import opened Graph
  import opened Actions
  import opened Frontier
  import opened FrontierStore
  import opened Dispatch
  import EditLaws

  datatype Disposition = RetryBackoff | Requeued | Escalated

  /** A transient failure counts as a real one once its retries are used up. */
  function EffectiveKind(a: Action, kind: FailureKind): FailureKind {
    if kind.TransientFailure? && a.transientRetries >= MAX_TRANSIENT_RETRIES then BlockedFailure else kind
  }

  /** What accounting does with a failure, judged by the action as it is. */
  function DispositionOf(a: Action, kind: FailureKind): Disposition {
    if EffectiveKind(a, kind).TransientFailure? then RetryBackoff
    else if a.requeueCount < MAX_REQUEUES then Requeued
    else Escalated
  }

  /** The edit that carries out a disposition. */
  function EditFor(d: Disposition, reason: string, now: int): Edit {
    match d
    case RetryBackoff => Edit.RetryTransient(reason, now)
    case Requeued => Edit.Requeue(reason, 1, now)
    case Escalated => Edit.Escalate(reason, now)
  }

  /** The actions after the edit and the note of the failure kind, before any cascade. */
  function AfterEdit(actions: ActionMap, lease: int, id: ActionId, kind: FailureKind, reason: string,
                     now: int): Result<ActionMap>
    requires id in actions
  {
    var a := actions[id];
    var d := DispositionOf(a, kind);
    match EditAction(actions, lease, id, EditFor(d, reason, now))
    case Err(e) => Err(e)
    case Ok(a') =>
      Ok(actions[id := if d.RetryBackoff? then a' else a'.(lastFailureKind := Some(EffectiveKind(a, kind)))])
  }

  /** Accounting one failure takes the actions from `before` to `after` with result `r`. */
  ghost predicate Accounted(before: ActionMap, after: ActionMap, lease: int, id: ActionId, kind: FailureKind,
                            reason: string,
                            now: int, r: Result<Disposition>)
  {
    if id !in before then r == Err(NotFound) && after == before
    else
      var d := DispositionOf(before[id], kind);
      match AfterEdit(before, lease, id, kind, reason, now)
      case Err(e) => r == Err(e) && after == before
      case Ok(mid) => r == Ok(d) && if d.Escalated? then Cascaded(mid, after, now) else after == mid
  }

  /** The registry after a failure of `a`: the worker to blame, if there is one, is barred for a minute. */
  function Blamed(workers: WorkerMap, a: Action, kind: FailureKind, now: int): WorkerMap {
    var effective := EffectiveKind(a, kind);
    if effective.BlamesWorker() && a.Owner().Some? && a.Owner().value in workers then
      var w := a.Owner().value;
      workers[w := workers[w].(blacklistedUntil := Some(SatAdd(now, DEFAULT_BLACKLIST_SECS)))]
    else workers
  }

  method AccountFailureKind(registry: WorkerRegistry, frontier: ActionFrontier, id: ActionId, kind0: FailureKind,
                            reason: string, now: int)
    returns (r: Result<Disposition>)
    requires registry.Valid() && frontier.Valid()
    modifies registry, frontier`actions
    ensures registry.Valid() && frontier.Valid()
    ensures Accounted(old(frontier.actions), frontier.actions, frontier.leaseSecs, id, kind0, reason, now, r)
    ensures registry.workers == if id in old(frontier.actions)
      then Blamed(old(registry.workers), old(frontier.actions)[id], kind0, now) else old(registry.workers)
  {
    hide EditAction, Inv, Cascaded;
    if id !in frontier.actions {
      return Err(NotFound);
    }
    var action := frontier.actions[id];
    var kind := kind0;
    if kind == TransientFailure {
      if action.transientRetries < MAX_TRANSIENT_RETRIES {
        var retried := frontier.RetryTransient(id, reason, now);
        if retried.Err? {
          return Err(retried.error);
        }
        return Ok(RetryBackoff);
      }
      kind := BlockedFailure;
    }
    var responsible := if action.assignee.Some? then action.assignee else action.claimedBy;
    if kind.BlamesWorker() && responsible.Some? {
      registry.Blacklist(responsible.value, DEFAULT_BLACKLIST_SECS, now);
    }
    var edited;
    if action.requeueCount < MAX_REQUEUES {
      edited := frontier.Requeue(id, reason, 1, now);
      r := Ok(Requeued);
    } else {
      edited := frontier.Escalate(id, reason, now);
      r := Ok(Escalated);
    }
    if edited.Err? {
      return Err(edited.error);
    }
    frontier.SetFailureKind(id, kind);
    KindIsNoted(old(frontier.actions), frontier.leaseSecs, id, edited.value, kind);
    if r.value == Escalated {
      var _ := frontier.CascadeDepFailures(now);
    }
  }

  lemma KindIsNoted(actions: ActionMap, lease: int, id: ActionId, a': Action, kind: FailureKind)
    ensures var edited := actions[id := a'];
      Applied(edited, id, EditAction(edited, lease, id, Edit.SetFailureKind(kind)))
        == actions[id := a'.(lastFailureKind := Some(kind))]
  {
  }

  // ---- What accounting leaves alone ---------------------------------------------------------

  lemma AfterEditKeepsInv(s: State, lease: int, id: ActionId, kind: FailureKind, reason: string, now: int)
    requires Inv(s) && id in s.actions && AfterEdit(s.actions, lease, id, kind, reason, now).Ok?
    ensures Inv(s.(actions := AfterEdit(s.actions, lease, id, kind, reason, now).value))
  {
    hide EditAction, Inv;
    var d := DispositionOf(s.actions[id], kind);
    var e := EditFor(d, reason, now);
    var a' := EditAction(s.actions, lease, id, e).value;
    EditKeepsInv(s, lease, id, e);
    if !d.RetryBackoff? {
      var s1 := s.(actions := s.actions[id := a']);
      KindIsNoted(s.actions, lease, id, a', EffectiveKind(s.actions[id], kind));
      EditKeepsInv(s1, lease, id, Edit.SetFailureKind(EffectiveKind(s.actions[id], kind)));
    }
  }

  /** An action whose dependencies are all done is never blocked by a cascade. */
  lemma DepsDoneIsNotDoomed(actions: ActionMap, id: ActionId)
    requires id in actions && DepsDone(actions, actions[id])
    ensures !Doomed(actions, id)
  {
    forall p | |p| > 1 && p[0] == id
      ensures !FailingChain(actions, p)
    {
      if Edge(Deps(actions), p[0], p[0 + 1]) {
        assert p[1] in actions && actions[p[1]].state == Done;
      }
    }
  }

  /** Accounting touches the failed action; beyond it, only open actions with a dependency that is not done. */
  lemma AccountingIsLocal(s: State, after: ActionMap, lease: int, id: ActionId, kind: FailureKind, reason: string,
                          now: int,
                          r: Result<Disposition>, other: ActionId)
    requires Inv(s) && Accounted(s.actions, after, lease, id, kind, reason, now, r)
    requires other in s.actions && other != id
    requires s.actions[other].state != Open
      || (DepsDone(s.actions, s.actions[other]) && id !in s.actions[other].dependsOn)
    ensures other in after && after[other] == s.actions[other]
  {
    hide EditAction, Inv, Doomed, DepsDone;
    if id in s.actions {
      var step := AfterEdit(s.actions, lease, id, kind, reason, now);
      if step.Ok? {
        assert step.value[other] == s.actions[other];
        if DispositionOf(s.actions[id], kind).Escalated? {
          AfterEditKeepsInv(s, lease, id, kind, reason, now);
          var mid := s.(actions := step.value);
          if s.actions[other].state != Open {
            CascadeKeepsInv(mid, after, now);
          } else {
            OtherDepsStayDone(s.actions, step.value, id, other);
            DepsDoneIsNotDoomed(step.value, other);
          }
        }
      }
    }
  }

  lemma OtherDepsStayDone(actions: ActionMap, actions': ActionMap, id: ActionId, other: ActionId)
    requires other in actions && DepsDone(actions, actions[other]) && id !in actions[other].dependsOn
    requires id in actions && other != id && id in actions' && actions' == actions[id := actions'[id]]
    ensures other in actions' && DepsDone(actions', actions'[other])
  {
  }

  /** States in which a failure is accounted: by a sweep while claimed, by a report after it was completed as failed. */
  predicate Accountable(a: Action) {
    a.state in {Claimed, Blocked, Exhausted}
  }

  /** What becomes of an action whose failure is accounted. */
  ghost predicate Settled(before: Action, after: Action, kind: FailureKind) {
    match DispositionOf(before, kind)
    case RetryBackoff =>
      after.state == Open && after.transientRetries == before.transientRetries + 1
      && after.requeueCount == before.requeueCount
    case Requeued =>
      after.state == Open && after.requeueCount == before.requeueCount + 1
      && after.transientRetries == before.transientRetries
    case Escalated => after.state == (if before.state == Exhausted then Exhausted else Blocked) && after.escalated
  }

  /**
   * A failed action is retried, requeued or escalated, by its budget; an exhausted one stays exhausted when
   * escalated.
   */
  lemma FailureIsSettled(s: State, after: ActionMap, lease: int, id: ActionId, kind: FailureKind, reason: string,
                         now: int,
                                r: Result<Disposition>)
    requires Inv(s) && Accounted(s.actions, after, lease, id, kind, reason, now, r)
    requires id in s.actions && Accountable(s.actions[id])
    ensures r == Ok(DispositionOf(s.actions[id], kind))
    ensures id in after && Settled(s.actions[id], after[id], kind) && after[id].dependsOn == s.actions[id].dependsOn
  {
    hide Doomed, Acyclic, ReadinessIn;
    var d := DispositionOf(s.actions[id], kind);
    assert EditAction(s.actions, lease, id, EditFor(d, reason, now)).Ok?;
    var mid := AfterEdit(s.actions, lease, id, kind, reason, now).value;
    assert Settled(s.actions[id], mid[id], kind);
    if d.Escalated? {
      AfterEditKeepsInv(s, lease, id, kind, reason, now);
      CascadeKeepsInv(s.(actions := mid), after, now);
    }
  }

  /** Whether the failure is retried without counting against the requeue budget. */
  predicate IsRetried(a: Action, kind: FailureKind) {
    kind == TransientFailure && a.transientRetries < MAX_TRANSIENT_RETRIES
  }

  /** Which disposition a failure gets, by its kind and the two counters alone. */
  predicate IsDue(d: Disposition, a: Action, kind: FailureKind) {
    && (d == RetryBackoff <==> kind == TransientFailure && a.transientRetries < MAX_TRANSIENT_RETRIES)
    && (d == Requeued <==> !IsRetried(a, kind) && a.requeueCount < MAX_REQUEUES)
    && (d == Escalated <==> !IsRetried(a, kind) && a.requeueCount >= MAX_REQUEUES)
  }

  /** What becomes of the action: reopened at nobody's cost after a backoff, reopened and counted, or escalated. */
  predicate IsOutcome(d: Disposition, a: Action, a': Action, kind: FailureKind, reason: string, now: int) {
    && a'.lastFailureReason == Some(Text(reason))
    && match d
       case RetryBackoff =>
         && a'.state == Open && a'.assignee == None && a'.claimedBy == None && a'.leaseUntil == None
         && a'.notBefore == Some(SatAdd(now, TransientBackoffSecs(a.transientRetries + 1)))
         && a'.requeueCount == a.requeueCount && a'.transientRetries == a.transientRetries + 1
         && a'.priority == a.priority && a'.escalated == a.escalated
         && a'.lastFailureKind == Some(TransientFailure)
       case Requeued =>
         && a'.state == Open && a'.assignee == None && a'.claimedBy == None && a'.leaseUntil == None
         && a'.notBefore == a.notBefore
         && a'.requeueCount == a.requeueCount + 1 && a'.transientRetries == a.transientRetries
         && !a'.escalated && (a.priority <= 10 ==> a'.priority == if a.priority < 10 then a.priority + 1 else 10)
         && a'.lastFailureKind == Some(if kind == TransientFailure then BlockedFailure else kind)
       case Escalated =>
         && a'.escalated && a'.state == (if a.state == Claimed then Blocked else a.state)
         && a'.requeueCount == a.requeueCount && a'.transientRetries == a.transientRetries
         && a'.assignee == a.assignee && a'.claimedBy == a.claimedBy
         && a'.lastFailureKind == Some(if kind == TransientFailure then BlockedFailure else kind)
  }

  /**
   * What accounting a failure does. A transient failure is retried after a backoff until its retries are used up; any
   * other one, or a transient one after that, is requeued until the requeues are used up, and then escalated.
   */
  lemma AccountingExactly(s: State, after: ActionMap, lease: int, id: ActionId, kind: FailureKind, reason: string,
                          now: int, r: Result<Disposition>)
    requires Inv(s) && Accounted(s.actions, after, lease, id, kind, reason, now, r)
    requires id in s.actions && s.actions[id].state in {Claimed, Blocked, Exhausted}
    ensures r.Ok? && IsDue(r.value, s.actions[id], kind)
    ensures id in after && IsOutcome(r.value, s.actions[id], after[id], kind, reason, now)
  {
    hide Inv, Doomed, BlockedForCause, AfterEdit, IsOutcome;
    EditedExactly(s.actions, lease, id, kind, reason, now);
    if DispositionOf(s.actions[id], kind).Escalated? {
      var mid := AfterEdit(s.actions, lease, id, kind, reason, now).value;
      AfterEditKeepsInv(s, lease, id, kind, reason, now);
      CascadeKeepsInv(s.(actions := mid), after, now);
      assert after[id] == mid[id] by { EscalatedIsNotOpen(s.actions[id], mid[id], kind, reason, now); }
    }
  }

  lemma EscalatedIsNotOpen(a: Action, a': Action, kind: FailureKind, reason: string, now: int)
    requires a.state in {Claimed, Blocked, Exhausted} && IsOutcome(Escalated, a, a', kind, reason, now)
    ensures a'.state != Open
  {
  }

  lemma EditedExactly(actions: ActionMap, lease: int, id: ActionId, kind: FailureKind, reason: string, now: int)
    requires id in actions && actions[id].state in {Claimed, Blocked, Exhausted}
    ensures var d, r := DispositionOf(actions[id], kind), AfterEdit(actions, lease, id, kind, reason, now);
      IsDue(d, actions[id], kind) && r.Ok? && id in r.value && IsOutcome(d, actions[id], r.value[id], kind, reason, now)
  {
    hide ReadinessIn, TransientBackoffSecs;
  }

  /**
   * Exactly the owner of an action that failed as blocked or with its lease expired, or transiently once too often, is
   * barred, for a minute from now; a transient failure that is retried and an exhausted one are nobody's fault.
   */
  lemma BlamingExactly(workers: WorkerMap, a: Action, kind: FailureKind, now: int, w: string)
    requires w in workers
    ensures Blamed(workers, a, kind, now).Keys == workers.Keys
    ensures var owns := EditLaws.OwnedBy(a, w);
      var atFault := kind in {BlockedFailure, LeaseExpiredFailure}
        || (kind == TransientFailure && a.transientRetries >= MAX_TRANSIENT_RETRIES);
      Blamed(workers, a, kind, now)[w] ==
        if owns && atFault then workers[w].(blacklistedUntil := Some(SatAdd(now, 60))) else workers[w]
  {
  }

  // ---- Sweeping expired leases ------------------------------------------------------------------

  /** An expired claim after the sweep. */
  predicate IsSwept(a: Action, a': Action, now: int) {
    var d := DispositionOf(a, LeaseExpiredFailure);
    IsDue(d, a, LeaseExpiredFailure) && IsOutcome(d, a, a', LeaseExpiredFailure, LEASE_EXPIRED_REASON, now)
  }

  /** How far the sweep has come: which expired claims are settled, and that everything else is untouched. */
  ghost predicate Swept(before: ActionMap, cur: ActionMap, now: int, finished: set<ActionId>) {
    forall id :: id in before && before[id].state == Claimed ==>
      && id in cur
      && (if id in finished then
            && Settled(before[id], cur[id], LeaseExpiredFailure) && IsSwept(before[id], cur[id], now)
            && DepsDone(cur, cur[id])
          else cur[id] == before[id])
  }

  /** Exactly the owners of these actions are barred, for a minute. */
  ghost predicate Barred(workers0: WorkerMap, workers: WorkerMap, actions: ActionMap, ids: set<ActionId>, now: int) {
    && workers.Keys == workers0.Keys
    && forall w :: w in workers0 ==>
       workers[w]
       == if OwnsOne(actions, ids, w) then workers0[w].(blacklistedUntil := Some(SatAdd(now, 60))) else workers0[w]
  }

  ghost predicate OwnsOne(actions: ActionMap, ids: set<ActionId>, w: string) {
    exists id :: id in ids && id in actions && EditLaws.OwnedBy(actions[id], w)
  }

  lemma NobodyBarred(workers: WorkerMap, actions: ActionMap, now: int)
    ensures Barred(workers, workers, actions, {}, now)
  {
  }

  lemma BarredOneMore(workers0: WorkerMap, workers: WorkerMap, actions: ActionMap, ids: set<ActionId>, id: ActionId,
                      now: int)
    requires Barred(workers0, workers, actions, ids, now) && id in actions
    ensures Barred(workers0, Blamed(workers, actions[id], LeaseExpiredFailure, now), actions, ids + {id}, now)
  {
    hide Blamed, OwnsOne, EditLaws.OwnedBy;
    BlamingKeepsKeys(workers, actions[id], LeaseExpiredFailure, now);
    var after := Blamed(workers, actions[id], LeaseExpiredFailure, now);
    forall w | w in workers0
      ensures after[w]
        == if OwnsOne(actions, ids + {id}, w) then workers0[w].(blacklistedUntil := Some(SatAdd(now, 60)))
           else workers0[w]
    {
      BlamingExactly(workers, actions[id], LeaseExpiredFailure, now, w);
      OwnsOneMore(actions, ids, id, w);
    }
  }

  lemma BlamingKeepsKeys(workers: WorkerMap, a: Action, kind: FailureKind, now: int)
    ensures Blamed(workers, a, kind, now).Keys == workers.Keys
  {
  }

  lemma OwnsOneMore(actions: ActionMap, ids: set<ActionId>, id: ActionId, w: string)
    requires id in actions
    ensures OwnsOne(actions, ids + {id}, w) <==> OwnsOne(actions, ids, w) || EditLaws.OwnedBy(actions[id], w)
  {
    if OwnsOne(actions, ids, w) {
      var k :| k in ids && k in actions && EditLaws.OwnedBy(actions[k], w);
      assert k in ids + {id};
    }
  }

  /**
   * Every claim whose lease has expired is requeued, or escalated once its budget is spent, in increasing order, and
   * exactly the owners of these claims are barred; no other claim changes, even when an escalation cascades to
   * dependents.
   */
  method SweepExpiredLeases(registry: WorkerRegistry, frontier: ActionFrontier, t0: int, now: int)
    returns (swept: seq<(ActionId, Disposition)>)
    requires registry.Valid() && frontier.Valid()
    modifies registry, frontier`actions
    ensures registry.Valid() && frontier.Valid()
    ensures forall id, d :: (id, d) in swept <==>
      id in old(frontier.actions) && ExpiredClaim(old(frontier.actions)[id], t0)
      && d == DispositionOf(old(frontier.actions)[id], LeaseExpiredFailure)
    ensures forall id :: id in old(frontier.actions) && ExpiredClaim(old(frontier.actions)[id], t0) ==>
      && id in frontier.actions && Settled(old(frontier.actions)[id], frontier.actions[id], LeaseExpiredFailure)
      && IsSwept(old(frontier.actions)[id], frontier.actions[id], now)
    ensures forall i, j :: 0 <= i < j < |swept| ==> swept[i].0 < swept[j].0
    ensures var expired := set id | id in old(frontier.actions) && ExpiredClaim(old(frontier.actions)[id], t0);
      Barred(old(registry.workers), registry.workers, old(frontier.actions), expired, now)
    ensures forall id ::
      id in old(frontier.actions) && old(frontier.actions)[id].state == Claimed
      && !ExpiredClaim(old(frontier.actions)[id], t0) ==>
      id in frontier.actions && frontier.actions[id] == old(frontier.actions)[id]
    ensures forall id :: id in frontier.actions && frontier.actions[id].state == Claimed ==>
      id in old(frontier.actions) && frontier.actions[id] == old(frontier.actions)[id]
      && !ExpiredClaim(frontier.actions[id], t0)
  {
    hide Inv, Accounted, Settled, DispositionOf, DepsDone, IsSwept, Barred, Blamed;
    ghost var before, workers0 := frontier.actions, registry.workers;
    NobodyBarred(workers0, before, now);
    var expired := frontier.ExpiredClaims(t0);
    swept := [];
    var i := 0;
    assert Swept(before, before, now, {});
    assert Elems(expired[..0]) == {};
    while i < |expired|
      invariant 0 <= i <= |expired|
      invariant registry.Valid() && frontier.Valid()
      invariant Swept(before, frontier.actions, now, Elems(expired[..i]))
      invariant Barred(workers0, registry.workers, before, Elems(expired[..i]), now)
      invariant |swept| == i && forall k :: 0 <= k < i ==> swept[k].0 == expired[k]
      invariant forall id :: id in frontier.actions && frontier.actions[id].state == Claimed ==>
        id in before && frontier.actions[id] == before[id]
      invariant forall id, d ::
        (id, d) in swept <==> id in expired[..i] && id in before && d == DispositionOf(before[id], LeaseExpiredFailure)
    {
      var id := expired[i];
      assert id in expired && id !in expired[..i];
      ghost var s, workers := frontier.View(), registry.workers;
      var r := AccountFailureKind(registry, frontier, id, LeaseExpiredFailure, LEASE_EXPIRED_REASON, now);
      SweepOneMore(before, s, frontier.actions, frontier.leaseSecs, Elems(expired[..i]), id, now, r);
      BarredOneMore(workers0, workers, before, Elems(expired[..i]), id, now);
      assert Elems(expired[..i + 1]) == Elems(expired[..i]) + {id};
      if r.Ok? {
        swept := swept + [(id, r.value)];
      }
      assert forall x :: x in expired[..i + 1] <==> x in expired[..i] || x == id;
      i := i + 1;
    }
    assert expired[..i] == expired;
    assert Elems(expired) == set id | id in before && ExpiredClaim(before[id], t0);
    SettledIsNotClaimed();
  }

  lemma SettledIsNotClaimed()
    ensures forall a, b, k :: Settled(a, b, k) ==> b.state != Claimed
  {
  }

  lemma SweepOneMore(before: ActionMap, s: State, after: ActionMap, lease: int, finished: set<ActionId>,
                     id: ActionId, now: int,
                     r: Result<Disposition>)
    requires Inv(s) && Swept(before, s.actions, now, finished) && id !in finished
    requires id in before && before[id].state == Claimed
    requires Accounted(s.actions, after, lease, id, LeaseExpiredFailure, LEASE_EXPIRED_REASON, now, r)
    requires forall k :: k in s.actions && s.actions[k].state == Claimed ==> k in before && s.actions[k] == before[k]
    ensures Swept(before, after, now, finished + {id})
    ensures r == Ok(DispositionOf(before[id], LeaseExpiredFailure))
    ensures forall k :: k in after && after[k].state == Claimed ==> k in before && after[k] == before[k]
  {
    hide Accounted, Settled, Inv, DispositionOf, DepsDone, IsSwept;
    SweptExactly(s, after, lease, id, now, r);
    FailureIsSettled(s, after, lease, id, LeaseExpiredFailure, LEASE_EXPIRED_REASON, now, r);
    AccountedKeys(s, after, lease, id, LeaseExpiredFailure, LEASE_EXPIRED_REASON, now, r);
    DoneStaysDone(s, after, lease, id, LeaseExpiredFailure, LEASE_EXPIRED_REASON, now, r);
    forall k | k in before && before[k].state == Claimed && k != id
      ensures after[k] == s.actions[k]
    {
      if s.actions[k].state == Open {
        ClaimedIsNotADoneDep(s, id, k);
      }
      AccountingIsLocal(s, after, lease, id, LeaseExpiredFailure, LEASE_EXPIRED_REASON, now, r, k);
    }
    assert DepsDone(s.actions, s.actions[id]) by { ClaimedDepsDone(s, id); }
    forall k | k in before && before[k].state == Claimed && (k in finished || k == id)
      ensures DepsDone(after, after[k])
    {
      KeepDepsDone(s.actions, after, s.actions[k], after[k]);
    }
    forall k | k in after && after[k].state == Claimed
      ensures k in before && after[k] == before[k]
    {
      SettledIsNotClaimed();
    }
  }

  lemma SweptExactly(s: State, after: ActionMap, lease: int, id: ActionId, now: int, r: Result<Disposition>)
    requires Inv(s) && id in s.actions && s.actions[id].state == Claimed
    requires Accounted(s.actions, after, lease, id, LeaseExpiredFailure, LEASE_EXPIRED_REASON, now, r)
    ensures id in after && IsSwept(s.actions[id], after[id], now)
  {
    hide Accounted, Inv, DispositionOf, IsOutcome, IsDue;
    AccountingExactly(s, after, lease, id, LeaseExpiredFailure, LEASE_EXPIRED_REASON, now, r);
    FailureIsSettled(s, after, lease, id, LeaseExpiredFailure, LEASE_EXPIRED_REASON, now, r);
  }

  lemma ClaimedDepsDone(s: State, id: ActionId)
    requires Inv(s) && id in s.actions && s.actions[id].state == Claimed
    ensures DepsDone(s.actions, s.actions[id])
  {
  }

  lemma ClaimedIsNotADoneDep(s: State, id: ActionId, k: ActionId)
    requires id in s.actions && s.actions[id].state == Claimed && k in s.actions && DepsDone(s.actions, s.actions[k])
    ensures id !in s.actions[k].dependsOn
  {
  }

  lemma KeepDepsDone(actions: ActionMap, after: ActionMap, a: Action, a': Action)
    requires DepsDone(actions, a) && a'.dependsOn == a.dependsOn
    requires forall d :: d in actions && actions[d].state == Done ==> d in after && after[d].state == Done
    ensures DepsDone(after, a')
  {
  }

  /** Accounting adds and removes nothing, claims nothing, and changes no dependency list. */
  lemma AccountedKeys(s: State, after: ActionMap, lease: int, id: ActionId, kind: FailureKind, reason: string,
                      now: int, r: Result<Disposition>)
    requires Inv(s) && Accounted(s.actions, after, lease, id, kind, reason, now, r)
    ensures after.Keys == s.actions.Keys
    ensures forall k :: k in after && after[k].state == Claimed ==> after[k] == s.actions[k]
    ensures forall k :: k in after ==> after[k].dependsOn == s.actions[k].dependsOn
  {
    hide Doomed, Inv, EditAction, AfterEdit, DispositionOf;
    if id in s.actions {
      var step := AfterEdit(s.actions, lease, id, kind, reason, now);
      if step.Ok? {
        AfterEditFacts(s.actions, lease, id, kind, reason, now);
        if DispositionOf(s.actions[id], kind).Escalated? {
          CascadeOnlyBlocks(step.value, after, now);
        }
      }
    }
  }

  lemma AfterEditFacts(actions: ActionMap, lease: int, id: ActionId, kind: FailureKind, reason: string, now: int)
    requires id in actions && AfterEdit(actions, lease, id, kind, reason, now).Ok?
    ensures var mid := AfterEdit(actions, lease, id, kind, reason, now).value;
      && id in mid && mid == actions[id := mid[id]]
      && mid[id].state != Claimed && mid[id].dependsOn == actions[id].dependsOn
  {
  }

  lemma CascadeOnlyBlocks(before: ActionMap, after: ActionMap, now: int)
    requires Cascaded(before, after, now)
    ensures after.Keys == before.Keys
    ensures forall k :: k in after ==>
      (after[k] == before[k] || after[k].state == Blocked) && after[k].dependsOn == before[k].dependsOn
  {
    hide Doomed;
  }

  lemma DoneStaysDone(s: State, after: ActionMap, lease: int, id: ActionId, kind: FailureKind, reason: string,
                      now: int, r: Result<Disposition>)
    requires Inv(s) && Accounted(s.actions, after, lease, id, kind, reason, now, r)
    ensures forall k :: k in s.actions && s.actions[k].state == Done ==> k in after && after[k].state == Done
  {
    hide Inv, Cascaded, EditAction, AfterEdit, DispositionOf;
    if id in s.actions {
      var step := AfterEdit(s.actions, lease, id, kind, reason, now);
      if step.Ok? {
        DoneIsNotReopened(s.actions, lease, id, kind, reason, now);
        if DispositionOf(s.actions[id], kind).Escalated? {
          AfterEditKeepsInv(s, lease, id, kind, reason, now);
          CascadeKeepsInv(s.(actions := step.value), after, now);
          CascadeOnlyBlocks(step.value, after, now);
        }
      }
    }
  }

  lemma DoneIsNotReopened(actions: ActionMap, lease: int, id: ActionId, kind: FailureKind, reason: string, now: int)
    requires id in actions && AfterEdit(actions, lease, id, kind, reason, now).Ok?
    ensures var mid := AfterEdit(actions, lease, id, kind, reason, now).value;
      forall k :: k in actions && actions[k].state == Done ==> k in mid && mid[k].state == Done
  {
    hide ReadinessIn;
  }

  // ---- The retry budget ---------------------------------------------------------------------------

  datatype DispatchCommand =
    | Do(command: Command)
    | Account(id: ActionId, kind: FailureKind, reason: string, now: int)

  /** A command of the dispatcher: failures go through accounting, never directly to requeue or retry. */
  ghost predicate DispatchStep(s: State, lease: int, c: DispatchCommand, s': State) {
    match c
    case Do(command) =>
      Step(s, lease, command, s') && (command.EditOne? ==> !command.edit.Requeue? && !command.edit.RetryTransient?)
    case Account(id, kind, reason, now) =>
      s'.nextId == s.nextId && exists r :: Accounted(s.actions, s'.actions, lease, id, kind, reason, now, r)
  }

  ghost predicate IsDispatchRun(states: seq<State>, lease: int, commands: seq<DispatchCommand>) {
    && |states| == |commands| + 1 && Inv(states[0])
    && forall i :: 0 <= i < |commands| ==> DispatchStep(states[i], lease, commands[i], states[i + 1])
  }

  /** The command puts action `id` back to open. */
  predicate Reopens(s: State, lease: int, c: DispatchCommand, id: ActionId) {
    && c.Account? && c.id == id && id in s.actions
    && AfterEdit(s.actions, lease, id, c.kind, c.reason, c.now).Ok?
    && !DispositionOf(s.actions[id], c.kind).Escalated?
  }

  function Reopenings(states: seq<State>, lease: int, commands: seq<DispatchCommand>, id: ActionId): nat
    requires |states| == |commands| + 1
  {
    if commands == [] then 0
    else
      var n := |commands| - 1;
      Reopenings(states[..n + 1], lease, commands[..n], id)
      + if Reopens(states[n], lease, commands[n], id) then 1 else 0
  }

  function Left(limit: nat, used: nat): nat {
    if used < limit then limit - used else 0
  }

  /** How often an action can still be reopened. */
  function Budget(s: State, id: ActionId): nat {
    if id !in s.actions then 0
    else Left(MAX_REQUEUES, s.actions[id].requeueCount) + Left(MAX_TRANSIENT_RETRIES, s.actions[id].transientRetries)
  }

  /** The counters never fall, and a reopening uses up one unit of the budget. */
  lemma StepUsesBudget(s: State, lease: int, c: DispatchCommand, s': State, id: ActionId)
    requires Inv(s) && DispatchStep(s, lease, c, s') && id < s.nextId
    ensures Inv(s') && id < s'.nextId
    ensures Budget(s', id) + (if Reopens(s, lease, c, id) then 1 else 0) <= Budget(s, id)
  {
    hide Inv, Accounted, EditAction, Cascaded;
    match c
    case Do(command) =>
      StepKeepsInv(s, lease, command, s');
      CommandKeepsCounters(s, lease, command, s', id);
    case Account(k, kind, reason, now) =>
      var r :| Accounted(s.actions, s'.actions, lease, k, kind, reason, now, r);
      AccountKeepsInv(s, s'.actions, lease, k, kind, reason, now, r);
      assert s' == s.(actions := s'.actions);
      AccountCounters(s, s'.actions, lease, k, kind, reason, now, r, id);
  }

  lemma CommandKeepsCounters(s: State, lease: int, c: Command, s': State, id: ActionId)
    requires Inv(s) && Step(s, lease, c, s') && id < s.nextId
    ensures id < s'.nextId && (id in s'.actions ==> id in s.actions)
    ensures id in s'.actions ==>
      s'.actions[id].requeueCount >= s.actions[id].requeueCount
      && s'.actions[id].transientRetries >= s.actions[id].transientRetries
  {
    hide EditAction, Acyclic, DepsError, Doomed;
    match c
    case EditOne(k, e) =>
      if EditAction(s.actions, lease, k, e).Ok? {
        EditFacts(s.actions, lease, k, e);
      }
    case _ =>
  }

  lemma AccountKeepsInv(s: State, after: ActionMap, lease: int, id: ActionId, kind: FailureKind, reason: string,
                        now: int, r: Result<Disposition>)
    requires Inv(s) && Accounted(s.actions, after, lease, id, kind, reason, now, r)
    ensures Inv(s.(actions := after))
  {
    hide Inv, EditAction, Cascaded;
    if id in s.actions {
      var step := AfterEdit(s.actions, lease, id, kind, reason, now);
      if step.Ok? {
        AfterEditKeepsInv(s, lease, id, kind, reason, now);
        if DispositionOf(s.actions[id], kind).Escalated? {
          CascadeKeepsInv(s.(actions := step.value), after, now);
        }
      }
    }
  }

  lemma AccountCounters(s: State, after: ActionMap, lease: int, k: ActionId, kind: FailureKind, reason: string,
                        now: int,
                        r: Result<Disposition>, id: ActionId)
    requires Inv(s) && Accounted(s.actions, after, lease, k, kind, reason, now, r)
    ensures Budget(s.(actions := after), id) + (if Reopens(s, lease, Account(k, kind, reason, now), id) then 1 else 0)
      <= Budget(s, id)
  {
    hide Acyclic, Doomed, ReadinessIn;
    if k in s.actions {
      var step := AfterEdit(s.actions, lease, k, kind, reason, now);
      if step.Ok? {
        var d := DispositionOf(s.actions[k], kind);
        var a' := step.value[k];
        assert match d
          case RetryBackoff =>
            a'.requeueCount == s.actions[k].requeueCount && a'.transientRetries == s.actions[k].transientRetries + 1
          case Requeued =>
            a'.requeueCount == s.actions[k].requeueCount + 1 && a'.transientRetries == s.actions[k].transientRetries
          case Escalated =>
            a'.requeueCount == s.actions[k].requeueCount && a'.transientRetries == s.actions[k].transientRetries;
        if d.Escalated? && id in step.value {
          CountersSurviveCascade(step.value, after, now, id);
        }
      }
    }
  }

  lemma CountersSurviveCascade(mid: ActionMap, after: ActionMap, now: int, id: ActionId)
    requires Cascaded(mid, after, now) && id in mid
    ensures id in after && after[id].requeueCount == mid[id].requeueCount
    ensures after[id].transientRetries == mid[id].transientRetries
  {
  }

  /**
   * Over any run of the dispatcher, an action is reopened at most as often as its budget allows: never more than
   * MAX_REQUEUES + MAX_TRANSIENT_RETRIES times.
   */
  lemma {:induction false} ReopeningsAreBounded(states: seq<State>, lease: int, commands: seq<DispatchCommand>,
                                                id: ActionId)
    requires IsDispatchRun(states, lease, commands) && id < states[0].nextId
    ensures Inv(states[|commands|]) && id < states[|commands|].nextId
    ensures Reopenings(states, lease, commands, id) + Budget(states[|commands|], id) <= Budget(states[0], id)
    ensures Reopenings(states, lease, commands, id) <= MAX_REQUEUES + MAX_TRANSIENT_RETRIES
    decreases |commands|
  {
    hide Inv, DispatchStep, Reopens;
    if commands != [] {
      var n := |commands| - 1;
      var states', commands' := states[..n + 1], commands[..n];
      assert forall i :: 0 <= i < n ==> DispatchStep(states[i], lease, commands[i], states[i + 1]);
      assert IsDispatchRun(states', lease, commands') by {
        forall i | 0 <= i < |commands'|
          ensures DispatchStep(states'[i], lease, commands'[i], states'[i + 1])
        {
          assert DispatchStep(states[i], lease, commands[i], states[i + 1]);
        }
      }
      ReopeningsAreBounded(states', lease, commands', id);
      assert DispatchStep(states[n], lease, commands[n], states[n + 1]);
      StepUsesBudget(states[n], lease, commands[n], states[n + 1], id);
    }
  }

  /**
   * With the budget spent, a failure of whatever kind leaves the action escalated and blocked, or exhausted as
   * reported.
   */
  lemma SpentBudgetEscalates(s: State, after: ActionMap, lease: int, id: ActionId, kind: FailureKind, reason: string,
                             now: int,
                             r: Result<Disposition>)
    requires Inv(s) && id in s.actions && Accountable(s.actions[id]) && Budget(s, id) == 0
    requires Accounted(s.actions, after, lease, id, kind, reason, now, r)
    ensures r == Ok(Escalated) && id in after && after[id].escalated
    ensures after[id].state == if s.actions[id].state == Exhausted then Exhausted else Blocked
  {
    hide Accounted, Inv;
    FailureIsSettled(s, after, lease, id, kind, reason, now, r);
  }
}
