/**
 * Concrete runs, from the empty frontier, in which clients that run at the same time get past a promise of the
 * frontier.
 */
module Schedules {
  import opened Prelude
  import opened Actions
  import opened Frontier
  import opened FrontierStore
  import opened Accountability
  import opened AccountingSteps
  import opened Sweeps
  import opened Dispatch
  import opened FrontierLimits
  import opened Batches

  const LEASE: int := DEFAULT_LEASE_SECS

  function Draft(): Action {
    Action(0, 5, Open, None, None, None, None, None, 0, [], false, [], 0, None, [], 0, None, None, None, None, false,
           None, 0, 0)
  }

  /** The only action, after it was enqueued. */
  function First(): Action {
    Draft().(id := 1)
  }

  /** A frontier with this one action. */
  function Solo(a: Action, calls: map<CallId, Phase>): System {
    System(State(map[1 := a], 2), calls)
  }

  function Edited(a: Action, e: Edit): Action {
    var r := EditAction(map[1 := a], LEASE, 1, e);
    if r.Ok? then r.value else a
  }

  predicate Possible(a: Action, e: Edit) {
    EditAction(map[1 := a], LEASE, 1, e).Ok?
  }

  const EMPTY: System := System(State(map[], 1), map[])

  lemma EnqueueFirst()
    ensures Moves(EMPTY, LEASE, Other(Enqueue(Draft(), 0), State(map[1 := First()], 2)), Solo(First(), map[]))
  {
    assert SortDedup([]) == [];
    assert LiveIds(map[]) == {};
  }

  lemma SoloEdit(a: Action, calls: map<CallId, Phase>, e: Edit)
    requires Possible(a, e) && !e.Requeue? && !e.RetryTransient?
    ensures Moves(Solo(a, calls), LEASE, Other(EditOne(1, e), State(map[1 := Edited(a, e)], 2)),
                  Solo(Edited(a, e), calls))
  {
    hide EditAction;
    assert map[1 := a][1 := Edited(a, e)] == map[1 := Edited(a, e)];
  }

  lemma SoloGet(a: Action, calls: map<CallId, Phase>, c: CallId, kind: FailureKind, reason: string)
    requires c !in calls
    ensures Moves(Solo(a, calls), LEASE, Get(c, 1, kind, reason), Solo(a, calls[c := Read(1, kind, reason, a)]))
  {
  }

  lemma SoloListing(a: Action, calls: map<CallId, Phase>, c: CallId, now: int)
    requires c !in calls && ExpiredClaim(a, now)
    ensures Moves(Solo(a, calls), LEASE, Listing(map[c := 1], now), Solo(a, calls[c := Listed(1)]))
  {
    var plan: map<CallId, ActionId> := map[c := 1];
    assert plan.Values == {1} by { assert plan[c] == 1; }
    assert calls + (map d | d in plan :: Listed(plan[d])) == calls[c := Listed(1)];
  }

  lemma SoloGetListed(a: Action, calls: map<CallId, Phase>, c: CallId)
    requires c in calls && calls[c] == Listed(1)
    ensures Moves(Solo(a, calls), LEASE, GetListed(c),
                  Solo(a, calls[c := Read(1, LeaseExpiredFailure, LEASE_EXPIRED_REASON, a)]))
  {
  }

  /** A call that read a count below the limit requeues, whatever has become of the action. */
  lemma SoloAct(a: Action, calls: map<CallId, Phase>, c: CallId, now: int)
    requires c in calls && calls[c].Read? && calls[c].id == 1 && !calls[c].kind.TransientFailure?
    requires calls[c].seen.requeueCount < MAX_REQUEUES
    requires a.state in {Claimed, Blocked, Exhausted}
    ensures var e := Edit.Requeue(calls[c].reason, 1, now);
      && Possible(a, e)
      && Moves(Solo(a, calls), LEASE, Act(c, now), Solo(Edited(a, e), calls[c := Acted(1, calls[c].kind, Requeued)]))
  {
    var e := Edit.Requeue(calls[c].reason, 1, now);
    assert map[1 := a][1 := Edited(a, e)] == map[1 := Edited(a, e)];
  }

  ghost predicate IsChain(states: seq<System>, steps: seq<LockStep>) {
    && |states| == |steps| + 1
    && forall i :: 0 <= i < |steps| ==> Moves(states[i], LEASE, steps[i], states[i + 1])
  }

  // ---- The edits of these runs -------------------------------------------------------------------------

  /** An action that a worker can take up at any time: open, unassigned, without dependencies or backoff. */
  predicate Free(a: Action) {
    a.id == 1 && a.state == Open && a.assignee == None && a.dependsOn == [] && a.notBefore == None
  }

  /** The action is claimed by `who` with a lease from `t` on. */
  predicate HeldBy(a: Action, who: string, t: int) {
    && a.id == 1 && a.state == Claimed && a.assignee == Some(who) && a.dependsOn == [] && a.notBefore == None
    && a.leaseUntil == Some(t + LEASE)
  }

  lemma FreeCanBeClaimed(a: Action, who: string, t: int)
    requires Free(a) && 0 <= t < 1_000_000
    ensures Possible(a, Edit.Claim(who, t, t)) && HeldBy(Edited(a, Edit.Claim(who, t, t)), who, t)
    ensures var b := Edited(a, Edit.Claim(who, t, t)); b.requeueCount == a.requeueCount && b.paused == a.paused
  {
    ReadinessMeaning(map[1 := a], a);
    hide ReadinessIn;
  }

  lemma HeldCanFail(a: Action, who: string, t: int, now: int)
    requires HeldBy(a, who, t) && !a.paused
    ensures var e := Complete(0, Blocked, who, false, now);
      && Possible(a, e) && Edited(a, e).id == 1 && Edited(a, e).state == Blocked && !Edited(a, e).paused
      && Edited(a, e).requeueCount == a.requeueCount && Edited(a, e).dependsOn == [] && Edited(a, e).notBefore == None
  {
  }

  lemma RequeuedIsFree(a: Action, reason: string, now: int)
    requires a.id == 1 && a.state in {Claimed, Blocked} && a.dependsOn == [] && a.notBefore == None
    requires a.requeueCount < 10
    ensures var e := Edit.Requeue(reason, 1, now);
      Free(Edited(a, e)) && Edited(a, e).requeueCount == a.requeueCount + 1 && Edited(a, e).paused == a.paused
  {
  }

  lemma HeldCanBePaused(a: Action, who: string, t: int, now: int)
    requires HeldBy(a, who, t) && !a.paused
    ensures var e := Edit.SetPaused(true, now);
      && Possible(a, e) && HeldBy(Edited(a, e), who, t) && Edited(a, e).paused
      && Edited(a, e).requeueCount == a.requeueCount
  {
  }

  lemma HeldExpires(a: Action, who: string, t: int, now: int)
    requires HeldBy(a, who, t) && !a.paused
    ensures ExpiredClaim(a, now) <==> t + LEASE < now
  {
  }

  lemma HeldCanBeRenewed(a: Action, who: string, t: int, now: int)
    requires HeldBy(a, who, t) && !a.paused && 0 <= now < 1_000_000
    ensures var e := Edit.Heartbeat(who, now);
      && Possible(a, e) && HeldBy(Edited(a, e), who, now) && !Edited(a, e).paused
      && Edited(a, e).requeueCount == a.requeueCount
  {
  }

  // ---- How these runs begin ------------------------------------------------------------------------------

  /** A sweep's call has read the action. */
  function ReadBy(c: CallId, a: Action, calls: map<CallId, Phase>): map<CallId, Phase> {
    calls[c := Read(1, LeaseExpiredFailure, LEASE_EXPIRED_REASON, a)]
  }

  /** The action is enqueued and claimed at 0; a sweep lists it at `t`, its lease being over, and reads it. */
  lemma ListedAndRead(t: int) returns (states: seq<System>, steps: seq<LockStep>, a: Action)
    requires LEASE < t
    ensures IsChain(states, steps) && |steps| == 4 && states[0] == EMPTY && Lists(steps[2], 0, 1, t)
    ensures states[4] == Solo(a, ReadBy(0, a, map[0 := Listed(1)]))
    ensures HeldBy(a, "a", 0) && !a.paused && a.requeueCount == 0
    ensures forall i :: 0 <= i < |states| ==> OneInFlight(states[i], 1)
  {
    hide EditAction, Moves, Possible, Edited;
    var claim := Edit.Claim("a", 0, 0);
    var a0 := First();
    EnqueueFirst();
    states, steps := [EMPTY], [];
    states, steps := Then(states, steps, Other(Enqueue(Draft(), 0), State(map[1 := a0], 2)), Solo(a0, map[]));

    FreeCanBeClaimed(a0, "a", 0);
    a := Edited(a0, claim);
    SoloEdit(a0, map[], claim);
    states, steps := Then(states, steps, Other(EditOne(1, claim), State(map[1 := a], 2)), Solo(a, map[]));

    var listed: map<CallId, Phase> := map[0 := Listed(1)];
    HeldExpires(a, "a", 0, t);
    SoloListing(a, map[], 0, t);
    states, steps := Then(states, steps, Listing(map[0 := 1], t), Solo(a, listed));

    SoloGetListed(a, listed, 0);
    states, steps := Then(states, steps, GetListed(0), Solo(a, ReadBy(0, a, listed)));
  }

  // ---- Overlapping accountings -----------------------------------------------------------------------------

  /** The sweep requeues the action, it is claimed anew at 1000, and a second sweep lists and reads it at 2000. */
  lemma SweptTwice() returns (states: seq<System>, steps: seq<LockStep>, a3: Action, c2: map<CallId, Phase>)
    ensures IsChain(states, steps) && |steps| == 8 && states[0] == EMPTY && states[8] == Solo(a3, c2)
    ensures HeldBy(a3, "a", 1000) && !a3.paused && a3.requeueCount == 1
    ensures 1 in c2 && c2[1] == Read(1, LeaseExpiredFailure, LEASE_EXPIRED_REASON, a3) && 2 !in c2
  {
    hide EditAction, Moves, Possible, Edited;
    var swept, claim1 := Edit.Requeue(LEASE_EXPIRED_REASON, 1, 1000), Edit.Claim("a", 1000, 1000);

    var a1: Action;
    states, steps, a1 := ListedAndRead(1000);
    var c0 := ReadBy(0, a1, map[0 := Listed(1)]);

    SoloAct(a1, c0, 0, 1000);
    RequeuedIsFree(a1, LEASE_EXPIRED_REASON, 1000);
    var a2 := Edited(a1, swept);
    var c1 := c0[0 := Acted(1, LeaseExpiredFailure, Requeued)];
    states, steps := Then(states, steps, Act(0, 1000), Solo(a2, c1));

    FreeCanBeClaimed(a2, "a", 1000);
    a3 := Edited(a2, claim1);
    SoloEdit(a2, c1, claim1);
    states, steps := Then(states, steps, Other(EditOne(1, claim1), State(map[1 := a3], 2)), Solo(a3, c1));

    var l1 := c1[1 := Listed(1)];
    HeldExpires(a3, "a", 1000, 2000);
    SoloListing(a3, c1, 1, 2000);
    states, steps := Then(states, steps, Listing(map[1 := 1], 2000), Solo(a3, l1));

    c2 := ReadBy(1, a3, l1);
    SoloGetListed(a3, l1, 1);
    states, steps := Then(states, steps, GetListed(1), Solo(a3, c2));
  }

  /**
   * A sweep and a report account one action at the same time. The sweep reads a count of one, the report requeues
   * the action, another worker claims it, and the sweep's requeue takes this claim, which has not expired, and
   * raises the count above its limit.
   */
  lemma OverlapExceedsTheBudget() returns (states: seq<System>, steps: seq<LockStep>)
    ensures IsExecution(states, LEASE, steps) && states[0] == EMPTY
    ensures |steps| == 13 && steps[12] == Act(1, 2001) && ReopensAtLimit(states[12], LEASE, steps[12], 1)
    ensures 1 in states[12].frontier.actions && HeldBy(states[12].frontier.actions[1], "b", 2000)
    ensures IsLiveClaim(states[12], 1, 2001)
    ensures 1 in states[13].frontier.actions && states[13].frontier.actions[1].state == Open
    ensures states[13].frontier.actions[1].requeueCount == MAX_REQUEUES + 1
  {
    hide EditAction, Moves, Possible, Edited, Inv;
    var failed, reported := Complete(0, Blocked, "a", false, 2000), Edit.Requeue("failed", 1, 2000);
    var claim2, late := Edit.Claim("b", 2000, 2000), Edit.Requeue(LEASE_EXPIRED_REASON, 1, 2001);

    var a3: Action;
    var c2: map<CallId, Phase>;
    states, steps, a3, c2 := SweptTwice();

    HeldCanFail(a3, "a", 1000, 2000);
    var a4 := Edited(a3, failed);
    SoloEdit(a3, c2, failed);
    states, steps := Then(states, steps, Other(EditOne(1, failed), State(map[1 := a4], 2)), Solo(a4, c2));

    var c3 := c2[2 := Read(1, BlockedFailure, "failed", a4)];
    SoloGet(a4, c2, 2, BlockedFailure, "failed");
    states, steps := Then(states, steps, Get(2, 1, BlockedFailure, "failed"), Solo(a4, c3));

    SoloAct(a4, c3, 2, 2000);
    RequeuedIsFree(a4, "failed", 2000);
    var a5 := Edited(a4, reported);
    var c4 := c3[2 := Acted(1, BlockedFailure, Requeued)];
    states, steps := Then(states, steps, Act(2, 2000), Solo(a5, c4));

    FreeCanBeClaimed(a5, "b", 2000);
    var a6 := Edited(a5, claim2);
    SoloEdit(a5, c4, claim2);
    states, steps := Then(states, steps, Other(EditOne(1, claim2), State(map[1 := a6], 2)), Solo(a6, c4));

    SoloAct(a6, c4, 1, 2001);
    RequeuedIsFree(a6, LEASE_EXPIRED_REASON, 2001);
    var a7 := Edited(a6, late);
    states, steps := Then(states, steps, Act(1, 2001), Solo(a7, c4[1 := Acted(1, LeaseExpiredFailure, Requeued)]));

    EmptyIsSound();
    assert Possible(a6, late);
    PossibleIsEdit(a6, late);
    HeldExpires(a6, "b", 2000, 2001);
  }

  // ---- A heartbeat during a sweep ------------------------------------------------------------------------

  /**
   * One accounting is enough: a sweep lists and reads an expired claim, its owner's heartbeat renews the lease, and the
   * sweep requeues the renewed claim.
   */
  lemma OneSweepTakesALiveClaim() returns (states: seq<System>, steps: seq<LockStep>)
    ensures IsExecution(states, LEASE, steps) && states[0] == EMPTY
    ensures forall i :: 0 <= i < |states| ==> OneInFlight(states[i], 1)
    ensures |steps| == 6 && Lists(steps[2], 0, 1, 940) && steps[5] == Act(0, 1000)
    ensures IsLiveClaim(states[5], 1, 1000) && !states[5].frontier.actions[1].paused
    ensures 1 in states[6].frontier.actions && states[6].frontier.actions[1].state == Open
  {
    hide EditAction, Moves, Possible, Edited, Inv;
    var beat := Edit.Heartbeat("a", 950);
    var swept := Edit.Requeue(LEASE_EXPIRED_REASON, 1, 1000);

    var a1: Action;
    states, steps, a1 := ListedAndRead(940);
    var c0 := ReadBy(0, a1, map[0 := Listed(1)]);

    HeldCanBeRenewed(a1, "a", 0, 950);
    var a2 := Edited(a1, beat);
    SoloEdit(a1, c0, beat);
    states, steps := Then(states, steps, Other(EditOne(1, beat), State(map[1 := a2], 2)), Solo(a2, c0));

    SoloAct(a2, c0, 0, 1000);
    RequeuedIsFree(a2, LEASE_EXPIRED_REASON, 1000);
    HeldExpires(a2, "a", 950, 1000);
    var c1 := c0[0 := Acted(1, LeaseExpiredFailure, Requeued)];
    states, steps := Then(states, steps, Act(0, 1000), Solo(Edited(a2, swept), c1));

    EmptyIsSound();
  }

  // ---- A claim that never expires --------------------------------------------------------------------------

  /**
   * With a single accounting in flight: a sweep reads an expired claim, the claim is paused, the sweep requeues it.
   * The action is open and still paused, and the next claim of it never expires.
   */
  lemma PausedReopeningIsReachable() returns (states: seq<System>, steps: seq<LockStep>)
    ensures IsExecution(states, LEASE, steps) && states[0] == EMPTY
    ensures forall i :: 0 <= i < |states| ==> OneInFlight(states[i], 1)
    ensures |steps| == 7 && steps[5] == Act(0, 1000) && AccountingSteps.Reopens(states[5], LEASE, steps[5], 1)
    ensures 1 in states[5].frontier.actions && states[5].frontier.actions[1].paused
    ensures 1 in states[7].frontier.actions && HeldBy(states[7].frontier.actions[1], "b", 2000)
    ensures forall now :: !ExpiredClaim(states[7].frontier.actions[1], now)
  {
    hide EditAction, Moves, Possible, Edited, Inv;
    var claim1 := Edit.Claim("b", 2000, 2000);
    var swept, pause := Edit.Requeue(LEASE_EXPIRED_REASON, 1, 1000), Edit.SetPaused(true, 950);

    var a1: Action;
    states, steps, a1 := ListedAndRead(940);
    var c0 := ReadBy(0, a1, map[0 := Listed(1)]);

    HeldCanBePaused(a1, "a", 0, 950);
    var a2 := Edited(a1, pause);
    SoloEdit(a1, c0, pause);
    states, steps := Then(states, steps, Other(EditOne(1, pause), State(map[1 := a2], 2)), Solo(a2, c0));

    SoloAct(a2, c0, 0, 1000);
    RequeuedIsFree(a2, LEASE_EXPIRED_REASON, 1000);
    var a3 := Edited(a2, swept);
    var c1 := c0[0 := Acted(1, LeaseExpiredFailure, Requeued)];
    states, steps := Then(states, steps, Act(0, 1000), Solo(a3, c1));

    FreeCanBeClaimed(a3, "b", 2000);
    var a4 := Edited(a3, claim1);
    SoloEdit(a3, c1, claim1);
    states, steps := Then(states, steps, Other(EditOne(1, claim1), State(map[1 := a4], 2)), Solo(a4, c1));

    EmptyIsSound();
    PossibleIsEdit(a2, swept);
  }

  // ---- More live actions than the cap ------------------------------------------------------------------------

  function FirstIds(n: nat): (ids: set<ActionId>)
    ensures |ids| == n && forall id :: id in ids ==> 1 <= id <= n
    ensures n > 0 ==> 1 in ids
  {
    if n == 0 then {} else FirstIds(n - 1) + {n}
  }

  predicate IsFresh(a: Action) {
    && a.state == Open && a.assignee == None && a.claimedBy == None && a.dependsOn == [] && a.notBefore == None
    && a.requeueCount == 0 && !a.paused
  }

  /** Only live, unassigned actions without dependencies, numbered from one. */
  ghost predicate FreshOnes(actions: ActionMap, n: nat) {
    && actions.Keys == FirstIds(n)
    && forall id :: id in actions ==> IsFresh(actions[id])
  }

  /**
   * Fill the frontier, let one action fail, fill its place before the failure is accounted: the accounting reopens
   * the failed action, and one more than the cap are live.
   */
  method ReopenAboveTheCap() returns (frontier: ActionFrontier, registry: WorkerRegistry)
    ensures frontier.Valid() && |LiveIds(frontier.actions)| == MAX_OPEN + 1
  {
    hide Inv, Accounted, EditAction, EnqueueResult, FreshOnes, LiveIds, FirstIds;
    frontier := new ActionFrontier(LEASE);
    registry := new WorkerRegistry();
    assert FreshOnes(map[], 0) by { NothingIsFresh(); }
    for k := 0 to MAX_OPEN
      invariant fresh(frontier) && frontier.Valid() && frontier.nextId == k + 1 && FreshOnes(frontier.actions, k)
      invariant fresh(registry) && registry.Valid()
    {
      RoomForFresh(frontier.View(), k);
      var _ := frontier.Enqueue(Draft(), 0);
    }
    ghost var full, lease := frontier.actions, frontier.leaseSecs;
    FreshCanFail(full, lease);
    var _ := frontier.Claim(1, "a", 0, 0);
    var _ := frontier.CompleteAs(1, 0, Blocked, "a", false, 1);
    RoomAgain(full, frontier.View());
    var _ := frontier.Enqueue(Draft(), 1);
    ghost var refilled := frontier.actions;
    var r := AccountFailureKind(registry, frontier, 1, BlockedFailure, "failed", 2);
    OneTooMany(refilled, frontier.actions, lease, r);
  }

  // ---- More load than a worker takes ----------------------------------------------------------------------

  /** Two dispatchers pick a worker of limit one for two actions, before either assigns: it ends up with both. */
  method TwoDispatchersOverload(serves: Serves) returns (frontier: ActionFrontier, registry: WorkerRegistry)
    ensures frontier.Valid() && registry.Valid()
    ensures "w" in registry.workers && registry.workers["w"].maxLoad == 1
    ensures |LoadSet(frontier.actions, "w", 0)| == 2
  {
    hide Inv, EditAction, EnqueueResult, FreshOnes, LiveIds, FirstIds, PickedWell, LoadSet, ClaimedIds;
    frontier := new ActionFrontier(LEASE);
    registry := new WorkerRegistry();
    assert FreshOnes(map[], 0) by { NothingIsFresh(); }
    for k := 0 to 2
      invariant fresh(frontier) && frontier.Valid() && frontier.nextId == k + 1 && FreshOnes(frontier.actions, k)
      invariant fresh(registry) && registry.Valid() && registry.workers == map[] && frontier.leaseSecs == LEASE
    {
      RoomForFresh(frontier.View(), k);
      var _ := frontier.Enqueue(Draft(), 0);
    }
    ghost var before := frontier.actions;
    var _ := registry.Register("w", [], Some(1));
    FreshHasNoLoad(before, registry.workers, serves);
    var one := registry.Pick(frontier, [], serves, 0);
    OnlyWorkerIsPicked(before, registry.workers, serves, one);
    var two := registry.Pick(frontier, [], serves, 0);
    OnlyWorkerIsPicked(before, registry.workers, serves, two);
    TwoAssignments(before, frontier.leaseSecs);
    var _ := frontier.Assign(1, one.value.id, 0, 0);
    var _ := frontier.Assign(2, two.value.id, 0, 0);
  }

  /** The only worker there is: any action without needs can go to it. */
  ghost predicate OnlyWorker(workers: WorkerMap) {
    && workers.Keys == {"w"} && workers["w"].id == "w" && workers["w"].maxLoad == 1
    && workers["w"].blacklistedUntil == None
  }

  lemma FreshHasNoLoad(actions: ActionMap, workers: WorkerMap, serves: Serves)
    requires FreshOnes(actions, 2) && OnlyWorker(workers)
    ensures |ClaimedIds(actions)| == 0 && LoadSet(actions, "w", 0) == {}
    ensures Eligible(actions, workers["w"], [], serves, 0)
  {
    hide FirstIds;
    assert ClaimedIds(actions) == {};
    assert LoadSet(actions, "w", 0) == {};
  }

  lemma OnlyWorkerIsPicked(actions: ActionMap, workers: WorkerMap, serves: Serves, r: Option<Worker>)
    requires OnlyWorker(workers) && Eligible(actions, workers["w"], [], serves, 0)
    requires PickedWell(actions, workers, [], serves, 0, r)
    requires r.Some? ==> r.value.id in workers && workers[r.value.id] == r.value
    ensures r.Some? && r.value.id == "w"
  {
    hide Eligible;
  }

  lemma TwoAssignments(before: ActionMap, lease: int)
    requires FreshOnes(before, 2) && LoadSet(before, "w", 0) == {} && lease == LEASE
    ensures var mid := Applied(before, 1, EditAction(before, lease, 1, Edit.Assign("w", 0, 0)));
      |LoadSet(Applied(mid, 2, EditAction(mid, lease, 2, Edit.Assign("w", 0, 0))), "w", 0)| == 2
  {
    hide EditAction, LoadSet;
    assert before.Keys == {1, 2} by { FirstTwo(); }
    var mid := Applied(before, 1, EditAction(before, lease, 1, Edit.Assign("w", 0, 0)));
    FreshIsAssigned(before, lease, 1);
    FreshIsAssigned(mid, lease, 2);
    AssignmentLoadsExactly(before, lease, 1, "w", 0, "w");
    AssignmentLoadsExactly(mid, lease, 2, "w", 0, "w");
    assert {} + {1} == {1};
    assert {1} + {2} == {1, 2};
  }

  lemma FirstTwo()
    ensures FirstIds(2) == {1, 2}
  {
    assert FirstIds(1) == {1};
  }

  lemma FreshIsAssigned(actions: ActionMap, lease: int, id: ActionId)
    requires id in actions && IsFresh(actions[id])
    ensures EditAction(actions, lease, id, Edit.Assign("w", 0, 0)).Ok?
  {
    ReadinessMeaning(actions, actions[id]);
    hide ReadinessIn;
  }

  lemma NothingIsFresh()
    ensures FreshOnes(map[], 0)
  {
  }

  lemma RoomForFresh(s: State, k: nat)
    requires FreshOnes(s.actions, k) && k < MAX_OPEN && s.nextId == k + 1
    ensures EnqueueResult(s, Draft(), 0).Ok?
    ensures FreshOnes(s.actions[s.nextId := EnqueueResult(s, Draft(), 0).value], k + 1)
  {
    CountFresh(s.actions, k);
    NoDepsNoError(s.actions, s.nextId);
    hide DepsError, SortDedup, LiveIds, FreshOnes;
    FreshOneMore(s.actions, k, EnqueueResult(s, Draft(), 0).value);
  }

  lemma FreshOneMore(actions: ActionMap, k: nat, a: Action)
    requires FreshOnes(actions, k) && IsFresh(a)
    ensures FreshOnes(actions[k + 1 := a], k + 1)
  {
    hide IsFresh;
    assert actions[k + 1 := a].Keys == actions.Keys + {k + 1};
  }

  /** The action failed before anybody accounted it. */
  ghost predicate FailedOnce(a: Action) {
    a.state == Blocked && a.requeueCount == 0
  }

  lemma FreshCanFail(full: ActionMap, lease: int)
    requires FreshOnes(full, MAX_OPEN)
    ensures 1 in full
    ensures var r := EditAction(full, lease, 1, Edit.Claim("a", 0, 0));
      var held := Applied(full, 1, r);
      var done := EditAction(held, lease, 1, Complete(0, Blocked, "a", false, 1));
      done.Ok? && FailedOnce(done.value) && Applied(held, 1, done) == full[1 := done.value]
  {
    hide EditAction, FirstIds;
    assert 1 in full.Keys;
    FreshIsTaken(full, lease);
    TakenCanFail(full[1 := EditAction(full, lease, 1, Edit.Claim("a", 0, 0)).value], lease);
  }

  /** Claimed by `a` for the first time. */
  predicate Taken(a: Action) {
    a.state == Claimed && a.assignee == Some("a") && !a.paused && a.requeueCount == 0
  }

  lemma FreshIsTaken(full: ActionMap, lease: int)
    requires 1 in full && IsFresh(full[1])
    ensures var r := EditAction(full, lease, 1, Edit.Claim("a", 0, 0)); r.Ok? && Taken(r.value)
  {
    ReadinessMeaning(full, full[1]);
    hide ReadinessIn;
  }

  lemma TakenCanFail(held: ActionMap, lease: int)
    requires 1 in held && Taken(held[1])
    ensures var r := EditAction(held, lease, 1, Complete(0, Blocked, "a", false, 1)); r.Ok? && FailedOnce(r.value)
  {
    hide ReadinessIn;
  }

  lemma RoomAgain(full: ActionMap, s: State)
    requires FreshOnes(full, MAX_OPEN) && 1 in full && 1 in s.actions && s.actions == full[1 := s.actions[1]]
    requires FailedOnce(s.actions[1]) && s.nextId == MAX_OPEN + 1
    ensures EnqueueResult(s, Draft(), 1).Ok?
    ensures var after := s.actions[s.nextId := EnqueueResult(s, Draft(), 1).value];
      |LiveIds(after)| == MAX_OPEN && 1 in after && FailedOnce(after[1])
  {
    hide DepsError, SortDedup, LiveIds, FirstIds;
    CountFresh(full, MAX_OPEN);
    OneMoreLive(full, 1, s.actions[1]);
    NoDepsNoError(s.actions, s.nextId);
    var a := EnqueueResult(s, Draft(), 1).value;
    OneMoreLive(s.actions, s.nextId, a);
    assert 1 in LiveIds(full) && s.nextId !in LiveIds(full);
  }

  lemma OneTooMany(before: ActionMap, after: ActionMap, lease: int, r: Result<Disposition>)
    requires 1 in before && FailedOnce(before[1]) && |LiveIds(before)| == MAX_OPEN
    requires Accounted(before, after, lease, 1, BlockedFailure, "failed", 2, r)
    ensures |LiveIds(after)| == MAX_OPEN + 1
  {
    assert AfterEdit(before, lease, 1, BlockedFailure, "failed", 2).Ok?;
    assert after == before[1 := after[1]] && after[1].state == Open;
    OneMoreLive(before, 1, after[1]);
    Membership(before, 1);
  }

  lemma CountFresh(actions: ActionMap, n: nat)
    requires FreshOnes(actions, n)
    ensures LiveIds(actions) == actions.Keys && |LiveIds(actions)| == n
  {
    hide FirstIds;
    assert LiveIds(actions) == actions.Keys;
  }

  lemma NoDepsNoError(actions: ActionMap, id: ActionId)
    ensures SortDedup([]) == [] && DepsError(actions, id, []) == None
  {
  }

  lemma PossibleIsEdit(a: Action, e: Edit)
    requires Possible(a, e)
    ensures EditAction(map[1 := a], LEASE, 1, e).Ok?
  {
  }

  lemma Then(states: seq<System>, steps: seq<LockStep>, step: LockStep, s: System)
    returns (longer: seq<System>, moves: seq<LockStep>)
    requires IsChain(states, steps) && Moves(states[|steps|], LEASE, step, s)
    ensures longer == states + [s] && moves == steps + [step] && IsChain(longer, moves)
  {
    hide Moves;
    longer, moves := states + [s], steps + [step];
  }
}
