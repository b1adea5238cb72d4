/** Assigning open actions in batches without overloading any worker. */
module Batches {
  import opened Prelude
  import opened Actions
  import opened Frontier
  import opened FrontierStore
  import opened Dispatch

  datatype Outcome = Assigned(action: Action, worker: Worker) | NoWorker | Refused(error: FrontierError)

  predicate IsReadyNow(actions: ActionMap, a: Action, now: int) {
    a.state == Open && (a.notBefore.None? || now >= a.notBefore.value) && ReadinessIn(actions, a).Ready?
  }

  /** Pick a worker for an open action and assign it; the answer says why not otherwise. */
  method AutoAssign(registry: WorkerRegistry, frontier: ActionFrontier, id: ActionId, serves: Serves, now: int)
    returns (r: Outcome)
    requires registry.Valid() && frontier.Valid()
    modifies frontier`actions
    ensures frontier.Valid()
    ensures frontier.actions == if r.Assigned? then old(frontier.actions)[id := r.action] else old(frontier.actions)
    ensures id !in old(frontier.actions) ==> r == Refused(NotFound)
    ensures id in old(frontier.actions) && old(frontier.actions)[id].state != Open ==> r == Refused(WrongState)
    ensures id in old(frontier.actions) && old(frontier.actions)[id].state == Open ==>
      Answers(old(frontier.actions), frontier.leaseSecs, registry.workers, id, serves, now, r)
  {
    hide EditAction, Inv, PickedWell;
    if id !in frontier.actions {
      return Refused(NotFound);
    }
    var a := frontier.actions[id];
    if a.state != Open {
      return Refused(WrongState);
    }
    var picked := registry.Pick(frontier, a.requiredCapabilities, serves, now);
    if picked.None? {
      return NoWorker;
    }
    var answer := frontier.Assign(id, picked.value.id, now, now);
    if answer.Err? {
      return Refused(answer.error);
    }
    EditFacts(old(frontier.actions), frontier.leaseSecs, id, Edit.Assign(picked.value.id, now, now));
    r := Assigned(answer.value, picked.value);
  }

  /**
   * The answer for an open action: assigned to the best eligible worker, refused for that worker, or no worker at all.
   * The choice is the best as long as the loads are counted in full.
   */
  ghost predicate Answers(actions: ActionMap, lease: int, workers: WorkerMap, id: ActionId, serves: Serves, now: int,
                          r: Outcome)
    requires id in actions
  {
    var picked := match r case Assigned(_, w) => Some(w) case _ => None;
    && (r.Assigned? ==>
      && r.worker.id in workers && workers[r.worker.id] == r.worker
      && EditAction(actions, lease, id, Edit.Assign(r.worker.id, now, now)) == Ok(r.action))
    && (r.Refused? ==>
       exists w :: w in workers && EditAction(actions, lease, id, Edit.Assign(w, now, now)) == Err(r.error))
    && (!r.Refused? && |ClaimedIds(actions)| <= LIST_LIMIT ==>
      PickedWell(actions, workers, actions[id].requiredCapabilities, serves, now, picked))
  }

  lemma AssignedIsEligible(actions: ActionMap, lease: int, workers: WorkerMap, id: ActionId, serves: Serves, now: int,
                           r: Outcome)
    requires id in actions && Answers(actions, lease, workers, id, serves, now, r) && r.Assigned?
    requires |ClaimedIds(actions)| <= LIST_LIMIT
    ensures Eligible(actions, r.worker, actions[id].requiredCapabilities, serves, now)
  {
    hide EditAction, Eligible;
  }

  /** No worker is found only when none is eligible. */
  lemma NobodyIsEligible(actions: ActionMap, lease: int, workers: WorkerMap, id: ActionId, serves: Serves, now: int,
                         w: string)
    requires id in actions && Answers(actions, lease, workers, id, serves, now, NoWorker) && w in workers
    requires |ClaimedIds(actions)| <= LIST_LIMIT
    ensures !Eligible(actions, workers[w], actions[id].requiredCapabilities, serves, now)
  {
    hide EditAction, Eligible;
  }

  ghost predicate Monotone(clock: nat -> int) {
    forall i: nat, j: nat :: i <= j ==> clock(i) <= clock(j)
  }

  function Limit(workers: WorkerMap, w: string): nat {
    if w in workers then workers[w].maxLoad else 0
  }

  /** No worker is above both the load it had and its limit. */
  ghost predicate Bounded(workers: WorkerMap, before: ActionMap, t0: int, after: ActionMap, t1: int) {
    forall w :: |LoadSet(after, w, t1)| <= |LoadSet(before, w, t0)| || |LoadSet(after, w, t1)| <= Limit(workers, w)
  }

  /** Load only falls as time passes. */
  lemma LoadFalls(actions: ActionMap, w: string, t0: int, t1: int)
    requires t0 <= t1
    ensures |LoadSet(actions, w, t1)| <= |LoadSet(actions, w, t0)|
  {
    SubsetSize(LoadSet(actions, w, t1), LoadSet(actions, w, t0));
  }

  /** An assignment adds at most the one action, and only to the worker it names. */
  lemma AssignmentAddsOne(actions: ActionMap, lease: int, id: ActionId, worker: string, now: int)
    requires EditAction(actions, lease, id, Edit.Assign(worker, now, now)).Ok?
    ensures var actions' := actions[id := EditAction(actions, lease, id, Edit.Assign(worker, now, now)).value];
      && (forall w, t :: w != worker ==> |LoadSet(actions', w, t)| <= |LoadSet(actions, w, t)|)
      && (forall t :: |LoadSet(actions', worker, t)| <= |LoadSet(actions, worker, t)| + 1)
      && |ClaimedIds(actions')| == |ClaimedIds(actions)| + 1
  {
    hide ReadinessIn;
    var a' := EditAction(actions, lease, id, Edit.Assign(worker, now, now)).value;
    var actions' := actions[id := a'];
    assert a'.assignee == Some(worker) && a'.claimedBy == Some(worker);
    forall w, t | w != worker
      ensures |LoadSet(actions', w, t)| <= |LoadSet(actions, w, t)|
    {
      SubsetSize(LoadSet(actions', w, t), LoadSet(actions, w, t));
    }
    forall t
      ensures |LoadSet(actions', worker, t)| <= |LoadSet(actions, worker, t)| + 1
    {
      SubsetSize(LoadSet(actions', worker, t), LoadSet(actions, worker, t) + {id});
    }
    assert ClaimedIds(actions') == ClaimedIds(actions) + {id};
  }

  /**
   * At the time of an assignment its worker has one more load, unless the action is paused, and no other worker is
   * affected. So an assignment takes a worker past its limit exactly when the limit has been reached since the worker
   * was picked.
   */
  lemma AssignmentLoadsExactly(actions: ActionMap, lease: int, id: ActionId, worker: string, now: int, w: string)
    requires EditAction(actions, lease, id, Edit.Assign(worker, now, now)).Ok? && lease >= 0 && now <= I64_MAX
    ensures var actions' := actions[id := EditAction(actions, lease, id, Edit.Assign(worker, now, now)).value];
      && id in actions && id !in LoadSet(actions, w, now)
      && LoadSet(actions', w, now) == LoadSet(actions, w, now) + if w == worker && !actions[id].paused then {id} else {}
  {
    hide ReadinessIn;
  }

  lemma AssignmentStaysBounded(workers: WorkerMap, before: ActionMap, t0: int, cur: ActionMap, now: int, lease: int,
                               id: ActionId, w: Worker, required: seq<string>, serves: Serves)
    requires Bounded(workers, before, t0, cur, now)
    requires w.id in workers && workers[w.id] == w && Eligible(cur, w, required, serves, now)
    requires EditAction(cur, lease, id, Edit.Assign(w.id, now, now)).Ok?
    ensures Bounded(workers, before, t0, cur[id := EditAction(cur, lease, id, Edit.Assign(w.id, now, now)).value], now)
  {
    hide EditAction, LoadSet, Matches;
    AssignmentAddsOne(cur, lease, id, w.id, now);
  }

  lemma BoundedLater(workers: WorkerMap, before: ActionMap, t0: int, cur: ActionMap, t1: int, t2: int)
    requires Bounded(workers, before, t0, cur, t1) && t1 <= t2
    ensures Bounded(workers, before, t0, cur, t2)
  {
    hide LoadSet;
    forall w
      ensures |LoadSet(cur, w, t2)| <= |LoadSet(before, w, t0)| || |LoadSet(cur, w, t2)| <= Limit(workers, w)
    {
      LoadFalls(cur, w, t1, t2);
    }
  }

  function BatchLimit(limit: nat): nat {
    if limit < 1 then 1 else if limit > 20 then 20 else limit
  }

  /** The open actions that are more urgent. */
  function Ahead(actions: ActionMap, id: ActionId): set<ActionId>
    requires id in actions
  {
    set k | k in actions && actions[k].state == Open && Precedes(actions[k], actions[id])
  }

  predicate Tried(out: seq<(ActionId, Outcome)>, id: ActionId) {
    exists k :: 0 <= k < |out| && out[k].0 == id
  }

  /** Only actions that were tried changed, each into what its outcome says. */
  ghost predicate Accounts(before: ActionMap, out: seq<(ActionId, Outcome)>, after: ActionMap) {
    && after.Keys == before.Keys
    && (forall id :: id in before && !Tried(out, id) ==> after[id] == before[id])
    && forall k :: 0 <= k < |out| ==>
      && out[k].0 in before && before[out[k].0].state == Open
      && after[out[k].0] == (if out[k].1.Assigned? then out[k].1.action else before[out[k].0])
      && (out[k].1.Assigned? ==> out[k].1.action.state == Claimed)
  }

  /** Open, past its backoff, and with every dependency done. */
  ghost predicate ReadyBy(actions: ActionMap, id: ActionId, now: int) {
    && id in actions && actions[id].state == Open
    && (actions[id].notBefore.Some? ==> actions[id].notBefore.value <= now)
    && DepsDone(actions, actions[id])
  }

  /** Nothing was tried that was not ready by then: what has to wait takes up none of the batch. */
  ghost predicate OnlyReadyTried(before: ActionMap, out: seq<(ActionId, Outcome)>, now: int) {
    forall id :: Tried(out, id) ==> ReadyBy(before, id, now)
  }

  lemma ReadyNowExactly(actions: ActionMap, id: ActionId, now: int)
    requires id in actions
    ensures IsReadyNow(actions, actions[id], now) <==> ReadyBy(actions, id, now)
  {
    ReadinessMeaning(actions, actions[id]);
    hide ReadinessIn;
  }

  /** Due are exactly the actions that are ready and that fewer than a hundred more urgent open ones come before. */
  lemma DueExactly(actions: ActionMap, id: ActionId, now: int)
    ensures Due(actions, id, now) <==> ReadyBy(actions, id, now) && |MoreUrgent(actions, id)| < 100
  {
    hide ReadinessIn;
    if id in actions {
      ReadyNowExactly(actions, id, now);
      assert Ahead(actions, id) == MoreUrgent(actions, id);
    }
  }

  /** The open actions of higher priority, or of the same one and newer. */
  function MoreUrgent(actions: ActionMap, id: ActionId): set<ActionId>
    requires id in actions
  {
    var a := actions[id];
    set k | k in actions && actions[k].state == Open
            && (actions[k].priority > a.priority || (actions[k].priority == a.priority && actions[k].id > a.id))
  }

  lemma NothingTried(before: ActionMap, now: int)
    ensures OnlyReadyTried(before, [], now)
  {
  }

  lemma TriedWhileReady(before: ActionMap, out: seq<(ActionId, Outcome)>, cur: ActionMap, id: ActionId, r: Outcome,
                        now: int, later: int)
    requires Accounts(before, out, cur) && OnlyReadyTried(before, out, now) && now <= later
    requires id in before && id in cur && before[id] == cur[id] && IsReadyNow(cur, cur[id], now)
    ensures OnlyReadyTried(before, out + [(id, r)], later)
  {
    ReadyNowExactly(cur, id, now);
    hide IsReadyNow;
    forall d | d in cur && cur[d].state == Done ensures d in before && before[d].state == Done {
      DoneWasDone(before, out, cur, d);
    }
    forall x | Tried(out + [(id, r)], x) ensures ReadyBy(before, x, later) {
      TriedAppend(out, id, r, x);
      if x != id {
        assert ReadyBy(before, x, now);
      }
    }
  }

  /** A batch only claims, so what is done was done before. */
  lemma DoneWasDone(before: ActionMap, out: seq<(ActionId, Outcome)>, cur: ActionMap, d: ActionId)
    requires Accounts(before, out, cur) && d in cur && cur[d].state == Done
    ensures d in before && before[d] == cur[d]
  {
    forall k | 0 <= k < |out| ensures out[k].0 != d {
    }
  }

  lemma TriedBefore(before: ActionMap, out: seq<(ActionId, Outcome)>, now: int, later: int)
    requires OnlyReadyTried(before, out, now) && now <= later
    ensures OnlyReadyTried(before, out, later)
  {
    forall x | Tried(out, x) ensures ReadyBy(before, x, later) {
      assert ReadyBy(before, x, now);
    }
  }

  /** Among the hundred most urgent open actions, and ready when the batch begins. */
  ghost predicate Due(actions: ActionMap, id: ActionId, now: int) {
    id in actions && |Ahead(actions, id)| < LIST_LIMIT && IsReadyNow(actions, actions[id], now)
  }

  /**
   * Assign up to `limit` ready actions. The batch ends at its limit or after trying every action that was due. If at
   * most a hundred actions were claimed whenever a load was counted, and so in every frontier within its cap, no worker
   * ends up above the larger of the load it had and its limit, however the clock moves.
   */
  method DispatchBatch(registry: WorkerRegistry, frontier: ActionFrontier, limit: nat, serves: Serves,
                       clock: nat -> int)
    returns (out: seq<(ActionId, Outcome)>)
    requires registry.Valid() && frontier.Valid() && Monotone(clock)
    modifies frontier`actions
    ensures frontier.Valid()
    ensures |out| <= BatchLimit(limit) == if limit < 1 then 1 else if limit > 20 then 20 else limit
    ensures OnlyReadyTried(old(frontier.actions), out, clock(LIST_LIMIT))
    ensures |out| < BatchLimit(limit) ==> forall id :: Due(old(frontier.actions), id, clock(0)) ==> Tried(out, id)
    ensures Accounts(old(frontier.actions), out, frontier.actions)
    ensures |ClaimedIds(old(frontier.actions))| <= |ClaimedIds(frontier.actions)|
      <= |ClaimedIds(old(frontier.actions))| + |out|
    ensures |ClaimedIds(frontier.actions)| <= LIST_LIMIT + 1 ==>
      Bounded(registry.workers, old(frontier.actions), clock(0), frontier.actions, clock(LIST_LIMIT))
    ensures |LiveIds(old(frontier.actions))| <= MAX_OPEN ==>
      Bounded(registry.workers, old(frontier.actions), clock(0), frontier.actions, clock(LIST_LIMIT))
  {
    hide OnlyReadyTried, LiveIds, EditAction, Inv, IsReadyNow, Trying, Loaded, Bounded, ClaimedIds, Accounts, Tried,
      Due, Answers,
      Ahead,
      Precedes;
    var open := frontier.List(Some(Open), 100);
    out := [];
    ghost var before := frontier.actions;
    KeysAreIds(frontier.View());
    BatchStarts(registry.workers, before, open, clock);
    NothingTried(before, clock(0));
    var i := 0;
    while i < |open| && |out| < BatchLimit(limit)
      invariant 0 <= i <= |open| && frontier.Valid() && |out| <= BatchLimit(limit)
      invariant Trying(before, open, i, out, frontier.actions, clock(0))
      invariant OnlyReadyTried(before, out, clock(i))
      invariant Loaded(registry.workers, before, frontier.actions, |out|, clock, i)
    {
      var id := open[i].id;
      var now := clock(i);
      ghost var cur := frontier.actions;
      NextIsUntouched(before, open, i, out, cur, clock(0), now);
      if IsReadyNow(frontier.actions, open[i], now) {
        var r := AutoAssign(registry, frontier, id, serves, now);
        assert r.Assigned? ==> r.action.state == Claimed by {
          AnswerIsClaimed(cur, frontier.leaseSecs, registry.workers, id, serves, now, r);
        }
        TriedOneMoreReady(before, open, i, out, cur, r, clock);
        TriedOneMore(before, open, i, out, cur, r, frontier.actions, clock(0));
        LoadedOneMore(registry.workers, before, cur, |out|, clock, i, id, serves, frontier.leaseSecs, r);
        out := out + [(id, r)];
      } else {
        SkippedOneMore(before, open, i, out, cur, clock(0));
        TriedBefore(before, out, now, clock(i + 1));
        LoadedLater(registry.workers, before, cur, |out|, clock, i, i + 1);
      }
      i := i + 1;
    }
    TriedBefore(before, out, clock(i), clock(LIST_LIMIT));
    BatchEnds(registry.workers, before, open, i, out, frontier.actions, clock, BatchLimit(limit));
    ClaimedAreLive(before);
  }

  /** The first `i` listed actions are dealt with: those that were ready have been tried. */
  ghost predicate Trying(before: ActionMap, open: seq<Action>, i: nat, out: seq<(ActionId, Outcome)>, cur: ActionMap,
                         t0: int)
  {
    && Accounts(before, out, cur)
    && OnlyTried(open, i, out)
    && forall j :: 0 <= j < i && j < |open| && IsReadyNow(before, open[j], t0) ==> Tried(out, open[j].id)
  }

  /** What a batch has added to the loads. */
  ghost predicate Loaded(workers: WorkerMap, before: ActionMap, cur: ActionMap, tries: nat, clock: nat -> int, i: nat) {
    && |ClaimedIds(before)| <= |ClaimedIds(cur)| <= |ClaimedIds(before)| + tries
    && (|ClaimedIds(cur)| <= LIST_LIMIT + 1 ==> Bounded(workers, before, clock(0), cur, clock(i)))
  }

  /** A list of open actions as the frontier gives it: the most urgent hundred. */
  ghost predicate IsOpenList(actions: ActionMap, open: seq<Action>) {
    && NoDup(open) && |open| <= LIST_LIMIT
    && (forall a :: a in open ==> a.id in actions && actions[a.id] == a && a.state == Open)
    && forall id :: id in actions && actions[id].state == Open && actions[id] !in open ==>
       |open| == LIST_LIMIT && forall a :: a in open ==> Precedes(a, actions[id])
  }

  lemma KeysAreIds(s: State)
    requires Inv(s)
    ensures forall id :: id in s.actions ==> s.actions[id].id == id
  {
  }

  lemma BatchStarts(workers: WorkerMap, actions: ActionMap, open: seq<Action>, clock: nat -> int)
    ensures Trying(actions, open, 0, [], actions, clock(0)) && Loaded(workers, actions, actions, 0, clock, 0)
  {
    hide IsReadyNow, ClaimedIds, LoadSet;
  }

  lemma LoadedLater(workers: WorkerMap, before: ActionMap, cur: ActionMap, tries: nat,
                    clock: nat -> int, i: nat, j: nat)
    requires Loaded(workers, before, cur, tries, clock, i) && i <= j && Monotone(clock)
    ensures Loaded(workers, before, cur, tries, clock, j)
  {
    hide Bounded, ClaimedIds;
    if |ClaimedIds(cur)| <= LIST_LIMIT + 1 {
      BoundedLater(workers, before, clock(0), cur, clock(i), clock(j));
    }
  }

  lemma LoadedOneMore(workers: WorkerMap, before: ActionMap, cur: ActionMap, tries: nat, clock: nat -> int, i: nat,
                      id: ActionId, serves: Serves, lease: int, r: Outcome)
    requires Loaded(workers, before, cur, tries, clock, i) && Monotone(clock)
    requires id in cur && Answers(cur, lease, workers, id, serves, clock(i), r)
    ensures Loaded(workers, before, if r.Assigned? then cur[id := r.action] else cur, tries + 1, clock, i + 1)
  {
    hide Bounded, ClaimedIds, EditAction, Answers, Eligible, Monotone;
    var now := clock(i);
    var after := if r.Assigned? then cur[id := r.action] else cur;
    if r.Assigned? {
      AnswerFacts(cur, lease, workers, id, serves, now, r);
      AssignmentAddsOne(cur, lease, id, r.worker.id, now);
      if |ClaimedIds(cur)| <= LIST_LIMIT {
        AssignedIsEligible(cur, lease, workers, id, serves, now, r);
        AssignmentStaysBounded(workers, before, clock(0), cur, now, lease, id, r.worker, cur[id].requiredCapabilities,
                               serves);
      }
    }
    assert Loaded(workers, before, after, tries + 1, clock, i);
    LoadedLater(workers, before, after, tries + 1, clock, i, i + 1);
  }

  lemma BatchEnds(workers: WorkerMap, before: ActionMap, open: seq<Action>, i: nat, out: seq<(ActionId, Outcome)>,
                  after: ActionMap, clock: nat -> int, limit: nat)
    requires i <= |open| && (i == |open| || |out| >= limit) && IsOpenList(before, open) && Monotone(clock)
    requires forall id :: id in before ==> before[id].id == id
    requires Trying(before, open, i, out, after, clock(0)) && Loaded(workers, before, after, |out|, clock, i)
    ensures Accounts(before, out, after)
    ensures |out| < limit ==> forall id :: Due(before, id, clock(0)) ==> Tried(out, id)
    ensures |ClaimedIds(before)| <= |ClaimedIds(after)| <= |ClaimedIds(before)| + |out|
    ensures |ClaimedIds(after)| <= LIST_LIMIT + 1 ==> Bounded(workers, before, clock(0), after, clock(LIST_LIMIT))
  {
    hide Bounded, ClaimedIds, Accounts, Due, Tried, IsReadyNow, Monotone;
    LoadedLater(workers, before, after, |out|, clock, i, LIST_LIMIT);
    if |out| < limit {
      forall id | Due(before, id, clock(0)) ensures Tried(out, id) {
        DueIsListed(before, open, id, clock(0));
        assert id in before by { DueIsKnown(before, id, clock(0)); }
        var j :| 0 <= j < |open| && open[j] == before[id] && IsReadyNow(before, open[j], clock(0));
        assert open[j].id == id;
      }
    }
  }

  lemma DueIsKnown(actions: ActionMap, id: ActionId, now: int)
    requires Due(actions, id, now)
    ensures id in actions
  {
  }

  /** Everything tried so far comes from the first `i` entries of the list. */
  ghost predicate OnlyTried(open: seq<Action>, i: nat, out: seq<(ActionId, Outcome)>) {
    forall id :: Tried(out, id) ==> exists j :: 0 <= j < i && j < |open| && open[j].id == id
  }

  lemma SkippedOneMore(before: ActionMap, open: seq<Action>, i: nat, out: seq<(ActionId, Outcome)>, cur: ActionMap,
                       t0: int)
    requires i < |open| && Trying(before, open, i, out, cur, t0) && !IsReadyNow(before, open[i], t0)
    ensures Trying(before, open, i + 1, out, cur, t0)
  {
    hide Tried, IsReadyNow, Accounts;
    OnlyTriedLater(open, i, out);
  }

  lemma OnlyTriedLater(open: seq<Action>, i: nat, out: seq<(ActionId, Outcome)>)
    requires OnlyTried(open, i, out)
    ensures OnlyTried(open, i + 1, out)
  {
    hide Tried;
    forall id | Tried(out, id) ensures exists j :: 0 <= j < i + 1 && j < |open| && open[j].id == id {
      var j :| 0 <= j < i && j < |open| && open[j].id == id;
    }
  }

  lemma NextIsUntouched(before: ActionMap, open: seq<Action>, i: nat, out: seq<(ActionId, Outcome)>, cur: ActionMap,
                        t0: int,
                        now: int)
    requires i < |open| && Trying(before, open, i, out, cur, t0) && IsOpenList(before, open) && t0 <= now
    ensures !Tried(out, open[i].id) && open[i].id in cur && cur[open[i].id] == open[i] == before[open[i].id]
    ensures open[i].id in before && before[open[i].id].state == Open
    ensures IsReadyNow(before, open[i], t0) ==> IsReadyNow(cur, open[i], now)
  {
    hide IsReadyNow, Precedes;
    assert open[i] in open;
    forall j | 0 <= j < i ensures open[j].id != open[i].id {
      assert open[j] in open;
    }
    ReadyStaysReady(before, out, cur, open[i], t0, now);
  }

  /** A batch takes up open actions only, so what was done before stays done. */
  lemma ReadyStaysReady(before: ActionMap, out: seq<(ActionId, Outcome)>, cur: ActionMap, a: Action, t0: int, now: int)
    requires Accounts(before, out, cur) && t0 <= now
    ensures IsReadyNow(before, a, t0) ==> IsReadyNow(cur, a, now)
  {
    ReadinessMeaning(before, a);
    ReadinessMeaning(cur, a);
    hide ReadinessIn;
    forall d | d in before && before[d].state == Done ensures d in cur && cur[d] == before[d] {
      assert !Tried(out, d);
    }
  }

  lemma TriedAppend(out: seq<(ActionId, Outcome)>, id: ActionId, r: Outcome, x: ActionId)
    ensures Tried(out + [(id, r)], x) <==> Tried(out, x) || x == id
  {
    var out' := out + [(id, r)];
    assert out'[|out|] == (id, r);
    if Tried(out, x) {
      var k :| 0 <= k < |out| && out[k].0 == x;
      assert out'[k].0 == x;
    }
  }

  lemma TriedOneMoreReady(before: ActionMap, open: seq<Action>, i: nat, out: seq<(ActionId, Outcome)>, cur: ActionMap,
                          r: Outcome, clock: nat -> int)
    requires Monotone(clock) && i < |open| && Trying(before, open, i, out, cur, clock(0))
    requires OnlyReadyTried(before, out, clock(i)) && IsReadyNow(cur, open[i], clock(i))
    requires open[i].id in cur && cur[open[i].id] == open[i] && open[i].id in before && before[open[i].id] == open[i]
    ensures OnlyReadyTried(before, out + [(open[i].id, r)], clock(i + 1))
  {
    hide OnlyReadyTried, IsReadyNow, Accounts, Tried;
    TriedWhileReady(before, out, cur, open[i].id, r, clock(i), clock(i + 1));
  }

  lemma TriedOneMore(before: ActionMap, open: seq<Action>, i: nat, out: seq<(ActionId, Outcome)>, cur: ActionMap,
                     r: Outcome,
                     after: ActionMap, t0: int)
    requires i < |open| && Trying(before, open, i, out, cur, t0)
    requires var id := open[i].id;
      !Tried(out, id) && id in before && before[id].state == Open
      && (r.Assigned? ==> r.action.state == Claimed)
      && after == if r.Assigned? then cur[id := r.action] else cur
    ensures Trying(before, open, i + 1, out + [(open[i].id, r)], after, t0)
  {
    hide Tried, IsReadyNow, OnlyTried, Accounts;
    var id := open[i].id;
    var out' := out + [(id, r)];
    forall x ensures Tried(out', x) <==> Tried(out, x) || x == id {
      TriedAppend(out, id, r, x);
    }
    AccountedOneMore(before, out, cur, id, r, after);
    OneMoreOfTheList(open, i, out, r);
  }

  lemma OneMoreOfTheList(open: seq<Action>, i: nat, out: seq<(ActionId, Outcome)>, r: Outcome)
    requires i < |open| && OnlyTried(open, i, out)
    ensures OnlyTried(open, i + 1, out + [(open[i].id, r)])
  {
    hide Tried;
    var out' := out + [(open[i].id, r)];
    OnlyTriedLater(open, i, out);
    forall id | Tried(out', id) ensures exists j :: 0 <= j < i + 1 && j < |open| && open[j].id == id {
      TriedAppend(out, open[i].id, r, id);
    }
  }

  lemma AccountedOneMore(before: ActionMap, out: seq<(ActionId, Outcome)>, cur: ActionMap, id: ActionId, r: Outcome,
                         after: ActionMap)
    requires Accounts(before, out, cur) && !Tried(out, id) && id in before && before[id].state == Open
    requires r.Assigned? ==> r.action.state == Claimed
    requires after == if r.Assigned? then cur[id := r.action] else cur
    ensures Accounts(before, out + [(id, r)], after)
  {
    var out' := out + [(id, r)];
    forall k | 0 <= k < |out| ensures out'[k] == out[k] && out[k].0 != id {
      assert Tried(out, out[k].0);
    }
    forall x ensures Tried(out', x) <==> Tried(out, x) || x == id {
      TriedAppend(out, id, r, x);
    }
    hide Tried;
  }

  lemma AnswerFacts(actions: ActionMap, lease: int, workers: WorkerMap, id: ActionId, serves: Serves, now: int,
                    r: Outcome)
    requires id in actions && Answers(actions, lease, workers, id, serves, now, r) && r.Assigned?
    ensures r.worker.id in workers && workers[r.worker.id] == r.worker
    ensures EditAction(actions, lease, id, Edit.Assign(r.worker.id, now, now)) == Ok(r.action)
  {
  }

  lemma AnswerIsClaimed(actions: ActionMap, lease: int, workers: WorkerMap, id: ActionId, serves: Serves, now: int,
                        r: Outcome)
    requires id in actions && Answers(actions, lease, workers, id, serves, now, r)
    ensures r.Assigned? ==> r.action.state == Claimed
  {
    hide PickedWell, ReadinessIn;
  }

  lemma DueIsListed(actions: ActionMap, open: seq<Action>, id: ActionId, now: int)
    requires Due(actions, id, now) && IsOpenList(actions, open)
    ensures exists j :: 0 <= j < |open| && open[j] == actions[id] && IsReadyNow(actions, open[j], now)
  {
    hide Precedes, ReadinessIn;
    if actions[id] !in open {
      var ids := seq(|open|, k requires 0 <= k < |open| => open[k].id);
      forall k | 0 <= k < |open| ensures ids[k] in Ahead(actions, id) {
        assert open[k] in open;
      }
      forall j, k | 0 <= j < k < |ids| ensures ids[j] != ids[k] {
        assert open[j] in open && open[k] in open;
      }
      NoDupBound(ids, Ahead(actions, id));
    }
  }
}
