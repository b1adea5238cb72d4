/** Who gets the work, and what happens to an action whose worker fails. */
module Dispatch {
  import opened Prelude
  import opened Actions
  import opened Frontier
  import opened FrontierStore

  const DEFAULT_BLACKLIST_SECS: int := 60
  const LEASE_EXPIRED_REASON: string := "lease_expired"

  datatype Worker = Worker(id: string, capabilities: seq<string>, maxLoad: nat, blacklistedUntil: Option<int>)

  type WorkerMap = map<string, Worker>

  /** `serves(c, n)`: capability `c` satisfies need `n` (a case-insensitive match of the texts). */
  type Serves = (string, string) -> bool

  predicate Available(w: Worker, now: int) {
    w.blacklistedUntil.None? || now >= w.blacklistedUntil.value
  }

  predicate Matches(w: Worker, required: seq<string>, serves: Serves) {
    forall n :: n in required ==> exists c :: c in w.capabilities && serves(c, n)
  }

  // ---- Load ------------------------------------------------------------------------------

  predicate LoadsWorker(a: Action, worker: string, now: int) {
    HoldsLiveClaim(a, now) && (a.assignee == Some(worker) || a.claimedBy == Some(worker))
  }

  /** The live claims of a worker. */
  function LoadSet(actions: ActionMap, worker: string, now: int): set<ActionId> {
    set id | id in actions && LoadsWorker(actions[id], worker, now)
  }

  /** A worker's load: what it holds as assignee or claimer, while it is not paused and its lease still runs. */
  lemma LoadsExactly(actions: ActionMap, w: string, now: int, id: ActionId)
    ensures id in LoadSet(actions, w, now) <==>
      && id in actions && actions[id].state == Claimed && !actions[id].paused
      && (actions[id].leaseUntil.Some? ==> now <= actions[id].leaseUntil.value)
      && (actions[id].assignee == Some(w) || actions[id].claimedBy == Some(w))
  {
  }

  function ClaimedIds(actions: ActionMap): set<ActionId> {
    set id | id in actions && actions[id].state == Claimed
  }

  lemma ClaimedAreLive(actions: ActionMap)
    ensures |ClaimedIds(actions)| <= |LiveIds(actions)|
  {
    SubsetSize(ClaimedIds(actions), LiveIds(actions));
  }

  /** The load as the dispatcher counts it, over a listing of at most a hundred claimed actions. */
  method LoadOf(frontier: ActionFrontier, worker: string, now: int) returns (load: nat)
    requires frontier.Valid()
    ensures load <= |LoadSet(frontier.actions, worker, now)|
    ensures |ClaimedIds(frontier.actions)| <= LIST_LIMIT ==> load == |LoadSet(frontier.actions, worker, now)|
  {
    hide Inv, LoadSet, ClaimedIds, Counted, Precedes;
    var listed := frontier.List(Some(Claimed), 1000);
    var counted: set<ActionId> := {};
    CountedNone(frontier.actions, worker, now, listed);
    var i := 0;
    while i < |listed|
      invariant 0 <= i <= |listed|
      invariant counted == Counted(frontier.actions, worker, now, listed[..i])
    {
      var a := listed[i];
      assert a in listed;
      CountedOneMore(frontier.View(), worker, now, listed, i);
      if HoldsLiveClaim(a, now) && (a.assignee == Some(worker) || a.claimedBy == Some(worker)) {
        counted := counted + {a.id};
      }
      i := i + 1;
    }
    assert listed[..i] == listed;
    load := |counted|;
    CountedInFull(frontier.actions, worker, now, listed);
  }

  /** The live claims of a worker among those listed. */
  ghost function Counted(actions: ActionMap, worker: string, now: int, listed: seq<Action>): set<ActionId> {
    set id | id in LoadSet(actions, worker, now) && id in actions && actions[id] in listed
  }

  lemma CountedNone(actions: ActionMap, worker: string, now: int, listed: seq<Action>)
    ensures Counted(actions, worker, now, listed[..0]) == {}
  {
  }

  lemma CountedOneMore(s: State, worker: string, now: int, listed: seq<Action>, i: nat)
    requires Inv(s) && i < |listed| && listed[i].id in s.actions && s.actions[listed[i].id] == listed[i]
    ensures Counted(s.actions, worker, now, listed[..i + 1])
         == Counted(s.actions, worker, now, listed[..i])
           + if LoadsWorker(listed[i], worker, now) then {listed[i].id} else {}
  {
    var a := listed[i];
    IdsIdentify(s, a);
    hide Inv, LoadsWorker;
    assert forall x :: x in listed[..i + 1] <==> x in listed[..i] || x == a;
  }

  lemma CountedInFull(actions: ActionMap, worker: string, now: int, listed: seq<Action>)
    requires NoDup(listed) && forall a :: a in listed ==> a.id in actions && actions[a.id] == a && a.state == Claimed
    requires forall id :: id in actions && actions[id].state == Claimed && actions[id] !in listed ==>
      |listed| == LIST_LIMIT
    ensures |Counted(actions, worker, now, listed)| <= |LoadSet(actions, worker, now)|
    ensures |ClaimedIds(actions)| <= LIST_LIMIT ==>
      |Counted(actions, worker, now, listed)| == |LoadSet(actions, worker, now)|
  {
    hide ClaimedIds;
    SubsetSize(Counted(actions, worker, now, listed), LoadSet(actions, worker, now));
    if |ClaimedIds(actions)| <= LIST_LIMIT {
      AllAreListed(actions, listed);
      assert Counted(actions, worker, now, listed) == LoadSet(actions, worker, now);
    }
  }

  lemma IdsIdentify(s: State, a: Action)
    requires Inv(s) && a.id in s.actions && s.actions[a.id] == a
    ensures forall id :: id in s.actions && s.actions[id] == a ==> id == a.id
  {
  }

  /** With at most a hundred claimed actions the listing is complete. */
  lemma AllAreListed(actions: ActionMap, listed: seq<Action>)
    requires |ClaimedIds(actions)| <= LIST_LIMIT && NoDup(listed)
    requires forall a :: a in listed ==> a.id in actions && actions[a.id] == a && a.state == Claimed
    requires forall id :: id in actions && actions[id].state == Claimed && actions[id] !in listed ==>
      |listed| == LIST_LIMIT
    ensures forall id :: id in actions && actions[id].state == Claimed ==> actions[id] in listed
  {
    if id :| id in actions && actions[id].state == Claimed && actions[id] !in listed {
      assert id in ClaimedIds(actions);
      var ids := seq(|listed|, i requires 0 <= i < |listed| => listed[i].id);
      forall i, j | 0 <= i < j < |ids|
        ensures ids[i] != ids[j]
      {
        assert listed[i] in listed && listed[j] in listed;
      }
      forall x | x in Elems(ids)
        ensures x in ClaimedIds(actions) - {id}
      {
        var i :| 0 <= i < |ids| && ids[i] == x;
        assert listed[i] in listed;
      }
      NoDupBound(ids, ClaimedIds(actions) - {id});
    }
  }

  // ---- Choosing a worker -------------------------------------------------------------------

  predicate LexLess(a: string, b: string) {
    b != [] && (a == [] || a[0] < b[0] || (a[0] == b[0] && LexLess(a[1..], b[1..])))
  }

  lemma {:induction false} LexTotal(a: string, b: string)
    ensures a == b || LexLess(a, b) || LexLess(b, a)
  {
    if a != [] && b != [] && a[0] == b[0] {
      LexTotal(a[1..], b[1..]);
      assert a == [a[0]] + a[1..] && b == [b[0]] + b[1..];
    }
  }

  lemma {:induction false} LexTransitive(a: string, b: string, c: string)
    requires LexLess(a, b) && LexLess(b, c)
    ensures LexLess(a, c)
  {
    if a != [] && b[0] == a[0] && c[0] == b[0] {
      LexTransitive(a[1..], b[1..], c[1..]);
    }
  }

  /** Less loaded first, then the smaller id. */
  predicate Preferred(load1: nat, id1: string, load2: nat, id2: string) {
    load1 < load2 || (load1 == load2 && LexLess(id1, id2))
  }

  class WorkerRegistry {
    var workers: WorkerMap

    ghost predicate Valid()
      reads this
    {
      forall w :: w in workers ==> workers[w].id == w && workers[w].maxLoad >= 1
    }

    constructor ()
      ensures Valid() && workers == map[]
    {
      workers := map[];
    }

    method Register(id: string, capabilities: seq<string>, maxLoad: Option<nat>) returns (ok: bool)
      requires Valid()
      modifies this
      ensures Valid()
      ensures ok <==> id != ""
      ensures !ok ==> workers == old(workers)
      ensures ok ==>
        id in workers && workers[id].capabilities == capabilities && workers == old(workers)[id := workers[id]]
      ensures ok && maxLoad.Some? ==> workers[id].maxLoad == if maxLoad.value < 1 then 1 else maxLoad.value
      ensures ok && maxLoad.None? ==> workers[id].maxLoad == if id in old(workers) then old(workers)[id].maxLoad else 3
      ensures ok ==>
        workers[id].blacklistedUntil == if id in old(workers) then old(workers)[id].blacklistedUntil else None
    {
      if id == "" {
        return false;
      }
      var bounded := if maxLoad.Some? && maxLoad.value < 1 then Some(1) else maxLoad;
      if id in workers {
        var w := workers[id].(capabilities := capabilities);
        if bounded.Some? {
          w := w.(maxLoad := bounded.value);
        }
        workers := workers[id := w];
      } else {
        workers := workers[id := Worker(id, capabilities, if bounded.Some? then bounded.value else 3, None)];
      }
      ok := true;
    }

    method Blacklist(id: string, secs: int, now: int)
      requires Valid()
      modifies this
      ensures Valid()
      ensures workers == if id in old(workers) then
        old(workers)[id := old(workers)[id].(blacklistedUntil := Some(SatAdd(now, if secs < 0 then 0 else secs)))]
        else old(workers)
    {
      if id in workers {
        workers := workers[id := workers[id].(blacklistedUntil := Some(SatAdd(now, if secs < 0 then 0 else secs)))];
      }
    }

    /** The worker to take an action: capable, available, below its limit; least loaded, then smallest id. */
    method Pick(frontier: ActionFrontier, required: seq<string>, serves: Serves, now: int) returns (r: Option<Worker>)
      requires Valid() && frontier.Valid()
      ensures r.Some? ==> r.value.id in workers && workers[r.value.id] == r.value
      ensures r.Some? ==> Available(r.value, now) && Matches(r.value, required, serves)
      ensures |ClaimedIds(frontier.actions)| <= LIST_LIMIT ==>
        PickedWell(frontier.actions, workers, required, serves, now, r)
    {
      hide LoadsWorker, LexLess, Matches, frontier.Valid;
      r := None;
      var load: nat := 0;
      var seen: set<string> := {};
      var remaining := workers.Keys;
      while remaining != {}
        invariant remaining <= workers.Keys && seen == workers.Keys - remaining
        invariant r.Some? ==> r.value.id in seen && workers[r.value.id] == r.value
        invariant r.Some? ==> Available(r.value, now) && Matches(r.value, required, serves)
        invariant |ClaimedIds(frontier.actions)| <= LIST_LIMIT ==>
          BestAmong(frontier.actions, workers, required, serves, now, r, load, seen)
        decreases remaining
      {
        var id :| id in remaining;
        remaining := remaining - {id};
        ghost var before := seen;
        seen := seen + {id};
        var w := workers[id];
        if Available(w, now) && Matches(w, required, serves) {
          var l := LoadOf(frontier, id, now);
          BestAmongOneMore(frontier.actions, workers, required, serves, now, r, load, before, id, l);
          if l < w.maxLoad && (r.None? || Preferred(l, id, load, r.value.id)) {
            r, load := Some(w), l;
          }
        }
      }
      assert seen == workers.Keys;
    }
  }

  predicate Eligible(actions: ActionMap, w: Worker, required: seq<string>, serves: Serves, now: int) {
    Available(w, now) && Matches(w, required, serves) && |LoadSet(actions, w.id, now)| < w.maxLoad
  }

  /** `r`, with its load, is the preferred one of the eligible workers among `ids`. */
  ghost predicate BestAmong(actions: ActionMap, workers: WorkerMap, required: seq<string>, serves: Serves, now: int,
                            r: Option<Worker>, load: nat, ids: set<string>)
  {
    && (r.None? ==> forall id :: id in ids && id in workers ==> !Eligible(actions, workers[id], required, serves, now))
    && (r.Some? ==>
          && r.value.id in ids && r.value.id in workers && workers[r.value.id] == r.value
          && load == |LoadSet(actions, r.value.id, now)|
          && Eligible(actions, r.value, required, serves, now)
          && forall id ::
             id in ids && id in workers && id != r.value.id && Eligible(actions, workers[id], required, serves, now) ==>
               Preferred(load, r.value.id, |LoadSet(actions, id, now)|, id))
  }

  ghost predicate PickedWell(actions: ActionMap, workers: WorkerMap, required: seq<string>, serves: Serves, now: int,
                             r: Option<Worker>)
  {
    exists load :: BestAmong(actions, workers, required, serves, now, r, load, workers.Keys)
  }

  /** Texts are ordered by their first difference; a proper prefix comes first. */
  lemma {:induction false} LexLessExactly(a: string, b: string)
    ensures LexLess(a, b) <==> exists k: nat :: FirstDifference(a, b, k) && k < |b| && (k == |a| || a[k] < b[k])
  {
    if a != [] && b != [] && a[0] == b[0] {
      LexLessExactly(a[1..], b[1..]);
      forall k: nat ensures FirstDifference(a[1..], b[1..], k) <==> FirstDifference(a, b, k + 1) {
        OneFurther(a, b, k);
      }
      if LexLess(a, b) {
        var k: nat :| FirstDifference(a[1..], b[1..], k) && k < |b[1..]| && (k == |a[1..]| || a[1..][k] < b[1..][k]);
        assert FirstDifference(a, b, k + 1);
      }
      if k: nat :| FirstDifference(a, b, k) && k < |b| && (k == |a| || a[k] < b[k]) {
        assert FirstDifference(a[1..], b[1..], k - 1);
      }
    } else {
      forall k: nat | FirstDifference(a, b, k) ensures k == 0 {
      }
      assert FirstDifference(a, b, 0);
    }
  }

  lemma OneFurther(a: string, b: string, k: nat)
    requires a != [] && b != [] && a[0] == b[0]
    ensures FirstDifference(a[1..], b[1..], k) <==> FirstDifference(a, b, k + 1)
  {
    if k < |a| && k < |b| {
      assert a[..k + 1] == [a[0]] + a[1..][..k] && b[..k + 1] == [b[0]] + b[1..][..k];
    }
  }

  ghost predicate FirstDifference(a: string, b: string, k: nat) {
    k <= |a| && k <= |b| && a[..k] == b[..k] && (k < |a| && k < |b| ==> a[k] != b[k])
  }

  /**
   * The worker picked is registered, not barred at the time, has every capability asked for, and carries less than its
   * limit; no other such worker carries less, and none that carries as much has an id that comes first.
   */
  lemma PickedIsLeastLoaded(actions: ActionMap, workers: WorkerMap, required: seq<string>, serves: Serves, now: int,
                            w: Worker, other: string)
    requires PickedWell(actions, workers, required, serves, now, Some(w)) && other in workers
    ensures w.id in workers && workers[w.id] == w
    ensures w.blacklistedUntil.Some? ==> w.blacklistedUntil.value <= now
    ensures forall n :: n in required ==> exists c :: c in w.capabilities && serves(c, n)
    ensures |LoadSet(actions, w.id, now)| < w.maxLoad
    ensures var rival, load, its := workers[other], |LoadSet(actions, w.id, now)|, |LoadSet(actions, other, now)|;
      && rival.id == other && (rival.blacklistedUntil.Some? ==> rival.blacklistedUntil.value <= now)
      && (forall n :: n in required ==> exists c :: c in rival.capabilities && serves(c, n))
      && its < rival.maxLoad
      ==> load <= its && (load == its && other != w.id ==> LexLess(w.id, other))
  {
    hide LoadSet, LexLess;
  }

  /** No worker is picked exactly when none of them is capable, available and below its limit. */
  lemma NobodyIsPickedExactly(actions: ActionMap, workers: WorkerMap, required: seq<string>, serves: Serves, now: int)
    ensures PickedWell(actions, workers, required, serves, now, None) <==>
      forall w :: w in workers ==> !Eligible(actions, workers[w], required, serves, now)
  {
    hide Eligible;
    if forall w :: w in workers ==> !Eligible(actions, workers[w], required, serves, now) {
      assert BestAmong(actions, workers, required, serves, now, None, 0, workers.Keys);
    }
  }

  lemma BestAmongOneMore(actions: ActionMap, workers: WorkerMap, required: seq<string>, serves: Serves, now: int,
                         r: Option<Worker>, load: nat, ids: set<string>, id: string, l: nat)
    requires id in workers && workers[id].id == id && id !in ids
    requires Available(workers[id], now) && Matches(workers[id], required, serves)
    ensures |ClaimedIds(actions)| <= LIST_LIMIT && l == |LoadSet(actions, id, now)| ==>
      BestAmong(actions, workers, required, serves, now, r, load, ids) ==>
      var better := l < workers[id].maxLoad && (r.None? || Preferred(l, id, load, r.value.id));
      BestAmong(actions, workers, required, serves, now, if better then Some(workers[id]) else r,
                if better then l else load, ids + {id})
  {
    hide LoadSet, ClaimedIds, Matches, LexLess;
    if r.Some? {
      LexTotal(id, r.value.id);
      forall other | other in ids && LexLess(id, r.value.id) && LexLess(r.value.id, other)
        ensures LexLess(id, other)
      {
        LexTransitive(id, r.value.id, other);
      }
    }
  }
}
