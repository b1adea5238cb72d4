/**
 * What a sweep of expired leases does to the claims it listed, in every interleaving. The clock is read before each
 * lock, so nothing is asked of the clock but that it does not go back between the listing and the act of one sweep.
 */
module Sweeps {
  import opened Prelude
  import opened Graph
  import opened Actions
  import opened Frontier
  import opened FrontierStore
  import opened Accountability
  import opened AccountingSteps

  predicate IsClaimed(s: System, id: ActionId) {
    id in s.frontier.actions && s.frontier.actions[id].state == Claimed
  }

  /** A claim that the sweep promises to leave alone: paused, or with its lease still running. */
  predicate IsLiveClaim(s: System, id: ActionId, now: int) {
    IsClaimed(s, id) && !ExpiredClaim(s.frontier.actions[id], now)
  }

  // ---- What can keep a claim alive ----------------------------------------------------------------------

  /** The edits by which a lease starts or is renewed, or the claim is paused. */
  predicate Prolongs(e: Edit) {
    e.Claim? || e.Assign? || e.Heartbeat? || e.RenewLease? || e.SetPaused?
  }

  /** A client claims, assigns, renews, pauses or resumes the action, and is not refused. */
  predicate Touches(s: System, lease: int, step: LockStep, id: ActionId) {
    && step.Other? && step.command.EditOne? && step.command.id == id && Prolongs(step.command.edit)
    && EditAction(s.frontier.actions, lease, id, step.command.edit).Ok?
  }

  /** What the edit does to action `a` still protects its claim at `now`. */
  predicate Protects(e: Edit, a: Action, lease: int, now: int)
    requires Prolongs(e)
  {
    match e
    case Claim(_, _, t) => a.paused || now <= SatAdd(t, lease)
    case Assign(_, _, t) => a.paused || now <= SatAdd(t, lease)
    case Heartbeat(_, t) => a.paused || now <= SatAdd(t, lease)
    case RenewLease(_, t) => a.paused || now <= SatAdd(t, lease)
    case SetPaused(paused, t) => paused || now <= SatAdd(t, lease)
  }

  lemma TouchedIsProtectedExactly(s: System, lease: int, step: LockStep, s': System, id: ActionId, now: int)
    requires Moves(s, lease, step, s') && Touches(s, lease, step, id) && IsClaimed(s', id)
    ensures id in s.frontier.actions
    ensures IsLiveClaim(s', id, now) <==> Protects(step.command.edit, s.frontier.actions[id], lease, now)
  {
    hide ReadinessIn;
  }

  lemma UntouchedByEdit(actions: ActionMap, lease: int, id: ActionId, e: Edit)
    requires EditAction(actions, lease, id, e).Ok? && EditAction(actions, lease, id, e).value.state == Claimed
    requires !Prolongs(e)
    ensures id in actions
    ensures var a, a' := actions[id], EditAction(actions, lease, id, e).value;
      a.state == Claimed && a'.paused == a.paused && a'.leaseUntil == a.leaseUntil
  {
    hide ReadinessIn;
  }

  /** A claim that nobody touched was there before the step, with the same lease and pause. */
  lemma UntouchedIsAsBefore(s: System, lease: int, step: LockStep, s': System, id: ActionId)
    requires Inv(s.frontier) && Moves(s, lease, step, s') && !Touches(s, lease, step, id) && IsClaimed(s', id)
    ensures IsClaimed(s, id)
    ensures var a, a' := s.frontier.actions[id], s'.frontier.actions[id];
      a'.paused == a.paused && a'.leaseUntil == a.leaseUntil
  {
    hide EditAction, Cascaded, DepsError, ReadinessIn;
    match step
    case Other(EditOne(k, e), _) =>
      if k == id && EditAction(s.frontier.actions, lease, id, e).Ok? {
        UntouchedByEdit(s.frontier.actions, lease, id, e);
      }
    case Other(Cascade(now), next) => CascadeClaimsNothing(s.frontier, next.actions, now, id);
    case Other(_, _) =>
    case CascadeNow(_, now, after) => CascadeClaimsNothing(s.frontier, after, now, id);
    case Act(c, now) =>
      if s.calls[c].id == id && EditAction(s.frontier.actions, lease, id, ActEdit(s.calls[c], now)).Ok? {
        UntouchedByEdit(s.frontier.actions, lease, id, ActEdit(s.calls[c], now));
      }
    case Note(c) =>
      var e := Edit.SetFailureKind(s.calls[c].effective);
      if s.calls[c].id == id && EditAction(s.frontier.actions, lease, id, e).Ok? {
        UntouchedByEdit(s.frontier.actions, lease, id, e);
      }
    case _ =>
  }

  lemma CascadeClaimsNothing(s: State, after: ActionMap, now: int, id: ActionId)
    requires Inv(s) && Cascaded(s.actions, after, now) && id in after && after[id].state == Claimed
    ensures id in s.actions && after[id] == s.actions[id]
  {
    hide Doomed, Acyclic;
  }

  // ---- The calls of a sweep ------------------------------------------------------------------------------

  /** The call accounts this action for the sweep that listed it, however far it has come. */
  predicate Accounts(s: System, c: CallId, id: ActionId) {
    && c in s.calls
    && match s.calls[c]
       case Listed(k) => k == id
       case Read(k, kind, _, _) => k == id && kind == LeaseExpiredFailure
       case Acted(k, _, _) => k == id
       case _ => true
  }

  predicate Lists(step: LockStep, c: CallId, id: ActionId, t: int) {
    step.Listing? && c in step.plan && step.plan[c] == id && step.now == t
  }

  lemma {:induction false} CallStaysOn(states: seq<System>, lease: int, steps: seq<LockStep>, c: CallId, id: ActionId,
                                       t: int,
                                      l: nat, n: nat)
    requires IsTrace(states, lease, steps) && l < n <= |steps| && Lists(steps[l], c, id, t)
    ensures Accounts(states[n], c, id)
  {
    hide Inv, EditAction, Step, Cascaded;
    assert Moves(states[n - 1], lease, steps[n - 1], states[n - 1 + 1]);
    if l < n - 1 {
      CallStaysOn(states, lease, steps, c, id, t, l, n - 1);
    }
  }

  /** Every call that a sweep has under way in an execution comes from a listing of this action. */
  lemma {:induction false} ListedBefore(states: seq<System>, lease: int, steps: seq<LockStep>, c: CallId,
                                        n: nat) returns (l: nat)
    requires IsExecution(states, lease, steps) && n < |states| && c in states[n].calls && states[n].calls[c].Listed?
    ensures l < n && steps[l].Listing? && c in steps[l].plan && steps[l].plan[c] == states[n].calls[c].id
  {
    hide Inv, EditAction, Step, Cascaded;
    assert Moves(states[n - 1], lease, steps[n - 1], states[n - 1 + 1]);
    if c in states[n - 1].calls {
      l := ListedBefore(states, lease, steps, c, n - 1);
    } else {
      l := n - 1;
    }
  }

  // ---- The last touch --------------------------------------------------------------------------------------

  /** The last touch of the action after step `l` and before step `n`. */
  ghost predicate LastTouch(states: seq<System>, lease: int, steps: seq<LockStep>, id: ActionId, l: nat, k: nat, n: nat)
    requires |states| == |steps| + 1 && n <= |steps|
  {
    && l < k < n && Touches(states[k], lease, steps[k], id)
    && forall j :: k < j < n ==> !Touches(states[j], lease, steps[j], id)
  }

  /** A claim was there after its last touch, and ever since with the same lease and pause. */
  lemma {:induction false} UntouchedSince(states: seq<System>, lease: int, steps: seq<LockStep>, id: ActionId, k: nat,
                                          n: nat)
    requires IsTrace(states, lease, steps) && k <= n <= |steps| && IsClaimed(states[n], id)
    requires forall j :: k <= j < n ==> !Touches(states[j], lease, steps[j], id)
    ensures IsClaimed(states[k], id)
    ensures forall now :: IsLiveClaim(states[n], id, now) <==> IsLiveClaim(states[k], id, now)
    decreases n - k
  {
    hide Inv, Moves, Touches;
    if k < n {
      ExecutionKeepsInv(states, lease, steps, n - 1);
      assert Moves(states[n - 1], lease, steps[n - 1], states[n - 1 + 1]);
      UntouchedIsAsBefore(states[n - 1], lease, steps[n - 1], states[n], id);
      UntouchedSince(states, lease, steps, id, k, n - 1);
    }
  }

  lemma {:induction false} FindLastTouch(states: seq<System>, lease: int, steps: seq<LockStep>, id: ActionId, l: nat,
                                         n: nat)
    returns (k: nat)
    requires |states| == |steps| + 1 && l < n <= |steps|
    ensures l <= k < n && (k == l || LastTouch(states, lease, steps, id, l, k, n))
    ensures forall j :: k < j < n ==> !Touches(states[j], lease, steps[j], id)
  {
    hide Touches;
    k := n - 1;
    if l < k && !Touches(states[k], lease, steps[k], id) {
      k := FindLastTouch(states, lease, steps, id, l, n - 1);
    }
  }

  /** The last touch since the listing protects the claim at `now`. */
  ghost predicate ProtectedSince(states: seq<System>, lease: int, steps: seq<LockStep>, id: ActionId, l: nat, n: nat,
                                 now: int)
    requires |states| == |steps| + 1 && n <= |steps|
  {
    exists k: nat :: LastTouch(states, lease, steps, id, l, k, n) && id in states[k].frontier.actions
      && Protects(steps[k].command.edit, states[k].frontier.actions[id], lease, now)
  }

  /**
   * When a sweep acts on an action it listed, whatever ran in between, it takes a live claim exactly when the action
   * is claimed and the last claim, assignment, heartbeat, renewal, pause or resume since the listing paused it, left
   * it paused, or has a lease that still runs.
   */
  lemma SweepTakesLiveClaimExactly(states: seq<System>, lease: int, steps: seq<LockStep>, c: CallId, id: ActionId,
                                   t: int,
                                   l: nat, n: nat)
    requires IsTrace(states, lease, steps) && l < n < |steps|
    requires Lists(steps[l], c, id, t) && steps[n].Act? && steps[n].call == c && t <= steps[n].now
    ensures WorksOn(states[n], steps[n], id)
    ensures IsClaimed(states[n], id) ==> !IsClaimed(states[n + 1], id)
    ensures IsLiveClaim(states[n], id, steps[n].now)
      <==> IsClaimed(states[n], id) && ProtectedSince(states, lease, steps, id, l, n, steps[n].now)
  {
    hide Inv, Moves, Touches, Protects, LastTouch;
    CallStaysOn(states, lease, steps, c, id, t, l, n);
    assert Moves(states[n], lease, steps[n], states[n + 1]);
    ActTakes(states[n], lease, steps[n], states[n + 1], c, id);
    if IsClaimed(states[n], id) {
      var now := steps[n].now;
      var k := FindLastTouch(states, lease, steps, id, l, n);
      UntouchedSince(states, lease, steps, id, k + 1, n);
      assert Moves(states[k], lease, steps[k], states[k + 1]);
      if k == l {
        ListingFindsExpired(states[l], lease, steps[l], states[l + 1], c, id, t);
        assert !IsLiveClaim(states[n], id, now);
        NoTouchNoProtection(states, lease, steps, id, l, n, now);
      } else {
        LastTouchIsTouch(states, lease, steps, id, l, k, n);
        TouchedIsProtectedExactly(states[k], lease, steps[k], states[k + 1], id, now);
        OneLastTouch(states, lease, steps, id, l, k, n, now);
      }
    }
  }

  lemma ActTakes(s: System, lease: int, step: LockStep, s': System, c: CallId, id: ActionId)
    requires Moves(s, lease, step, s') && step.Act? && step.call == c && Accounts(s, c, id)
    ensures WorksOn(s, step, id)
    ensures IsClaimed(s, id) ==> !IsClaimed(s', id)
  {
  }

  lemma ListingFindsExpired(s: System, lease: int, step: LockStep, s': System, c: CallId, id: ActionId, t: int)
    requires Moves(s, lease, step, s') && Lists(step, c, id, t)
    ensures id in s.frontier.actions && ExpiredClaim(s.frontier.actions[id], t) && s'.frontier == s.frontier
  {
    assert id in step.plan.Values;
  }

  lemma LastTouchIsTouch(states: seq<System>, lease: int, steps: seq<LockStep>, id: ActionId, l: nat, k: nat, n: nat)
    requires |states| == |steps| + 1 && n <= |steps| && LastTouch(states, lease, steps, id, l, k, n)
    ensures l < k < n && Touches(states[k], lease, steps[k], id)
  {
  }

  lemma NoTouchNoProtection(states: seq<System>, lease: int, steps: seq<LockStep>, id: ActionId, l: nat, n: nat,
                            now: int)
    requires |states| == |steps| + 1 && n <= |steps|
    requires forall j :: l < j < n ==> !Touches(states[j], lease, steps[j], id)
    ensures !ProtectedSince(states, lease, steps, id, l, n, now)
  {
    hide Touches, Protects;
  }

  lemma OneLastTouch(states: seq<System>, lease: int, steps: seq<LockStep>, id: ActionId, l: nat, k: nat, n: nat,
                     now: int)
    requires |states| == |steps| + 1 && n <= |steps| && LastTouch(states, lease, steps, id, l, k, n)
    requires id in states[k].frontier.actions && Prolongs(steps[k].command.edit)
    ensures ProtectedSince(states, lease, steps, id, l, n, now)
      <==> Protects(steps[k].command.edit, states[k].frontier.actions[id], lease, now)
  {
    hide Touches, Protects;
    forall m | LastTouch(states, lease, steps, id, l, m, n) ensures m == k {
    }
  }
}
