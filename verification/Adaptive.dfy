/** Momentum-driven parameters, learned from outcomes and carried across restarts. */
module Adaptive {
  import opened Outcomes
  import opened Prelude

  datatype Param =
    | FissionEntropyThreshold
    | FissionMinClusterSize
    | MergeDistance
    | MergeLabelSimilarity
    | DreamInterval
    | EvictionMassThreshold
    | PulseBudget

  /** One row of the parameter table. */
  datatype Tuning = Tuning(initial: real, min: real, max: real, rate: real, key: string)

  const ALL: seq<Param> := [
    FissionEntropyThreshold, FissionMinClusterSize, MergeDistance, MergeLabelSimilarity,
    DreamInterval, EvictionMassThreshold, PulseBudget]

  function TuningOf(p: Param): Tuning {
    match p
    case FissionEntropyThreshold => Tuning(0.3, 0.1, 0.8, 0.02, "fission_entropy")
    case FissionMinClusterSize => Tuning(6.0, 3.0, 15.0, 0.01, "fission_min_size")
    case MergeDistance => Tuning(5.0, 2.0, 15.0, 0.03, "merge_distance")
    case MergeLabelSimilarity => Tuning(0.2, 0.05, 0.5, 0.02, "merge_label_sim")
    case DreamInterval => Tuning(50.0, 20.0, 200.0, 0.05, "dream_interval")
    case EvictionMassThreshold => Tuning(0.3, 0.1, 0.6, 0.01, "evict_mass")
    case PulseBudget => Tuning(3.0, 1.0, 6.0, 0.02, "pulse_budget")
  }

  /** Defaults lie inside their bounds, rates are positive, and no two parameters share a snapshot key. */
  lemma TableIsUsable(p: Param, q: Param)
    ensures var t := TuningOf(p); t.min <= t.initial <= t.max && t.rate > 0.0
    ensures TuningOf(p).key == TuningOf(q).key ==> p == q
  {
    var a, b := TuningOf(p).key, TuningOf(q).key;
    assert p != q ==> |a| != |b| || a[0] != b[0];
  }

  datatype ParamState = ParamState(value: real, momentum: real)

  function Gradient(effectiveness: real): real {
    (effectiveness - 0.5) * 2.0
  }

  function Momentum(momentum: real, gradient: real, rate: real): real {
    momentum * 0.8 + gradient * rate
  }

  /** One step of one parameter. */
  function Adapted(p: Param, s: ParamState, effectiveness: real): ParamState {
    var t := TuningOf(p);
    var momentum := Momentum(s.momentum, Gradient(effectiveness), t.rate);
    ParamState(Clamp(s.value + momentum, t.min, t.max), momentum)
  }

  type Params = map<Param, ParamState>

  function AdaptOne(s: Params, p: Param, effectiveness: real): Params {
    if p in s then s[p := Adapted(p, s[p], effectiveness)] else s
  }

  /** What an outcome teaches: the main parameter at full strength, the second one at half. */
  function AfterOutcome(s: Params, action: ActionType, effectiveness: real): Params {
    match action
    case Fission => AdaptOne(AdaptOne(s, FissionEntropyThreshold, effectiveness), FissionMinClusterSize,
                             effectiveness * 0.5)
    case Merge => AdaptOne(AdaptOne(s, MergeDistance, effectiveness), MergeLabelSimilarity, effectiveness * 0.5)
    case Dream => AdaptOne(s, DreamInterval, effectiveness)
    case Evict => AdaptOne(s, EvictionMassThreshold, effectiveness)
    case Pulse => AdaptOne(s, PulseBudget, effectiveness)
    case Link => s
  }

  function Fresh(): Params {
    map p: Param | p in ALL :: ParamState(TuningOf(p).initial, 0.0)
  }

  // ---- Snapshots -------------------------------------------------------------------------------------

  datatype Json = Null | Number(n: real) | Text(s: string) | List(items: seq<Json>) | Object(fields: map<string, Json>)

  function ItemAsNumber(items: seq<Json>, i: nat): Option<real> {
    if i < |items| && items[i].Number? then Some(items[i].n) else None
  }

  /** What a snapshot says about one parameter, brought back into its bounds; `None` when it says nothing usable. */
  function Entry(snapshot: Json, p: Param): Option<ParamState> {
    var t := TuningOf(p);
    if snapshot.Object? && t.key in snapshot.fields && snapshot.fields[t.key].List? then
      var pair := snapshot.fields[t.key].items;
      match ItemAsNumber(pair, 0)
      case None => None
      case Some(value) =>
        var momentum := match ItemAsNumber(pair, 1) case None => 0.0 case Some(m) => m;
        Some(ParamState(Clamp(value, t.min, t.max), Clamp(momentum, -5.0 * t.rate, 5.0 * t.rate)))
    else None
  }

  function ToJson(s: Params): Json {
    Object(map p: Param | p in ALL :: TuningOf(p).key := Pair(s, p))
  }

  function Pair(s: Params, p: Param): Json {
    var state := if p in s then s[p] else ParamState(TuningOf(p).initial, 0.0);
    List([Number(state.value), Number(state.momentum)])
  }

  // ---- The store ---------------------------------------------------------------------------------------

  /** The parameters as the engine holds and adapts them. */
  class AdaptiveParams {
    var params: Params

    constructor ()
      ensures params == Fresh()
    {
      params := map p: Param | p in ALL :: ParamState(TuningOf(p).initial, 0.0);
    }

    method Adapt(p: Param, effectiveness: real)
      modifies this
      ensures params == AdaptOne(old(params), p, effectiveness)
    {
      hide TuningOf, Clamp, Gradient, Momentum;
      if p in params {
        var t := TuningOf(p);
        var state := params[p];
        var gradient := Gradient(effectiveness);
        state := state.(momentum := Momentum(state.momentum, gradient, t.rate));
        state := state.(value := state.value + state.momentum);
        state := state.(value := Clamp(state.value, t.min, t.max));
        params := params[p := state];
      }
    }

    method AdaptFromOutcome(action: ActionType, effectiveness: real)
      modifies this
      ensures params == AfterOutcome(old(params), action, effectiveness)
    {
      match action
      case Fission =>
        Adapt(FissionEntropyThreshold, effectiveness);
        Adapt(FissionMinClusterSize, effectiveness * 0.5);
      case Merge =>
        Adapt(MergeDistance, effectiveness);
        Adapt(MergeLabelSimilarity, effectiveness * 0.5);
      case Dream => Adapt(DreamInterval, effectiveness);
      case Evict => Adapt(EvictionMassThreshold, effectiveness);
      case Pulse => Adapt(PulseBudget, effectiveness);
      case Link =>
    }

    /** Take over what a snapshot says; report for how many parameters it said something usable. */
    method RestoreJson(snapshot: Json) returns (restored: nat)
      modifies this
      ensures params == Restored(old(params), snapshot)
      ensures restored == |Mentioned(snapshot)|
    {
      hide Entry, TuningOf;
      restored := 0;
      ghost var before := params;
      ghost var seen: set<Param> := {};
      NothingRestored(before, snapshot);
      for k := 0 to |ALL|
        invariant seen == set j | 0 <= j < k :: ALL[j]
        invariant params == RestoredAmong(before, snapshot, seen)
        invariant restored == |Mentioned(snapshot) * seen|
      {
        var p := ALL[k];
        AllOnce(k);
        RestoreOneMore(before, snapshot, seen, p);
        var entry := Entry(snapshot, p);
        if entry.Some? {
          params := params[p := entry.value];
          restored := restored + 1;
        }
        seen := seen + {p};
      }
      AllCovered(seen);
      EverythingRestored(before, snapshot, seen);
    }
  }

  lemma NothingRestored(s: Params, snapshot: Json)
    ensures RestoredAmong(s, snapshot, {}) == s
    ensures Mentioned(snapshot) * {} == {}
  {
  }

  lemma RestoreOneMore(s: Params, snapshot: Json, seen: set<Param>, p: Param)
    requires p !in seen
    ensures var entry := Entry(snapshot, p);
      && RestoredAmong(s, snapshot, seen + {p})
         == (if entry.Some? then RestoredAmong(s, snapshot, seen)[p := entry.value]
             else RestoredAmong(s, snapshot, seen))
      && |Mentioned(snapshot) * (seen + {p})| == |Mentioned(snapshot) * seen| + if entry.Some? then 1 else 0
  {
    hide Entry;
    if Entry(snapshot, p).Some? {
      assert Mentioned(snapshot) * (seen + {p}) == Mentioned(snapshot) * seen + {p};
    } else {
      assert Mentioned(snapshot) * (seen + {p}) == Mentioned(snapshot) * seen;
    }
  }

  lemma EverythingRestored(s: Params, snapshot: Json, seen: set<Param>)
    requires forall p: Param :: p in seen
    ensures RestoredAmong(s, snapshot, seen) == Restored(s, snapshot)
    ensures Mentioned(snapshot) * seen == Mentioned(snapshot)
  {
    hide Entry;
  }

  lemma AllOnce(k: nat)
    requires k < |ALL|
    ensures forall j :: 0 <= j < k ==> ALL[j] != ALL[k]
  {
  }

  lemma AllCovered(seen: set<Param>)
    requires seen == set j | 0 <= j < |ALL| :: ALL[j]
    ensures forall p: Param :: p in seen
  {
    assert ALL[0] in seen && ALL[1] in seen && ALL[2] in seen && ALL[3] in seen;
    assert ALL[4] in seen && ALL[5] in seen && ALL[6] in seen;
    forall p: Param ensures p in seen {
      match p
      case FissionEntropyThreshold =>
      case FissionMinClusterSize =>
      case MergeDistance =>
      case MergeLabelSimilarity =>
      case DreamInterval =>
      case EvictionMassThreshold =>
      case PulseBudget =>
    }
  }

  /** The parameters a snapshot says something usable about. */
  function Mentioned(snapshot: Json): set<Param> {
    set p: Param | Entry(snapshot, p).Some?
  }

  /** The parameters after a restore: the snapshot's entry where there is one, the old state elsewhere. */
  function Restored(s: Params, snapshot: Json): Params {
    map p: Param | p in s || p in Mentioned(snapshot) ::
      if p in Mentioned(snapshot) then Entry(snapshot, p).value else s[p]
  }

  ghost function RestoredAmong(s: Params, snapshot: Json, seen: set<Param>): Params {
    map p: Param | p in s || p in Mentioned(snapshot) * seen ::
      if p in Mentioned(snapshot) * seen then Entry(snapshot, p).value else s[p]
  }

  // ---- Runs ----------------------------------------------------------------------------------------------

  /** One recorded action with what was seen of its effect. */
  datatype Outcome = Outcome(action: ActionType, seen: Observation)

  predicate Recorded(run: seq<Outcome>) {
    forall o :: o in run ==> Plausible(o.seen)
  }

  function AfterOne(s: Params, o: Outcome): Params
    requires Plausible(o.seen)
  {
    AfterOutcome(s, o.action, Effectiveness(o.action, o.seen))
  }

  function AfterAll(s: Params, run: seq<Outcome>): Params
    requires Recorded(run)
  {
    if run == [] then s
    else
      assert run[|run| - 1] in run;
      AfterOne(AfterAll(s, run[..|run| - 1]), run[|run| - 1])
  }

  ghost predicate Bounded(p: Param, s: ParamState, steps: real) {
    var t := TuningOf(p);
    t.min <= s.value <= t.max && -steps * t.rate <= s.momentum <= steps * t.rate
  }

  /**
   * A momentum bound of `steps` learning rates is kept by effectiveness `e` whatever the state, exactly when
   * the gradient `2e - 1` is at most a fifth of `steps` in magnitude: the fixed point of `0.8 m + gradient * rate`.
   */
  lemma MomentumBoundExactly(p: Param, steps: real, effectiveness: real)
    requires steps >= 0.0
    ensures (forall s: ParamState :: Bounded(p, s, steps) ==> Bounded(p, Adapted(p, s, effectiveness), steps))
      <==> -steps <= 5.0 * Gradient(effectiveness) <= steps
  {
    hide Adapted, Bounded, TuningOf;
    if -steps <= 5.0 * Gradient(effectiveness) <= steps {
      forall s: ParamState | Bounded(p, s, steps) ensures Bounded(p, Adapted(p, s, effectiveness), steps) {
        SmallStepStaysBounded(p, s, steps, effectiveness);
      }
    } else {
      LargeStepCanEscape(p, steps, effectiveness);
    }
  }

  lemma SmallStepStaysBounded(p: Param, s: ParamState, steps: real, effectiveness: real)
    requires Bounded(p, s, steps) && -steps <= 5.0 * Gradient(effectiveness) <= steps
    ensures Bounded(p, Adapted(p, s, effectiveness), steps)
  {
    TableIsUsable(p, p);
    hide TuningOf;
    StepWithin(s.momentum, steps, Gradient(effectiveness), TuningOf(p).rate);
  }

  lemma LargeStepCanEscape(p: Param, steps: real, effectiveness: real)
    requires steps >= 0.0 && !(-steps <= 5.0 * Gradient(effectiveness) <= steps)
    ensures exists s: ParamState :: Bounded(p, s, steps) && !Bounded(p, Adapted(p, s, effectiveness), steps)
  {
    TableIsUsable(p, p);
    hide TuningOf, Gradient, Momentum, Clamp;
    var t := TuningOf(p);
    var gradient := Gradient(effectiveness);
    var top := StepBeyond(steps, gradient, t.rate);
    var extreme := ParamState(t.initial, top);
    assert Bounded(p, extreme, steps);
    assert !Bounded(p, Adapted(p, extreme, effectiveness), steps);
  }

  /** From one end of the bound, a gradient that is too large steps over it. */
  lemma StepBeyond(steps: real, gradient: real, rate: real) returns (m: real)
    requires rate > 0.0 && steps >= 0.0 && !(-steps <= 5.0 * gradient <= steps)
    ensures -steps * rate <= m <= steps * rate
    ensures !(-steps * rate <= Momentum(m, gradient, rate) <= steps * rate)
  {
    if 5.0 * gradient > steps {
      m := steps * rate;
      assert 5.0 * gradient * rate > steps * rate;
    } else {
      m := -steps * rate;
      assert 5.0 * gradient * rate < -steps * rate;
    }
  }

  lemma StepWithin(m: real, steps: real, gradient: real, rate: real)
    requires rate > 0.0 && -steps * rate <= m <= steps * rate && -steps <= 5.0 * gradient <= steps
    ensures -steps * rate <= Momentum(m, gradient, rate) <= steps * rate
  {
    assert 5.0 * gradient * rate <= steps * rate;
    assert -steps * rate <= 5.0 * gradient * rate;
  }

  ghost predicate AllBounded(s: Params, steps: real) {
    forall p: Param :: p in s && Bounded(p, s[p], steps)
  }

  /** How many learning rates the momentum of a parameter can reach, by what its action can score. */
  function Reach(p: Param): real {
    match p
    case FissionEntropyThreshold => 15.0
    case FissionMinClusterSize => 10.0
    case DreamInterval => 11.0
    case _ => 5.0
  }

  lemma FreshIsBounded(p: Param, steps: real)
    requires steps >= 0.0
    ensures p in Fresh() && Bounded(p, Fresh()[p], steps)
  {
    AllListed(p);
    TableIsUsable(p, p);
    NotNegative(steps, TuningOf(p).rate);
  }

  lemma AllListed(p: Param)
    ensures p in ALL
  {
    assert ALL[0] in ALL && ALL[1] in ALL && ALL[2] in ALL && ALL[3] in ALL;
    assert ALL[4] in ALL && ALL[5] in ALL && ALL[6] in ALL;
  }

  lemma NotNegative(x: real, y: real)
    requires x >= 0.0 && y >= 0.0
    ensures x * y >= 0.0 && -x * y <= 0.0
  {
  }

  /** Every value within its bounds, every momentum within its number of learning rates. */
  ghost predicate Kept(s: Params, steps: Param -> real) {
    forall p: Param :: p in s && Bounded(p, s[p], steps(p))
  }

  lemma AdaptOneKeeps(s: Params, p: Param, effectiveness: real, steps: Param -> real)
    requires Kept(s, steps) && -steps(p) <= 5.0 * Gradient(effectiveness) <= steps(p)
    ensures Kept(AdaptOne(s, p, effectiveness), steps)
  {
    hide Bounded, Adapted, Gradient;
    SmallStepStaysBounded(p, s[p], steps(p), effectiveness);
  }

  lemma OutcomeKeepsReach(s: Params, o: Outcome)
    requires Plausible(o.seen) && Kept(s, Reach)
    ensures Kept(AfterOne(s, o), Reach)
  {
    EffectivenessRange(o.action, o.seen);
    hide Kept, AdaptOne, Effectiveness, Plausible;
    var e := Effectiveness(o.action, o.seen);
    match o.action
    case Fission =>
      AdaptOneKeeps(s, FissionEntropyThreshold, e, Reach);
      AdaptOneKeeps(AdaptOne(s, FissionEntropyThreshold, e), FissionMinClusterSize, e * 0.5, Reach);
    case Merge =>
      AdaptOneKeeps(s, MergeDistance, e, Reach);
      AdaptOneKeeps(AdaptOne(s, MergeDistance, e), MergeLabelSimilarity, e * 0.5, Reach);
    case Dream => AdaptOneKeeps(s, DreamInterval, e, Reach);
    case Evict => AdaptOneKeeps(s, EvictionMassThreshold, e, Reach);
    case Pulse => AdaptOneKeeps(s, PulseBudget, e, Reach);
    case Link =>
  }

  lemma PrefixIsRecorded(run: seq<Outcome>)
    requires run != [] && Recorded(run)
    ensures Recorded(run[..|run| - 1]) && Plausible(run[|run| - 1].seen)
  {
    hide Plausible;
    assert forall o :: o in run[..|run| - 1] ==> o in run;
    assert run[|run| - 1] in run;
  }

  /**
   * Whatever is recorded, each value stays within its bounds, and each momentum within the reach of its parameter:
   * only fission and dreams can carry one beyond five learning rates.
   */
  lemma {:induction false} EveryRunStaysBounded(run: seq<Outcome>)
    requires Recorded(run)
    ensures Kept(AfterAll(Fresh(), run), Reach)
  {
    hide Recorded, Plausible, AfterOne, Fresh, Bounded, Reach;
    if run == [] {
      forall p: Param ensures p in Fresh() && Bounded(p, Fresh()[p], Reach(p)) {
        ReachIsPositive(p);
        FreshIsBounded(p, Reach(p));
      }
    } else {
      PrefixIsRecorded(run);
      EveryRunStaysBounded(run[..|run| - 1]);
      var s := AfterAll(Fresh(), run[..|run| - 1]);
      OutcomeKeepsReach(s, run[|run| - 1]);
    }
  }

  lemma ReachIsPositive(p: Param)
    ensures Reach(p) >= 5.0
  {
  }

  ghost predicate NeverHarmful(run: seq<Outcome>)
    requires Recorded(run)
  {
    forall o :: o in run ==> Effectiveness(o.action, o.seen) >= 0.0
  }

  function FiveSteps(p: Param): real {
    5.0
  }

  lemma HarmlessOutcomeKeepsFive(s: Params, o: Outcome)
    requires Plausible(o.seen) && Effectiveness(o.action, o.seen) >= 0.0 && Kept(s, FiveSteps)
    ensures Kept(AfterOne(s, o), FiveSteps)
  {
    EffectivenessRange(o.action, o.seen);
    hide Kept, AdaptOne, Effectiveness, Plausible;
    var e := Effectiveness(o.action, o.seen);
    match o.action
    case Fission =>
      AdaptOneKeeps(s, FissionEntropyThreshold, e, FiveSteps);
      AdaptOneKeeps(AdaptOne(s, FissionEntropyThreshold, e), FissionMinClusterSize, e * 0.5, FiveSteps);
    case Merge =>
      AdaptOneKeeps(s, MergeDistance, e, FiveSteps);
      AdaptOneKeeps(AdaptOne(s, MergeDistance, e), MergeLabelSimilarity, e * 0.5, FiveSteps);
    case Dream => AdaptOneKeeps(s, DreamInterval, e, FiveSteps);
    case Evict => AdaptOneKeeps(s, EvictionMassThreshold, e, FiveSteps);
    case Pulse => AdaptOneKeeps(s, PulseBudget, e, FiveSteps);
    case Link =>
  }

  /** With effectiveness never negative, no momentum leaves five learning rates. */
  lemma {:induction false} HarmlessRunsStayBounded(run: seq<Outcome>)
    requires Recorded(run) && NeverHarmful(run)
    ensures AllBounded(AfterAll(Fresh(), run), 5.0)
  {
    hide Recorded, Plausible, AfterOne, Fresh, Bounded, Effectiveness;
    if run == [] {
      forall p: Param ensures p in Fresh() && Bounded(p, Fresh()[p], 5.0) {
        FreshIsBounded(p, 5.0);
      }
    } else {
      var last := run[|run| - 1];
      PrefixIsRecorded(run);
      assert last in run && forall o :: o in run[..|run| - 1] ==> o in run;
      HarmlessRunsStayBounded(run[..|run| - 1]);
      assert Kept(AfterAll(Fresh(), run[..|run| - 1]), FiveSteps);
      HarmlessOutcomeKeepsFive(AfterAll(Fresh(), run[..|run| - 1]), last);
      assert Kept(AfterAll(Fresh(), run), FiveSteps);
    }
  }

  // ---- Restarts ------------------------------------------------------------------------------------------

  lemma SnapshotEntry(s: Params, p: Param)
    requires p in s
    ensures ToJson(s).Object? && TuningOf(p).key in ToJson(s).fields && ToJson(s).fields[TuningOf(p).key] == Pair(s, p)
  {
    AllListed(p);
    forall q: Param ensures TuningOf(q).key == TuningOf(p).key ==> p == q {
      TableIsUsable(p, q);
    }
    hide TuningOf;
  }

  lemma EntryRoundTrip(s: Params, p: Param)
    requires p in s && TuningOf(p).min <= s[p].value <= TuningOf(p).max
    ensures p in Mentioned(ToJson(s))
    ensures Entry(ToJson(s), p) == Some(s[p]) <==> Bounded(p, s[p], 5.0)
  {
    SnapshotEntry(s, p);
    hide TuningOf, ToJson;
  }

  /**
   * A restart reproduces the learned state exactly when every momentum is within five learning rates,
   * whatever the restoring engine held before.
   */
  lemma RestartIsExactly(s: Params, other: Params)
    requires forall p: Param :: p in s && TuningOf(p).min <= s[p].value <= TuningOf(p).max
    ensures Restored(other, ToJson(s)) == s <==> AllBounded(s, 5.0)
    ensures Mentioned(ToJson(s)) == set p: Param | p in ALL
  {
    hide Entry, ToJson, Bounded, TuningOf;
    forall p: Param
      ensures p in ALL && p in Mentioned(ToJson(s)) && (Entry(ToJson(s), p) == Some(s[p]) <==> Bounded(p, s[p], 5.0))
    {
      AllListed(p);
      EntryRoundTrip(s, p);
    }
    if Restored(other, ToJson(s)) == s {
      forall p: Param ensures Bounded(p, s[p], 5.0) {
        assert Restored(other, ToJson(s))[p] == s[p];
      }
    }
  }

  /** With effectiveness never negative, a restart after any run continues as if it had not happened. */
  lemma HarmlessRunsSurviveRestart(run: seq<Outcome>, more: seq<Outcome>)
    requires Recorded(run) && NeverHarmful(run) && Recorded(more)
    ensures AfterAll(Restored(Fresh(), ToJson(AfterAll(Fresh(), run))), more) == AfterAll(AfterAll(Fresh(), run), more)
  {
    hide ToJson, Restored, AfterAll, TuningOf, Recorded;
    HarmlessRunsStayBounded(run);
    RestartIsExactly(AfterAll(Fresh(), run), Fresh());
  }

  lemma AfterAllAppend(s: Params, run: seq<Outcome>, o: Outcome)
    requires Recorded(run) && Plausible(o.seen)
    ensures Recorded(run + [o]) && AfterAll(s, run + [o]) == AfterOne(AfterAll(s, run), o)
  {
    hide Plausible, AfterOne;
    assert (run + [o])[..|run|] == run;
  }

  /** Three dreams at the worst score a dream can get leave a momentum that a restart cuts back. */
  lemma HarmfulDreamsDoNot()
    ensures var o := Outcome(Dream, WorstDream());
      Recorded([o, o, o]) && Restored(Fresh(), ToJson(AfterAll(Fresh(), [o, o, o]))) != AfterAll(Fresh(), [o, o, o])
  {
    WorstCases();
    var o := Outcome(Dream, WorstDream());
    hide Effectiveness, Plausible;
    var one := AfterOne(Fresh(), o);
    var two := AfterOne(one, o);
    var three := AfterOne(two, o);
    NothingRecorded([]);
    AfterAllAppend(Fresh(), [], o);
    AfterAllAppend(Fresh(), [o], o);
    AfterAllAppend(Fresh(), [o, o], o);
    assert [] + [o] == [o] && [o] + [o] == [o, o] && [o, o] + [o] == [o, o, o];
    AllListed(DreamInterval);
    assert three[DreamInterval].momentum == -5.368 * TuningOf(DreamInterval).rate;
    RestartLosesMomentum([o, o, o], DreamInterval);
  }

  /** Two fissions at their worst score do so as well. */
  lemma HarmfulFissionsDoNot()
    ensures var o := Outcome(Fission, WorstFission());
      Recorded([o, o]) && Restored(Fresh(), ToJson(AfterAll(Fresh(), [o, o]))) != AfterAll(Fresh(), [o, o])
  {
    WorstCases();
    var o := Outcome(Fission, WorstFission());
    hide Effectiveness, Plausible;
    var one := AfterOne(Fresh(), o);
    var two := AfterOne(one, o);
    NothingRecorded([]);
    AfterAllAppend(Fresh(), [], o);
    AfterAllAppend(Fresh(), [o], o);
    assert [] + [o] == [o] && [o] + [o] == [o, o];
    AllListed(FissionEntropyThreshold);
    assert two[FissionEntropyThreshold].momentum == -5.4 * TuningOf(FissionEntropyThreshold).rate;
    RestartLosesMomentum([o, o], FissionEntropyThreshold);
  }

  lemma NothingRecorded(run: seq<Outcome>)
    requires run == []
    ensures Recorded(run) && AfterAll(Fresh(), run) == Fresh()
  {
  }

  lemma RestartLosesMomentum(run: seq<Outcome>, p: Param)
    requires Recorded(run)
    requires p in AfterAll(Fresh(), run) && AfterAll(Fresh(), run)[p].momentum < -5.0 * TuningOf(p).rate
    ensures Restored(Fresh(), ToJson(AfterAll(Fresh(), run))) != AfterAll(Fresh(), run)
  {
    hide ToJson, Restored, AfterAll, TuningOf, Recorded;
    EveryRunStaysBounded(run);
    RestartIsExactly(AfterAll(Fresh(), run), Fresh());
    assert !Bounded(p, AfterAll(Fresh(), run)[p], 5.0);
  }

  // ---- The half-strength parameters ---------------------------------------------------------------------

  /** Never pushed up: the second parameter of an action only ever gets half the effectiveness. */
  ghost predicate SecondNeverRose(s: Params) {
    forall p: Param :: p.FissionMinClusterSize? || p.MergeLabelSimilarity? ==>
      p in s && s[p].momentum <= 0.0 && s[p].value <= TuningOf(p).initial
  }

  lemma HalfStepsGoDown(p: Param, s: ParamState, effectiveness: real)
    requires effectiveness <= 1.0 && s.momentum <= 0.0 && s.value <= TuningOf(p).initial
    ensures var t := Adapted(p, s, effectiveness * 0.5); t.momentum <= 0.0 && t.value <= TuningOf(p).initial
  {
    TableIsUsable(p, p);
    hide TuningOf;
    var g := Gradient(effectiveness * 0.5);
    assert g <= 0.0;
    assert g * TuningOf(p).rate <= 0.0;
  }

  /** However effective fission and merging are, the second parameter of each never exceeds its default. */
  lemma {:induction false} SecondParametersNeverRise(run: seq<Outcome>)
    requires Recorded(run)
    ensures SecondNeverRose(AfterAll(Fresh(), run))
  {
    hide TuningOf, Adapted, Effectiveness, Plausible, Recorded;
    if run == [] {
      AllListed(FissionMinClusterSize);
      AllListed(MergeLabelSimilarity);
    } else {
      var last := run[|run| - 1];
      PrefixIsRecorded(run);
      SecondParametersNeverRise(run[..|run| - 1]);
      var s := AfterAll(Fresh(), run[..|run| - 1]);
      EffectivenessRange(last.action, last.seen);
      HalfStepsGoDown(FissionMinClusterSize, s[FissionMinClusterSize], Effectiveness(last.action, last.seen));
      HalfStepsGoDown(MergeLabelSimilarity, s[MergeLabelSimilarity], Effectiveness(last.action, last.seen));
    }
  }
}
