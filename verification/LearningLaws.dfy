/** How an action is scored, which parameters learn from the score, and in which direction. */
module LearningLaws {
  import opened Prelude
  import opened Outcomes
  import opened Adaptive

  // ---- Scores -------------------------------------------------------------------------------------------

  /** Merging is good when entropy grew by at most a tenth, eviction when memories went, pulses when entropy fell. */
  lemma ScoresExactly(o: Observation)
    requires Plausible(o)
    ensures Effectiveness(Merge, o) == 0.7
      <==> 10.0 * MeanEntropy(o.post.clusters) <= 11.0 * MeanEntropy(o.pre.clusters)
    ensures Effectiveness(Merge, o) == 0.2 <==> 10.0 * MeanEntropy(o.post.clusters) > 11.0 * MeanEntropy(o.pre.clusters)
    ensures Effectiveness(Evict, o) == 0.6 <==> o.post.tetras < o.pre.tetras
    ensures Effectiveness(Evict, o) == 0.1 <==> o.post.tetras >= o.pre.tetras
    ensures var fall := MeanEntropy(o.pre.clusters) - MeanEntropy(o.post.clusters);
      2.0 * Effectiveness(Pulse, o) == if fall > 0.0 then fall else 0.0
  {
    MeanEntropyIsAFraction(o.pre.clusters);
    MeanEntropyIsAFraction(o.post.clusters);
    hide MeanEntropy;
  }

  /**
   * Fission only counts in a disordered space, and is as good as the entropy it removed per root of the energy it cost,
   * within the limits of a score.
   */
  lemma FissionScoresExactly(o: Observation)
    requires Plausible(o)
    ensures var pre, fall := MeanEntropy(o.pre.clusters), MeanEntropy(o.pre.clusters) - MeanEntropy(o.post.clusters);
      var e := Effectiveness(Fission, o);
      && (e > 0.0 <==> pre > 0.3 && fall > 0.0) && (e < 0.0 <==> pre > 0.3 && fall < 0.0)
      && (pre > 0.3 && -o.costRoot <= fall <= o.costRoot ==> e * o.costRoot == fall)
  {
    MeanEntropyIsAFraction(o.pre.clusters);
    hide MeanEntropy;
    var fall := MeanEntropy(o.pre.clusters) - MeanEntropy(o.post.clusters);
    QuotientSign(fall, o.costRoot);
  }

  lemma QuotientSign(x: real, y: real)
    requires y > 0.0
    ensures x / y > 0.0 <==> x > 0.0
    ensures x / y < 0.0 <==> x < 0.0
    ensures -y <= x <= y ==> -1.0 <= x / y <= 1.0 && (x / y) * y == x
  {
    var q := x / y;
    assert q * y == x;
    if q > 1.0 {
      assert (q - 1.0) * y > 0.0;
    } else if q < -1.0 {
      assert (-1.0 - q) * y > 0.0;
    }
  }

  /** A dream is scored by the entropy it removed and by the share of clusters it changed, six to four. */
  lemma DreamScoresExactly(o: Observation)
    requires Plausible(o) && |o.pre.clusters| > 0
    ensures var fall := MeanEntropy(o.pre.clusters) - MeanEntropy(o.post.clusters);
      var moved := if |o.post.clusters| >= |o.pre.clusters| then |o.post.clusters| - |o.pre.clusters|
        else |o.pre.clusters| - |o.post.clusters|;
      var score := 0.6 * fall + 0.4 * (moved as real / |o.pre.clusters| as real);
      Effectiveness(Dream, o) == if score > 1.0 then 1.0 else score
  {
    EffectivenessRange(Dream, o);
    hide MeanEntropy;
  }

  // ---- What is learned --------------------------------------------------------------------------------------

  /** The parameters an action teaches at full strength, and at half. */
  function Taught(action: ActionType): (set<Param>, set<Param>) {
    match action
    case Fission => ({FissionEntropyThreshold}, {FissionMinClusterSize})
    case Merge => ({MergeDistance}, {MergeLabelSimilarity})
    case Dream => ({DreamInterval}, {})
    case Evict => ({EvictionMassThreshold}, {})
    case Pulse => ({PulseBudget}, {})
    case Link => ({}, {})
  }

  /** Everything an outcome changes; whatever the action does not teach stays as it is. */
  lemma OutcomesTeachExactly(s: Params, action: ActionType, e: real, p: Param)
    requires p in s
    ensures AfterOutcome(s, action, e).Keys == s.Keys
    ensures var s' := AfterOutcome(s, action, e);
      s'[p] == if p in Taught(action).0 then Adapted(p, s[p], e)
               else if p in Taught(action).1 then Adapted(p, s[p], e * 0.5) else s[p]
  {
    hide Adapted;
  }

  /**
   * A snapshot says something about a parameter exactly if there is a list under its key that begins with a number. The
   * value and the momentum are taken over as they are within their bounds and moved to the nearer bound otherwise; a
   * momentum that is missing or no number counts as none.
   */
  lemma EntriesExactly(snapshot: Json, p: Param)
    ensures var t := TuningOf(p);
      Entry(snapshot, p).Some? <==>
        snapshot.Object? && t.key in snapshot.fields && snapshot.fields[t.key].List?
        && |snapshot.fields[t.key].items| > 0 && snapshot.fields[t.key].items[0].Number?
    ensures Entry(snapshot, p).Some? ==>
      var t, pair, e := TuningOf(p), snapshot.fields[TuningOf(p).key].items, Entry(snapshot, p).value;
      var value, hasMomentum := pair[0].n, |pair| > 1 && pair[1].Number?;
      && t.min <= e.value <= t.max && (t.min <= value <= t.max ==> e.value == value)
      && (value < t.min ==> e.value == t.min) && (value > t.max ==> e.value == t.max)
      && (!hasMomentum ==> e.momentum == 0.0)
      && (hasMomentum ==>
           var m, most := pair[1].n, 5.0 * t.rate;
           e.momentum == if m < -most then -most else if m > most then most else m)
  {
    TableIsUsable(p, p);
    hide TuningOf;
  }

  /**
   * One step: four fifths of the momentum stay, and twice the distance of the score from one half, times the learning
   * rate, is added; the value moves by the new momentum, within its bounds.
   */
  lemma LearningDirection(p: Param, s: ParamState, e: real)
    requires TuningOf(p).min <= s.value <= TuningOf(p).max
    ensures var t, s' := TuningOf(p), Adapted(p, s, e);
      && 10.0 * s'.momentum == 8.0 * s.momentum + 10.0 * (2.0 * e - 1.0) * t.rate
      && t.min <= s'.value <= t.max
      && (t.min < s'.value < t.max ==> s'.value - s.value == s'.momentum)
      && (e > 0.5 && s.momentum >= 0.0 && s.value < t.max ==> s'.value > s.value)
      && (e < 0.5 && s.momentum <= 0.0 && s.value > t.min ==> s'.value < s.value)
      && (e == 0.5 && s.momentum == 0.0 ==> s' == s)
  {
    TableIsUsable(p, p);
    hide TuningOf;
    var rate, gradient := TuningOf(p).rate, Gradient(e);
    assert e > 0.5 ==> gradient * rate > 0.0;
    assert e < 0.5 ==> (-gradient) * rate > 0.0 && gradient * rate == -((-gradient) * rate);
    assert e == 0.5 ==> gradient * rate == 0.0;
    assert (2.0 * e - 1.0) * rate == gradient * rate;
  }
}
