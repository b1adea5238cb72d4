/** What each memory operation stores, and what the three-way merge keeps of everybody's edits. */
module OpLaws {
  import opened Prelude
  import opened Ops

  // ---- Single operations ---------------------------------------------------------------------------------

  lemma LifecycleExactly(d: Payload)
    ensures LifecycleOf(d) == Superseded <==> "superseded" in d.labels || d.validTo.Some?
    ensures LifecycleOf(d) == Quarantined <==> LifecycleOf(d) != Superseded && "quarantine" in d.labels
  {
  }

  /** No operation touches more than labels, importance, mass, validity and the access count. */
  lemma OnlyTheseFields(d: Payload, m: real, op: MemoryOp)
    ensures var r := Apply(d, m, op).data;
      r == d.(labels := r.labels, importance := r.importance, validTo := r.validTo, invalidatedAt := r.invalidatedAt,
              accessCount := r.accessCount)
    ensures !op.Quarantine? && !op.Supersede? && !op.AddLabel? ==> Apply(d, m, op).data.labels == d.labels
    ensures !op.Quarantine? && !op.Supersede? && !op.AdjustMass? && !op.CapMass? ==> Apply(d, m, op).mass == m
    ensures !op.Supersede? && !op.Tombstone? ==>
      Apply(d, m, op).data.validTo == d.validTo && Apply(d, m, op).data.invalidatedAt == d.invalidatedAt
    ensures Apply(d, m, op).data.accessCount == if op.ResetAccessCount? then 0 else d.accessCount
    ensures op.AddLabel? || op.AdjustMass? || op.CapMass? || op.ResetAccessCount? ==>
      Apply(d, m, op).data.importance == d.importance
  {
  }

  /** A new label comes last; one that is there already changes nothing. */
  lemma LabelsExactly(d: Payload, m: real, l: string)
    ensures var r := Apply(d, m, AddLabel(l));
      && (l in d.labels ==> r == Applied(d, m, false))
      && (l !in d.labels ==> r == Applied(d.(labels := d.labels + [l]), m, true))
  {
  }

  /** Capping lowers to the cap what is above it; a plain write stores every value that differs. */
  lemma CappingAndSetting(d: Payload, m: real, x: real)
    ensures var r := Apply(d, m, CapImportance(x));
      && r.data.importance <= x && r.data.importance <= d.importance && r.data.importance in {x, d.importance}
      && (r.changed <==> r.data.importance < d.importance)
    ensures var r := Apply(d, m, SetImportance(x));
      && r.data.importance in {x, d.importance} && Abs(r.data.importance - x) <= F64_EPSILON
      && (r.changed <==> Abs(d.importance - x) > F64_EPSILON)
  {
  }

  /** Compare and set: the new value is stored exactly if the importance is still what was seen and the two differ. */
  lemma ComparingExactly(d: Payload, m: real, seen: real, v: real)
    ensures var r := Apply(d, m, CasImportance(seen, v));
      && (r.changed <==> Abs(d.importance - seen) <= F64_EPSILON && Abs(d.importance - v) > F64_EPSILON)
      && r.data.importance == (if r.changed then v else d.importance)
  {
  }

  /** Adding stops at the maximum, which also pulls down what was above it. */
  lemma AddingExactly(d: Payload, m: real, delta: real, max: real)
    ensures var r := Apply(d, m, AddImportance(delta, max));
      var sum := d.importance + delta;
      && (r.changed ==> r.data.importance <= max && r.data.importance <= sum && r.data.importance in {sum, max})
      && (!r.changed ==> r.data.importance == d.importance)
      && (!r.changed ==> (Abs(sum - d.importance) <= F64_EPSILON || Abs(max - d.importance) <= F64_EPSILON))
  {
  }

  /** Mass moves by the amount asked for, within its limits; capping only lowers it, and never below the minimum. */
  lemma MassExactly(d: Payload, m: real, x: real)
    ensures var r := Apply(d, m, AdjustMass(x));
      && 0.1 <= r.mass <= 100.0 && (0.1 <= m + x <= 100.0 ==> r.mass == m + x)
      && (m + x < 0.1 ==> r.mass == 0.1) && (m + x > 100.0 ==> r.mass == 100.0)
    ensures var r := Apply(d, m, CapMass(x));
      && r.mass <= m && (m >= 0.1 ==> r.mass >= 0.1) && (x >= 0.1 ==> r.mass <= x)
      && (r.changed <==> r.mass < m) && (r.changed ==> r.mass == if x < 0.1 then 0.1 else x)
  {
  }

  /** Quarantining takes exactly active memories that are not enforced, labels them, and lowers importance and mass. */
  lemma QuarantiningExactly(d: Payload, m: real, importanceCap: real, massCap: real)
    ensures var r := Apply(d, m, Quarantine(importanceCap, massCap));
      && (r.changed <==> !d.enforced && LifecycleOf(d) == Active)
      && (!r.changed ==> r.data == d && r.mass == m)
      && (r.changed ==>
           && r.data.labels == d.labels + ["quarantine"]
           && r.data.importance == Apply(d, m, CapImportance(importanceCap)).data.importance
           && r.mass == Apply(d, m, CapMass(massCap)).mass)
  {
  }

  /** Superseding takes every memory that is neither enforced nor superseded, and dates its end. */
  lemma SupersedingExactly(d: Payload, m: real, at: int, factor: real, floor: real, massCap: real)
    ensures var r := Apply(d, m, Supersede(at, factor, floor, massCap));
      && (r.changed <==> !d.enforced && LifecycleOf(d) != Superseded)
      && (!r.changed ==> r.data == d && r.mass == m)
      && (r.changed ==>
           && r.data.labels == d.labels + ["superseded"]
           && r.data.validTo == Some(at)
           && r.data.invalidatedAt == (if d.invalidatedAt.Some? then d.invalidatedAt else Some(at))
           && r.data.importance >= floor && r.data.importance >= d.importance * factor
           && r.data.importance in {floor, d.importance * factor}
           && r.mass == Apply(d, m, CapMass(massCap)).mass)
  {
  }

  /** A tombstone ends exactly memories that are not enforced, not ended, and below the threshold if there is one. */
  lemma TombstoneExactly(d: Payload, m: real, at: int, importance: real, below: Option<real>)
    ensures var r := Apply(d, m, Tombstone(at, importance, below));
      && (r.changed <==> !d.enforced && d.validTo.None? && (below.Some? ==> d.importance < below.value))
      && r.mass == m && r.data.labels == d.labels
      && (!r.changed ==> r.data == d)
      && (r.changed ==>
           && r.data.importance == importance && r.data.validTo == Some(at)
           && r.data.invalidatedAt == (if d.invalidatedAt.Some? then d.invalidatedAt else Some(at)))
  {
  }

  // ---- The three-way merge ----------------------------------------------------------------------------------

  /** A field the caller changed gets the caller's value; one the caller left alone keeps what others wrote. */
  predicate ThreeWay<T(==)>(cur: T, base: T, desired: T, merged: T) {
    merged == if desired == base then cur else desired
  }

  /** The merge is three-way in each of the seventeen fields, and in labels and aliases element by element. */
  lemma PatchIsThreeWay(c: Payload, b: Payload, d: Payload, x: string)
    ensures var r := PatchPayload(c, b, d).data;
      && ThreeWay(c.content, b.content, d.content, r.content)
      && ThreeWay(c.contentHash, b.contentHash, d.contentHash, r.contentHash)
      && ThreeWay(c.timestamp, b.timestamp, d.timestamp, r.timestamp)
      && ThreeWay(c.embedding, b.embedding, d.embedding, r.embedding)
      && ThreeWay(c.importance, b.importance, d.importance, r.importance)
      && ThreeWay(c.enforced, b.enforced, d.enforced, r.enforced)
      && ThreeWay(c.rationale, b.rationale, d.rationale, r.rationale)
      && ThreeWay(c.accessCount, b.accessCount, d.accessCount, r.accessCount)
      && ThreeWay(c.memoryType, b.memoryType, d.memoryType, r.memoryType)
      && ThreeWay(c.identityStamp, b.identityStamp, d.identityStamp, r.identityStamp)
      && ThreeWay(c.sourceAgent, b.sourceAgent, d.sourceAgent, r.sourceAgent)
      && ThreeWay(c.validFrom, b.validFrom, d.validFrom, r.validFrom)
      && ThreeWay(c.validTo, b.validTo, d.validTo, r.validTo)
      && ThreeWay(c.expiredAt, b.expiredAt, d.expiredAt, r.expiredAt)
      && ThreeWay(c.invalidatedAt, b.invalidatedAt, d.invalidatedAt, r.invalidatedAt)
      && ThreeWay(c.memoryClass, b.memoryClass, d.memoryClass, r.memoryClass)
      && ThreeWay(c.lastReviewedTs, b.lastReviewedTs, d.lastReviewedTs, r.lastReviewedTs)
      && ThreeWay(x in c.labels, x in b.labels, x in d.labels, x in r.labels)
      && ThreeWay(x in c.aliases, x in b.aliases, x in d.aliases, x in r.aliases)
  {
    MergedElement(c.labels, b.labels, d.labels, x);
    MergedElement(c.aliases, b.aliases, d.aliases, x);
    hide MergeSet;
  }

  lemma MergedElement(cur: seq<string>, base: seq<string>, desired: seq<string>, x: string)
    ensures ThreeWay(x in cur, x in base, x in desired, x in MergeSet(cur, base, desired))
  {
    hide MergeSet;
    MergeSetElems(cur, base, desired);
    assert x in MergeSet(cur, base, desired) <==> x in Elems(MergeSet(cur, base, desired));
    assert x in cur <==> x in Elems(cur);
  }

  /** `x` comes first in the list before any `y`. */
  ghost predicate Before(list: seq<string>, x: string, y: string) {
    exists p :: 0 <= p < |list| && list[p] == x && y !in list[..p + 1]
  }

  /** What is kept stays in its order, and what is added comes behind it, in the caller's order. */
  lemma MergeSetOrder(cur: seq<string>, base: seq<string>, desired: seq<string>)
    requires base != desired
    ensures var kept, r := Filter(cur, x => x in desired || x !in base), MergeSet(cur, base, desired);
      kept <= r && forall i, j :: |kept| <= i < j < |r| ==> Before(desired, r[i], r[j])
  {
    var removed := Removed(base, desired);
    SameFilter(cur, x => x !in removed, x => x in desired || x !in base);
    var kept := Filter(cur, x => x !in removed);
    AppendNewElems(kept, base, desired);
    AddedInOrder(kept, base, desired);
  }

  lemma {:induction false} SameFilter(s: seq<string>, p: string -> bool, q: string -> bool)
    requires forall x :: p(x) <==> q(x)
    ensures Filter(s, p) == Filter(s, q)
  {
    if s != [] {
      SameFilter(s[1..], p, q);
    }
  }

  lemma {:induction false} AddedInOrder(cur: seq<string>, base: seq<string>, desired: seq<string>)
    ensures var r := AppendNew(cur, base, desired);
      |cur| <= |r| && forall i, j :: |cur| <= i < j < |r| ==> Before(desired, r[i], r[j])
    ensures var r := AppendNew(cur, base, desired); forall i :: |cur| <= i < |r| ==> r[i] in desired && r[i] !in base
    decreases |desired|
  {
    if desired != [] {
      var front, x := desired[..|desired| - 1], desired[|desired| - 1];
      var before, r := AppendNew(cur, base, front), AppendNew(cur, base, desired);
      AddedInOrder(cur, base, front);
      AppendNewElems(cur, base, front);
      forall i, j | |cur| <= i < j < |r| ensures Before(desired, r[i], r[j]) {
        if j < |before| {
          var p :| 0 <= p < |front| && front[p] == before[i] && before[j] !in front[..p + 1];
          assert desired[..p + 1] == front[..p + 1];
        } else {
          var p :| 0 <= p < |front| && front[p] == before[i];
          assert x !in Elems(before) && x !in Elems(front);
          assert desired[..p + 1] == front[..p + 1];
          assert x !in front[..p + 1];
        }
      }
    }
  }
}
