/** Field-level memory operations: typed edits, and the three-way merge of a whole payload. */
module Ops {
  import opened Prelude

  datatype Payload = Payload(
    content: string,
    contentHash: Id,
    labels: seq<string>,
    timestamp: int,
    aliases: seq<string>,
    embedding: seq<real>,
    importance: real,
    enforced: bool,
    rationale: Option<string>,
    accessCount: nat,
    memoryType: Option<string>,
    identityStamp: Option<string>,
    sourceAgent: Option<string>,
    validFrom: int,
    validTo: Option<int>,
    expiredAt: Option<int>,
    invalidatedAt: Option<int>,
    memoryClass: Option<string>,
    lastReviewedTs: Option<int>)

  datatype Lifecycle = Active | Quarantined | Superseded {
    function Rank(): nat {
      match this case Active => 0 case Quarantined => 1 case Superseded => 2
    }
  }

  function LifecycleOf(p: Payload): Lifecycle {
    if "superseded" in p.labels || p.validTo.Some? then Superseded
    else if "quarantine" in p.labels then Quarantined
    else Active
  }

  const MASS_MIN: real := 0.1
  const MASS_MAX: real := 100.0
  /** The gap between 1 and the next double: changes no larger than this do not count. */
  const F64_EPSILON: real := 1.0 / 4503599627370496.0

  function Abs(x: real): real { if x < 0.0 then -x else x }
  function Min(x: real, y: real): real { if x < y then x else y }
  function Max(x: real, y: real): real { if x > y then x else y }
  function Clamp(x: real, lo: real, hi: real): real {
    if x < lo then lo else if x > hi then hi else x
  }

  datatype MemoryOp =
    | AddLabel(text: string)
    | CapImportance(cap: real)
    | SetImportance(value: real)
    | AdjustMass(delta: real)
    | CapMass(cap: real)
    | Quarantine(importanceCap: real, massCap: real)
    | Supersede(at: int, importanceFactor: real, importanceFloor: real, massCap: real)
    | Tombstone(at: int, importance: real, onlyIfImportanceBelow: Option<real>)
    | CasImportance(seen: real, newValue: real)
    | AddImportance(delta: real, max: real)
    | ResetAccessCount

  datatype Applied = Applied(data: Payload, mass: real, changed: bool)

  function WithLabel(d: Payload, l: string): Payload {
    if l in d.labels then d else d.(labels := d.labels + [l])
  }

  function CappedMass(m: real, cap: real): real {
    Min(m, Max(cap, MASS_MIN))
  }

  function InvalidatedAt(d: Payload, at: int): Payload {
    d.(validTo := Some(at), invalidatedAt := if d.invalidatedAt.None? then Some(at) else d.invalidatedAt)
  }

  /** What one operation does to a memory, and whether it reports a change. */
  function Apply(d: Payload, m: real, op: MemoryOp): Applied {
    match op
    case AddLabel(l) => Applied(WithLabel(d, l), m, l !in d.labels)
    case CapImportance(c) => Applied(d.(importance := Min(d.importance, c)), m, d.importance > c)
    case SetImportance(v) =>
      if Abs(d.importance - v) > F64_EPSILON then Applied(d.(importance := v), m, true) else Applied(d, m, false)
    case AdjustMass(delta) =>
      var n := Clamp(m + delta, MASS_MIN, MASS_MAX);
      Applied(d, n, Abs(n - m) > F64_EPSILON)
    case CapMass(c) => Applied(d, CappedMass(m, c), m > Max(c, MASS_MIN))
    case Quarantine(ic, mc) =>
      if d.enforced || LifecycleOf(d) != Active then Applied(d, m, false)
      else
        var labelled := WithLabel(d, "quarantine");
        Applied(labelled.(importance := Min(d.importance, ic)), CappedMass(m, mc), true)
    case Supersede(at, factor, floor, mc) =>
      if d.enforced || LifecycleOf(d) == Superseded then Applied(d, m, false)
      else
        var labelled := InvalidatedAt(WithLabel(d, "superseded"), at);
        Applied(labelled.(importance := Max(d.importance * factor, floor)), CappedMass(m, mc), true)
    case Tombstone(at, imp, below) =>
      if d.enforced || d.validTo.Some? || (below.Some? && d.importance >= below.value) then Applied(d, m, false)
      else Applied(InvalidatedAt(d, at).(importance := imp), m, true)
    case CasImportance(seen, v) =>
      if Abs(d.importance - seen) > F64_EPSILON || Abs(d.importance - v) <= F64_EPSILON then Applied(d, m, false)
      else Applied(d.(importance := v), m, true)
    case AddImportance(delta, max) =>
      var n := Min(d.importance + delta, max);
      if Abs(n - d.importance) <= F64_EPSILON then Applied(d, m, false) else Applied(d.(importance := n), m, true)
    case ResetAccessCount => Applied(d.(accessCount := 0), m, d.accessCount != 0)
  }

  /** A batch of operations in order; it reports a change when any of them does. */
  function ApplyAll(d: Payload, m: real, ops: seq<MemoryOp>): Applied {
    if ops == [] then Applied(d, m, false)
    else
      var front := ApplyAll(d, m, ops[..|ops| - 1]);
      var last := Apply(front.data, front.mass, ops[|ops| - 1]);
      last.(changed := front.changed || last.changed)
  }

  /** The memory as its callers hold it: the payload and mass that the operations edit in place. */
  class Memory {
    var data: Payload
    var mass: real

    constructor (d: Payload, m: real)
      ensures data == d && mass == m
    {
      data, mass := d, m;
    }

    method ApplyOp(op: MemoryOp) returns (changed: bool)
      modifies this
      decreases op.Quarantine? || op.Supersede?
      ensures Applied(data, mass, changed) == Apply(old(data), old(mass), op)
    {
      match op
      case AddLabel(l) =>
        if l in data.labels {
          changed := false;
        } else {
          data := data.(labels := data.labels + [l]);
          changed := true;
        }
      case CapImportance(c) =>
        if data.importance > c {
          data := data.(importance := c);
          changed := true;
        } else {
          changed := false;
        }
      case SetImportance(v) =>
        if Abs(data.importance - v) > F64_EPSILON {
          data := data.(importance := v);
          changed := true;
        } else {
          changed := false;
        }
      case AdjustMass(delta) =>
        var n := Clamp(mass + delta, MASS_MIN, MASS_MAX);
        changed := Abs(n - mass) > F64_EPSILON;
        mass := n;
      case CapMass(cap) =>
        var c := Max(cap, MASS_MIN);
        if mass > c {
          mass := c;
          changed := true;
        } else {
          changed := false;
        }
      case Quarantine(importanceCap, massCap) =>
        if data.enforced || LifecycleOf(data) != Active {
          return false;
        }
        var _ := ApplyOp(AddLabel("quarantine"));
        var _ := ApplyOp(CapImportance(importanceCap));
        var _ := ApplyOp(CapMass(massCap));
        changed := true;
      case Supersede(at, factor, floor, massCap) =>
        if data.enforced || LifecycleOf(data) == Superseded {
          return false;
        }
        var _ := ApplyOp(AddLabel("superseded"));
        data := data.(validTo := Some(at));
        if data.invalidatedAt.None? {
          data := data.(invalidatedAt := Some(at));
        }
        data := data.(importance := Max(data.importance * factor, floor));
        var _ := ApplyOp(CapMass(massCap));
        changed := true;
      case Tombstone(at, importance, below) =>
        if data.enforced || data.validTo.Some? {
          return false;
        }
        if below.Some? && data.importance >= below.value {
          return false;
        }
        data := data.(validTo := Some(at));
        if data.invalidatedAt.None? {
          data := data.(invalidatedAt := Some(at));
        }
        data := data.(importance := importance);
        changed := true;
      case CasImportance(seen, v) =>
        if Abs(data.importance - seen) > F64_EPSILON || Abs(data.importance - v) <= F64_EPSILON {
          return false;
        }
        data := data.(importance := v);
        changed := true;
      case AddImportance(delta, max) =>
        var n := Min(data.importance + delta, max);
        if Abs(n - data.importance) <= F64_EPSILON {
          return false;
        }
        data := data.(importance := n);
        changed := true;
      case ResetAccessCount =>
        if data.accessCount == 0 {
          return false;
        }
        data := data.(accessCount := 0);
        changed := true;
    }

    /** Write back the fields that `desired` changed against the snapshot `base`. */
    method Patch(base: Payload, desired: Payload) returns (changed: bool, searchable: bool, labelsChanged: bool)
      modifies this
      ensures Patched(data, changed, searchable, labelsChanged) == PatchPayload(old(data), base, desired)
      ensures mass == old(mass)
    {
      var contentChanged := FieldChanges(data.content, base.content, desired.content);
      changed := ScalarsChange(data, base, desired);
      searchable := contentChanged;
      data := PatchScalars(data, base, desired);
      var labels, aliases, aliasesChanged;
      labels, labelsChanged := MergeSetInPlace(data.labels, base.labels, desired.labels);
      aliases, aliasesChanged := MergeSetInPlace(data.aliases, base.aliases, desired.aliases);
      data := data.(labels := labels, aliases := aliases);
      if aliasesChanged {
        searchable := true;
        changed := true;
      }
      changed := changed || labelsChanged;
    }
  }

  // ---- Sets held as vectors ----------------------------------------------------

  /** The new elements of `desired`, appended in order unless already present. */
  function AppendNew(cur: seq<string>, base: seq<string>, desired: seq<string>): seq<string> {
    if desired == [] then cur
    else
      var front := AppendNew(cur, base, desired[..|desired| - 1]);
      var x := desired[|desired| - 1];
      if x !in base && x !in front then front + [x] else front
  }

  function Removed(base: seq<string>, desired: seq<string>): seq<string> {
    Filter(base, x => x !in desired)
  }

  function MergeSet(cur: seq<string>, base: seq<string>, desired: seq<string>): seq<string> {
    if base == desired then cur
    else
      var removed := Removed(base, desired);
      AppendNew(Filter(cur, x => x !in removed), base, desired)
  }

  method MergeSetInPlace(cur0: seq<string>, base: seq<string>, desired: seq<string>)
    returns (cur: seq<string>, changed: bool)
    ensures cur == MergeSet(cur0, base, desired)
    ensures changed <==> cur != cur0
  {
    cur, changed := cur0, false;
    if base == desired {
      return;
    }
    var removed := Removed(base, desired);
    if removed != [] {
      cur := Filter(cur, x => x !in removed);
      changed := |cur| != |cur0|;
    }
    assert cur == Filter(cur0, x => x !in removed);
    ghost var kept := cur;
    var added;
    cur, added := AppendInPlace(cur, base, desired);
    changed := changed || added;
    if |cur| > |kept| {
      // An element that is new was not in the vector before: had it been removed, it would be in the snapshot.
      var x := cur[|kept|..][0];
      assert x !in removed;
      assert x !in cur0;
      assert x in cur;
    }
  }

  /** Append what is new, one element after the other. */
  method AppendInPlace(cur0: seq<string>, base: seq<string>, desired: seq<string>)
    returns (cur: seq<string>, changed: bool)
    ensures cur == AppendNew(cur0, base, desired)
    ensures cur0 <= cur && (changed <==> |cur| > |cur0|)
    ensures forall x :: x in cur[|cur0|..] ==> x !in base && x in desired && x !in cur0
  {
    cur, changed := cur0, false;
    var i := 0;
    while i < |desired|
      invariant 0 <= i <= |desired|
      invariant cur == AppendNew(cur0, base, desired[..i])
      invariant cur0 <= cur && (changed <==> |cur| > |cur0|)
      invariant forall x :: x in cur[|cur0|..] ==> x !in base && x in desired && x !in cur0
    {
      var x := desired[i];
      assert desired[..i + 1][..i] == desired[..i];
      if x !in base && x !in cur {
        cur := cur + [x];
        changed := true;
      }
      i := i + 1;
    }
    assert desired[..i] == desired;
  }

  lemma {:induction false} AppendNewElems(cur: seq<string>, base: seq<string>, desired: seq<string>)
    ensures Elems(AppendNew(cur, base, desired)) == Elems(cur) + (Elems(desired) - Elems(base))
    ensures cur <= AppendNew(cur, base, desired)
  {
    if desired != [] {
      var front, x := desired[..|desired| - 1], desired[|desired| - 1];
      AppendNewElems(cur, base, front);
      assert Elems(desired) == Elems(front) + {x};
      var r := AppendNew(cur, base, front);
      assert Elems(r + [x]) == Elems(r) + {x};
    }
  }

  /** The merge as a set: drop what the caller removed, add what the caller added. */
  lemma MergeSetElems(cur: seq<string>, base: seq<string>, desired: seq<string>)
    ensures Elems(MergeSet(cur, base, desired))
         == (Elems(cur) - (Elems(base) - Elems(desired))) + (Elems(desired) - Elems(base))
  {
    var removed := Removed(base, desired);
    assert Elems(removed) == Elems(base) - Elems(desired);
    var kept := Filter(cur, x => x !in removed);
    assert Elems(kept) == Elems(cur) - Elems(removed);
    AppendNewElems(kept, base, desired);
  }

  lemma {:induction false} AppendNothing(cur: seq<string>, base: seq<string>, desired: seq<string>)
    requires forall x :: x in desired && x !in base ==> x in cur
    ensures AppendNew(cur, base, desired) == cur
  {
    if desired != [] {
      AppendNothing(cur, base, desired[..|desired| - 1]);
    }
  }

  /** Merging changes nothing exactly when every removal is absent and every addition present. */
  lemma MergeSetUnchanged(cur: seq<string>, base: seq<string>, desired: seq<string>)
    ensures MergeSet(cur, base, desired) == cur
       <==> Elems(cur) !! (Elems(base) - Elems(desired)) && Elems(desired) - Elems(base) <= Elems(cur)
  {
    MergeSetElems(cur, base, desired);
    if Elems(cur) !! (Elems(base) - Elems(desired)) && Elems(desired) - Elems(base) <= Elems(cur) {
      var removed := Removed(base, desired);
      forall x | x in cur
        ensures x !in removed
      {
        assert x in Elems(cur);
        assert x in removed ==> x in Elems(base) - Elems(desired);
      }
      var kept := Filter(cur, x => x !in removed);
      assert kept == cur;
      forall x | x in desired && x !in base
        ensures x in cur
      {
        assert x in Elems(desired) - Elems(base);
      }
      AppendNothing(cur, base, desired);
    }
  }

  lemma MergeSetIdempotent(cur: seq<string>, base: seq<string>, desired: seq<string>)
    ensures MergeSet(MergeSet(cur, base, desired), base, desired) == MergeSet(cur, base, desired)
  {
    MergeSetElems(cur, base, desired);
    MergeSetUnchanged(MergeSet(cur, base, desired), base, desired);
  }

  /** Two merges computed from one snapshot commute as sets, whatever was written in between. */
  lemma MergeSetsCommute(cur: seq<string>, base: seq<string>, d1: seq<string>, d2: seq<string>)
    ensures Elems(MergeSet(MergeSet(cur, base, d1), base, d2)) == Elems(MergeSet(MergeSet(cur, base, d2), base, d1))
  {
    MergeSetElems(cur, base, d1);
    MergeSetElems(cur, base, d2);
    MergeSetElems(MergeSet(cur, base, d1), base, d2);
    MergeSetElems(MergeSet(cur, base, d2), base, d1);
  }

  // ---- The three-way merge of a payload ------------------------------------------

  datatype Patched = Patched(data: Payload, changed: bool, searchable: bool, labels: bool)

  predicate FieldChanges<T(==)>(cur: T, base: T, desired: T) {
    desired != base && cur != desired
  }

  function PatchField<T(==)>(cur: T, base: T, desired: T): T {
    if FieldChanges(cur, base, desired) then desired else cur
  }

  function PatchScalars(c: Payload, b: Payload, d: Payload): Payload {
    c.(content := PatchField(c.content, b.content, d.content),
       contentHash := PatchField(c.contentHash, b.contentHash, d.contentHash),
       timestamp := PatchField(c.timestamp, b.timestamp, d.timestamp),
       embedding := PatchField(c.embedding, b.embedding, d.embedding),
       importance := PatchField(c.importance, b.importance, d.importance),
       enforced := PatchField(c.enforced, b.enforced, d.enforced),
       rationale := PatchField(c.rationale, b.rationale, d.rationale),
       accessCount := PatchField(c.accessCount, b.accessCount, d.accessCount),
       memoryType := PatchField(c.memoryType, b.memoryType, d.memoryType),
       identityStamp := PatchField(c.identityStamp, b.identityStamp, d.identityStamp),
       sourceAgent := PatchField(c.sourceAgent, b.sourceAgent, d.sourceAgent),
       validFrom := PatchField(c.validFrom, b.validFrom, d.validFrom),
       validTo := PatchField(c.validTo, b.validTo, d.validTo),
       expiredAt := PatchField(c.expiredAt, b.expiredAt, d.expiredAt),
       invalidatedAt := PatchField(c.invalidatedAt, b.invalidatedAt, d.invalidatedAt),
       memoryClass := PatchField(c.memoryClass, b.memoryClass, d.memoryClass),
       lastReviewedTs := PatchField(c.lastReviewedTs, b.lastReviewedTs, d.lastReviewedTs))
  }

  predicate ScalarsChange(c: Payload, b: Payload, d: Payload) {
    || FieldChanges(c.content, b.content, d.content)
    || FieldChanges(c.contentHash, b.contentHash, d.contentHash)
    || FieldChanges(c.timestamp, b.timestamp, d.timestamp)
    || FieldChanges(c.embedding, b.embedding, d.embedding)
    || FieldChanges(c.importance, b.importance, d.importance)
    || FieldChanges(c.enforced, b.enforced, d.enforced)
    || FieldChanges(c.rationale, b.rationale, d.rationale)
    || FieldChanges(c.accessCount, b.accessCount, d.accessCount)
    || FieldChanges(c.memoryType, b.memoryType, d.memoryType)
    || FieldChanges(c.identityStamp, b.identityStamp, d.identityStamp)
    || FieldChanges(c.sourceAgent, b.sourceAgent, d.sourceAgent)
    || FieldChanges(c.validFrom, b.validFrom, d.validFrom)
    || FieldChanges(c.validTo, b.validTo, d.validTo)
    || FieldChanges(c.expiredAt, b.expiredAt, d.expiredAt)
    || FieldChanges(c.invalidatedAt, b.invalidatedAt, d.invalidatedAt)
    || FieldChanges(c.memoryClass, b.memoryClass, d.memoryClass)
    || FieldChanges(c.lastReviewedTs, b.lastReviewedTs, d.lastReviewedTs)
  }

  function PatchPayload(c: Payload, b: Payload, d: Payload): Patched {
    var scalars := PatchScalars(c, b, d);
    var labels := MergeSet(c.labels, b.labels, d.labels);
    var aliases := MergeSet(c.aliases, b.aliases, d.aliases);
    Patched(scalars.(labels := labels, aliases := aliases),
            ScalarsChange(c, b, d) || labels != c.labels || aliases != c.aliases,
            FieldChanges(c.content, b.content, d.content) || aliases != c.aliases,
            labels != c.labels)
  }

  lemma ScalarsChangeExactly(c: Payload, b: Payload, d: Payload)
    ensures ScalarsChange(c, b, d) <==> PatchScalars(c, b, d) != c
  {
  }

  lemma ScalarsPatchedOnce(c: Payload, b: Payload, d: Payload)
    ensures !ScalarsChange(PatchScalars(c, b, d), b, d)
  {
  }

  /** The three flags that a patch reports are exact, and a patch applied again reports nothing. */
  lemma PatchFlagsAndIdempotence(c: Payload, b: Payload, d: Payload)
    ensures var p := PatchPayload(c, b, d);
            && (p.changed <==> p.data != c)
            && (p.searchable <==> p.data.content != c.content || p.data.aliases != c.aliases)
            && (p.labels <==> p.data.labels != c.labels)
            && PatchPayload(p.data, b, d) == Patched(p.data, false, false, false)
  {
    MergeSetIdempotent(c.labels, b.labels, d.labels);
    MergeSetIdempotent(c.aliases, b.aliases, d.aliases);
    ScalarsChangeExactly(c, b, d);
    ScalarsPatchedOnce(c, b, d);
    ScalarsPatchedOnce(PatchPayload(c, b, d).data, b, d);
  }

  /** The fields other than the two sets. */
  function Scalars(p: Payload): Payload {
    p.(labels := [], aliases := [])
  }

  predicate SameMemory(p: Payload, q: Payload) {
    Scalars(p) == Scalars(q) && Elems(p.labels) == Elems(q.labels) && Elems(p.aliases) == Elems(q.aliases)
  }

  /** With no write since the snapshot, the patch stores what the caller computed. */
  lemma PatchWithoutInterference(b: Payload, d: Payload)
    ensures SameMemory(PatchPayload(b, b, d).data, d)
  {
    MergeSetElems(b.labels, b.labels, d.labels);
    MergeSetElems(b.aliases, b.aliases, d.aliases);
  }

  predicate Compatible<T(==)>(base: T, d1: T, d2: T) {
    d1 == base || d2 == base || d1 == d2
  }

  /** No scalar field was changed to two different values. */
  predicate CompatibleEdits(b: Payload, d: Payload, e: Payload) {
    && Compatible(b.content, d.content, e.content)
    && Compatible(b.contentHash, d.contentHash, e.contentHash)
    && Compatible(b.timestamp, d.timestamp, e.timestamp)
    && Compatible(b.embedding, d.embedding, e.embedding)
    && Compatible(b.importance, d.importance, e.importance)
    && Compatible(b.enforced, d.enforced, e.enforced)
    && Compatible(b.rationale, d.rationale, e.rationale)
    && Compatible(b.accessCount, d.accessCount, e.accessCount)
    && Compatible(b.memoryType, d.memoryType, e.memoryType)
    && Compatible(b.identityStamp, d.identityStamp, e.identityStamp)
    && Compatible(b.sourceAgent, d.sourceAgent, e.sourceAgent)
    && Compatible(b.validFrom, d.validFrom, e.validFrom)
    && Compatible(b.validTo, d.validTo, e.validTo)
    && Compatible(b.expiredAt, d.expiredAt, e.expiredAt)
    && Compatible(b.invalidatedAt, d.invalidatedAt, e.invalidatedAt)
    && Compatible(b.memoryClass, d.memoryClass, e.memoryClass)
    && Compatible(b.lastReviewedTs, d.lastReviewedTs, e.lastReviewedTs)
  }

  lemma FieldsCommute<T>(c: T, b: T, d: T, e: T)
    ensures PatchField(PatchField(c, b, d), b, e) == PatchField(PatchField(c, b, e), b, d) <==> Compatible(b, d, e)
  {
  }

  lemma ScalarsCommute(c: Payload, b: Payload, d: Payload, e: Payload)
    ensures PatchScalars(PatchScalars(c, b, d), b, e) == PatchScalars(PatchScalars(c, b, e), b, d)
       <==> CompatibleEdits(b, d, e)
  {
    FieldsCommute(c.content, b.content, d.content, e.content);
    FieldsCommute(c.contentHash, b.contentHash, d.contentHash, e.contentHash);
    FieldsCommute(c.timestamp, b.timestamp, d.timestamp, e.timestamp);
    FieldsCommute(c.embedding, b.embedding, d.embedding, e.embedding);
    FieldsCommute(c.importance, b.importance, d.importance, e.importance);
    FieldsCommute(c.enforced, b.enforced, d.enforced, e.enforced);
    FieldsCommute(c.rationale, b.rationale, d.rationale, e.rationale);
    FieldsCommute(c.accessCount, b.accessCount, d.accessCount, e.accessCount);
    FieldsCommute(c.memoryType, b.memoryType, d.memoryType, e.memoryType);
    FieldsCommute(c.identityStamp, b.identityStamp, d.identityStamp, e.identityStamp);
    FieldsCommute(c.sourceAgent, b.sourceAgent, d.sourceAgent, e.sourceAgent);
    FieldsCommute(c.validFrom, b.validFrom, d.validFrom, e.validFrom);
    FieldsCommute(c.validTo, b.validTo, d.validTo, e.validTo);
    FieldsCommute(c.expiredAt, b.expiredAt, d.expiredAt, e.expiredAt);
    FieldsCommute(c.invalidatedAt, b.invalidatedAt, d.invalidatedAt, e.invalidatedAt);
    FieldsCommute(c.memoryClass, b.memoryClass, d.memoryClass, e.memoryClass);
    FieldsCommute(c.lastReviewedTs, b.lastReviewedTs, d.lastReviewedTs, e.lastReviewedTs);
  }

  /** Two patches from one snapshot commute, on every current payload, exactly when their edits are compatible. */
  lemma PatchesCommute(c: Payload, b: Payload, d: Payload, e: Payload)
    ensures SameMemory(PatchPayload(PatchPayload(c, b, d).data, b, e).data,
                       PatchPayload(PatchPayload(c, b, e).data, b, d).data)
       <==> CompatibleEdits(b, d, e)
  {
    MergeSetsCommute(c.labels, b.labels, d.labels, e.labels);
    MergeSetsCommute(c.aliases, b.aliases, d.aliases, e.aliases);
    ScalarsCommute(c, b, d, e);
    PatchedScalars(c, b, d);
    PatchedScalars(c, b, e);
    PatchedScalars(PatchPayload(c, b, d).data, b, e);
    PatchedScalars(PatchPayload(c, b, e).data, b, d);
    PatchScalarsOfScalars(PatchPayload(c, b, d).data, PatchScalars(c, b, d), b, e);
    PatchScalarsOfScalars(PatchPayload(c, b, e).data, PatchScalars(c, b, e), b, d);
  }

  lemma PatchedScalars(c: Payload, b: Payload, d: Payload)
    ensures Scalars(PatchPayload(c, b, d).data) == Scalars(PatchScalars(c, b, d))
  {
  }

  lemma PatchScalarsOfScalars(x: Payload, y: Payload, b: Payload, d: Payload)
    requires Scalars(x) == Scalars(y)
    ensures Scalars(PatchScalars(x, b, d)) == Scalars(PatchScalars(y, b, d))
  {
  }

  // ---- Laws of the operations ------------------------------------------------------

  predicate Repeats(d: Payload, m: real, op: MemoryOp) {
    var once := Apply(d, m, op);
    var twice := Apply(once.data, once.mass, op);
    twice.data == once.data && twice.mass == once.mass
  }

  /** When applying `op` a second time is certain to add nothing: always, except for the two increments. */
  predicate RepeatGuard(d: Payload, m: real, op: MemoryOp) {
    match op
    case AdjustMass(delta) =>
      delta == 0.0 || (delta > 0.0 && m + delta >= MASS_MAX) || (delta < 0.0 && m + delta <= MASS_MIN)
    case AddImportance(delta, max) =>
      Abs(delta) <= F64_EPSILON || (delta > F64_EPSILON && d.importance + delta >= max - F64_EPSILON)
    case _ => true
  }

  /** The documented idempotence of the operations holds exactly under the guard. */
  lemma IdempotentExactly(d: Payload, m: real, op: MemoryOp)
    ensures Repeats(d, m, op) <==> RepeatGuard(d, m, op)
  {
    assert F64_EPSILON > 0.0;
    match op
    case AdjustMass(_) =>
    case AddImportance(_, _) =>
    case _ =>
  }

  /** Adding half a unit of mass twice is not adding it once. */
  lemma AdjustMassIsNotIdempotent(d: Payload)
    ensures !Repeats(d, 1.0, AdjustMass(0.5))
  {
    IdempotentExactly(d, 1.0, AdjustMass(0.5));
  }

  predicate LifecycleOp(op: MemoryOp) {
    op.Quarantine? || op.Supersede? || op.Tombstone?
  }

  /** No operation moves a memory backwards in its lifecycle or touches what is searched. */
  lemma ApplyOnlyMovesForward(d: Payload, m: real, op: MemoryOp)
    ensures var r := Apply(d, m, op);
            && LifecycleOf(r.data).Rank() >= LifecycleOf(d).Rank()
            && r.data.content == d.content && r.data.aliases == d.aliases && r.data.enforced == d.enforced
            && d.labels <= r.data.labels
    ensures d.enforced && LifecycleOp(op) ==> Apply(d, m, op) == Applied(d, m, false)
    ensures op.Supersede? ==> (Apply(d, m, op).changed <==> !d.enforced && LifecycleOf(d) != Superseded)
    ensures op.Supersede? && Apply(d, m, op).changed ==> LifecycleOf(Apply(d, m, op).data) == Superseded
    ensures op.Quarantine? ==> (Apply(d, m, op).changed <==> !d.enforced && LifecycleOf(d) == Active)
    ensures op.Quarantine? && Apply(d, m, op).changed ==> LifecycleOf(Apply(d, m, op).data) == Quarantined
  {
    match op
    case AddLabel(l) =>
      assert forall x :: x in d.labels ==> x in WithLabel(d, l).labels;
    case Quarantine(_, _) =>
      var labelled := WithLabel(d, "quarantine");
      assert forall x :: x in d.labels ==> x in labelled.labels;
      assert d.labels + ["quarantine"] == labelled.labels || labelled == d;
      assert "quarantine" != "superseded";
    case Supersede(_, _, _, _) =>
    case _ =>
  }

  /** A batch changes nothing that is searched, and changes the labels only by making them longer. */
  lemma {:induction false} BatchesOnlyMoveForward(d: Payload, m: real, ops: seq<MemoryOp>)
    ensures var r := ApplyAll(d, m, ops);
      && LifecycleOf(r.data).Rank() >= LifecycleOf(d).Rank()
      && r.data.content == d.content && r.data.aliases == d.aliases && r.data.enforced == d.enforced
      && d.labels <= r.data.labels
  {
    if ops != [] {
      BatchesOnlyMoveForward(d, m, ops[..|ops| - 1]);
      var front := ApplyAll(d, m, ops[..|ops| - 1]);
      ApplyOnlyMovesForward(front.data, front.mass, ops[|ops| - 1]);
    }
  }
}
