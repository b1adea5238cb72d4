/** What counts as junk and as a duplicate, in which order duplicates are merged, and that every memory has its turn. */
module DreamLaws {
  import opened Prelude
  import opened Ops
  import opened OpLaws
  import opened Dream

  // ---- What is quarantined ----------------------------------------------------------------------------------

  /**
   * What a cycle quarantines is active and not enforced, and labelled as junk, lighter than a tenth, or older than
   * thirty days and of little importance; of less than ten such memories in view it leaves none.
   */
  lemma QuarantinedExactly(rows: seq<Row>, now: int, k: nat)
    requires DistinctIds(rows) && k < |rows|
    ensures var d, m := rows[k].data, rows[k].mass;
      var junk := !d.enforced && "superseded" !in d.labels && d.validTo.None? && "quarantine" !in d.labels
        && ("junk" in d.labels || m < 0.1 || ((now - d.timestamp) as real > 2592000.0 && d.importance < 0.3));
      && (rows[k].id in Junk(rows, now) ==> junk)
      && (junk && |Junk(rows, now)| < 10 ==> rows[k].id in Junk(rows, now))
  {
    hide Junk;
    JunkGuarantees(rows, now);
    var age := (now - rows[k].data.timestamp) as real;
    assert age / 86400.0 > 30.0 <==> age > 2592000.0;
    if rows[k].id in Junk(rows, now) {
      var j :| 0 <= j < |rows| && rows[j].id == rows[k].id && IsJunk(now, rows[j]);
      assert j == k;
    }
  }

  lemma {:induction false} JunkGrows(rows: seq<Row>, now: int, k: nat)
    requires k <= |rows|
    ensures Junk(rows[..k], now) <= Junk(rows, now)
    decreases |rows| - k
  {
    hide IsJunk;
    if k == |rows| {
      assert rows[..k] == rows;
    } else {
      assert rows[..k + 1][..k] == rows[..k];
      JunkGrows(rows, now, k + 1);
    }
  }

  /** The first ten come first: a junk memory is left alone exactly if ten before it were quarantined. */
  lemma FirstTenExactly(rows: seq<Row>, now: int, k: nat)
    requires DistinctIds(rows) && k < |rows| && IsJunk(now, rows[k])
    ensures rows[k].id in Junk(rows, now) <==> |Junk(rows[..k], now)| < 10
  {
    hide IsJunk;
    var front, next := rows[..k], rows[..k + 1];
    assert next[..k] == front && next[k] == rows[k];
    if |Junk(front, now)| < 10 {
      assert Junk(next, now) == Junk(front, now) + [rows[k].id];
      JunkGrows(rows, now, k + 1);
      assert Junk(rows, now)[|Junk(front, now)|] == rows[k].id;
    } else {
      FullStaysFull(rows, now, k);
      JunkGuarantees(front, now);
    }
  }

  /** A quarantined memory is labelled, of little importance, and as light as can be. */
  lemma QuarantinedAreDemoted(c: Corpus, ids: seq<Id>, id: Id)
    requires NoDup(ids) && (forall k :: k in ids ==> k in c) && id in ids
    requires !c[id].data.enforced && LifecycleOf(c[id].data) == Active && c[id].mass >= 0.1
    ensures id in AfterQuarantine(c, ids)
    ensures var d, m := c[id].data, AfterQuarantine(c, ids)[id];
      && m.data.labels == d.labels + ["quarantine"] && m.mass == 0.1
      && m.data.importance == if d.importance > 0.3 then 0.3 else d.importance
  {
    hide AfterQuarantine, Apply;
    QuarantineDoes(c, ids);
    QuarantiningExactly(c[id].data, c[id].mass, IMPORTANCE_FLOOR, MASS_MIN);
    CappingAndSetting(c[id].data, c[id].mass, IMPORTANCE_FLOOR);
    MassExactly(c[id].data, c[id].mass, MASS_MIN);
  }

  // ---- What is merged -----------------------------------------------------------------------------------------

  /**
   * Two merged memories are neither enforced nor superseded, carry no label of the engine's own, have healthy vectors
   * that are more similar than 0.95, and the heavier of them stays.
   */
  lemma MergedAreDuplicates(rows: seq<Row>, v: Vectors, depth: nat, m: Merge)
    requires DistinctIds(rows) && m in Plan(rows, v, depth)
    ensures exists p: Pair ::
      p.i < p.j < |rows| && Duplicates(rows[p.i], rows[p.j], v) &&
      (if rows[p.i].mass >= rows[p.j].mass then m == Merge(rows[p.i].id, rows[p.j].id)
       else m == Merge(rows[p.j].id, rows[p.i].id))
  {
    hide Plan, Enough, Pairs, Candidates;
    PlanGuarantees(rows, v, depth);
    var p :| SimilarPair(rows, v, p) && m == MergeOf(rows, p);
    assert Duplicates(rows[p.i], rows[p.j], v);
  }

  ghost predicate Duplicates(a: Row, b: Row, v: Vectors) {
    && Mergeworthy(a.data, v) && Mergeworthy(b.data, v)
    && v.similarity(a.data.embedding, b.data.embedding) > 0.95
  }

  ghost predicate Mergeworthy(d: Payload, v: Vectors) {
    && !d.enforced && "superseded" !in d.labels && d.validTo.None?
    && (forall l :: l in d.labels ==> !("meta-" <= l))
    && v.healthy(d.embedding)
  }

  /** The scan stops early exactly over more than thirty candidates, with three pairs found for each merge allowed. */
  lemma StopsEarlyExactly(rows: seq<Row>, v: Vectors, depth: nat)
    ensures Enough(Candidates(rows, v), Pairs(rows, v, depth), depth) <==>
      |Candidates(rows, v)| > 30 && |Pairs(rows, v, depth)| >= 3 * depth
  {
    hide Candidates, Pairs;
  }

  lemma {:induction false} ChosenGrows(rows: seq<Row>, pairs: seq<Pair>, depth: nat, k: nat)
    requires ProperPairs(rows, pairs) && k <= |pairs| && ProperPairs(rows, pairs[..k])
    ensures Chosen(rows, pairs[..k], depth) <= Chosen(rows, pairs, depth)
    decreases |pairs| - k
  {
    hide MergeOf;
    if k == |pairs| {
      assert pairs[..k] == pairs;
    } else {
      assert pairs[..k + 1][..k] == pairs[..k];
      assert ProperPairs(rows, pairs[..k + 1]);
      ChosenGrows(rows, pairs, depth, k + 1);
    }
  }

  /**
   * The most similar pairs come first: if a pair that was found is left alone, both its memories remaining, then the
   * limit is used up, and by pairs that are at least as similar.
   */
  lemma MostSimilarFirst(rows: seq<Row>, v: Vectors, depth: nat, p: Pair)
    requires DistinctIds(rows) && p in Pairs(rows, v, depth) && p.i < |rows| && p.j < |rows|
    requires rows[p.i].id !in RemovedIds(Plan(rows, v, depth)) && rows[p.j].id !in RemovedIds(Plan(rows, v, depth))
    ensures |Plan(rows, v, depth)| == depth
    ensures forall m :: m in Plan(rows, v, depth) ==> exists q ::
      SimilarPair(rows, v, q) && m == MergeOf(rows, q) && q.score >= p.score
  {
    hide Pairs, IsCandidate, ByScore, RemovedIds, MergeOf, SimilarPair, Chosen, Descending, AllSimilar;
    PlanIsProper(rows, v, depth);
    var found := Pairs(rows, v, depth);
    var sorted := ByScore(found);
    ByScoreIsSorted(found);
    assert p in multiset(found) && p in multiset(sorted);
    var k :| 0 <= k < |sorted| && sorted[k] == p;
    var front := sorted[..k];
    assert ProperPairs(rows, front) && ProperPairs(rows, sorted[..k + 1]);
    UnresolvedMeansFull(rows, sorted, depth, k);
    LimitStays(rows, sorted, depth, k);
    ChosenKeepersLead(rows, sorted, depth);
    AsSimilarAs(rows, v, sorted, depth, k);
  }

  lemma AsSimilarAs(rows: seq<Row>, v: Vectors, sorted: seq<Pair>, depth: nat, k: nat)
    requires DistinctIds(rows) && AllSimilar(rows, v, sorted) && Descending(sorted) && k < |sorted|
    requires ProperPairs(rows, sorted[..k])
    ensures forall m :: m in Chosen(rows, sorted[..k], depth) ==> exists q ::
      SimilarPair(rows, v, q) && m == MergeOf(rows, q) && q.score >= sorted[k].score
  {
    hide Chosen, IsCandidate, MergeOf;
    var front := sorted[..k];
    ChosenKeepersLead(rows, front, depth);
    forall m | m in Chosen(rows, front, depth)
      ensures exists q :: SimilarPair(rows, v, q) && m == MergeOf(rows, q) && q.score >= sorted[k].score
    {
      var q :| q in front && m == MergeOf(rows, q);
      var j :| 0 <= j < k && sorted[j] == q;
      assert SimilarPair(rows, v, sorted[j]) && sorted[j].score >= sorted[k].score;
    }
  }

  lemma UnresolvedMeansFull(rows: seq<Row>, pairs: seq<Pair>, depth: nat, k: nat)
    requires ProperPairs(rows, pairs) && k < |pairs|
    requires ProperPairs(rows, pairs[..k]) && ProperPairs(rows, pairs[..k + 1])
    requires var gone := RemovedIds(Chosen(rows, pairs, depth));
      rows[pairs[k].i].id !in gone && rows[pairs[k].j].id !in gone
    ensures |Chosen(rows, pairs[..k], depth)| >= depth
  {
    hide Chosen, RemovedIds;
    ChosenGrows(rows, pairs, depth, k + 1);
    RemovedGrow(Chosen(rows, pairs[..k + 1], depth), Chosen(rows, pairs, depth));
    if |Chosen(rows, pairs[..k], depth)| < depth {
      OneIsGone(rows, pairs, depth, k);
    }
  }

  /** Below the limit, a pair's turn ends with one of the two removed. */
  lemma OneIsGone(rows: seq<Row>, pairs: seq<Pair>, depth: nat, k: nat)
    requires k < |pairs| && ProperPairs(rows, pairs[..k]) && ProperPairs(rows, pairs[..k + 1])
    requires |Chosen(rows, pairs[..k], depth)| < depth
    ensures pairs[k].i < |rows| && pairs[k].j < |rows|
    ensures var gone := RemovedIds(Chosen(rows, pairs[..k + 1], depth));
      rows[pairs[k].i].id in gone || rows[pairs[k].j].id in gone
  {
    var before, after := Chosen(rows, pairs[..k], depth), Chosen(rows, pairs[..k + 1], depth);
    assert pairs[..k + 1][..k] == pairs[..k] && pairs[..k + 1][k] == pairs[k];
    if after != before {
      assert RemovedIds(after)[|before|] == MergeOf(rows, pairs[k]).removed;
    }
  }

  /** A removed memory ends now, and is demoted to three twentieths of its importance or the floor. */
  lemma RemovedAreDemoted(c: Corpus, ms: seq<Merge>, now: int, id: Id)
    requires KeepersLead(ms) && Mergeable(c, ms) && id in c && id in RemovedIds(ms)
    ensures id in AfterMerges(c, ms, now)
    ensures var d, m := c[id].data, AfterMerges(c, ms, now)[id];
      && m.data.labels == d.labels + ["superseded"] && m.data.validTo == Some(now) && m.data.content == d.content
      && m.mass <= 0.1
      && m.data.importance == if 0.15 * d.importance > 0.3 then 0.15 * d.importance else 0.3
  {
    hide AfterMerges, Apply, LifecycleOf, Keeps, KeepersLead;
    MergesDo(c, ms, now);
    assert MergedOne(c, AfterMerges(c, ms, now), ms, now, id);
    var k :| 0 <= k < |ms| && RemovedIds(ms)[k] == id;
    SupersedingExactly(c[id].data, c[id].mass, now, 0.15, IMPORTANCE_FLOOR, MASS_MIN);
    OnlyTheseFields(c[id].data, c[id].mass, SupersedeAt(now));
  }

  function TimesKept(ms: seq<Merge>, id: Id): nat {
    if ms == [] then 0 else TimesKept(ms[..|ms| - 1], id) + if ms[|ms| - 1].keeper == id then 1 else 0
  }

  /** A memory that stays gains half a unit of mass for each one merged into it, up to the maximum. */
  lemma {:induction false} KeepersGain(c: Corpus, ms: seq<Merge>, now: int, id: Id)
    requires id in c && id !in RemovedIds(ms) && 0.1 <= c[id].mass <= 100.0
    ensures id in AfterMerges(c, ms, now)
    ensures var sum := c[id].mass + 0.5 * TimesKept(ms, id) as real;
      AfterMerges(c, ms, now)[id].mass == if sum > 100.0 then 100.0 else sum
    decreases |ms|
  {
    if ms != [] {
      var front, m := ms[..|ms| - 1], ms[|ms| - 1];
      RemovedGrow(front, ms);
      assert RemovedIds(ms)[|ms| - 1] == m.removed;
      KeepersGain(c, front, now, id);
      hide AfterMerges, Apply, RemovedIds;
      StepGains(AfterMerges(c, front, now), m, now, id);
    }
  }

  lemma StepGains(c: Corpus, m: Merge, now: int, id: Id)
    requires id in c && id != m.removed && 0.1 <= c[id].mass <= 100.0
    ensures var c' := Step(Step(c, m.removed, SupersedeAt(now)), m.keeper, AdjustMass(0.5));
      && id in c'
      && c'[id].mass == if m.keeper != id then c[id].mass else if c[id].mass > 99.5 then 100.0 else c[id].mass + 0.5
  {
    hide Apply;
    MassExactly(c[id].data, c[id].mass, 0.5);
  }

  // ---- The rotating window ------------------------------------------------------------------------------------

  lemma {:induction false} ModPlusMultiple(r: nat, q: nat, n: nat)
    requires n > 0
    ensures (r + q * n) % n == r % n
  {
    var x := r + q * n;
    assert (x / n - q - r / n) * n == r % n - x % n;
    Cancels(x / n - q - r / n, n);
  }

  lemma Cancels(p: int, n: int)
    requires -n < p * n < n
    ensures p == 0
  {
    if p > 0 {
      AtLeastOnce(p, n);
    } else if p < 0 {
      AtLeastOnce(-p, n);
    }
  }

  lemma AtLeastOnce(p: int, n: int)
    requires p > 0 && n > 0
    ensures p * n >= n
  {
    assert p * n == (p - 1) * n + n && (p - 1) * n >= 0;
  }

  lemma ModAdd(x: nat, k: nat, n: nat)
    requires n > 0
    ensures (x % n + k) % n == (x + k) % n
  {
    ModPlusMultiple(x % n + k, x / n, n);
    assert x == x % n + (x / n) * n;
  }

  /**
   * The window rolls over a whole corpus: within as many consecutive hours as windows are needed to cover it, every
   * memory is in view of one cycle. The corpus and its order do not change meanwhile.
   */
  lemma EveryMemoryHasItsTurn(all: seq<Row>, hourSlot: nat, x: nat) returns (later: nat)
    requires |all| > 1500 && x < |all|
    ensures later * 1500 < |all| && all[x] in Window(all, hourSlot + later)
  {
    var n := |all|;
    var start := (hourSlot * 1500) % n;
    var d := if x >= start then x - start else x + n - start;
    var k := d % 1500;
    later := d / 1500;
    assert d == later * 1500 + k;
    assert (hourSlot + later) * 1500 == hourSlot * 1500 + later * 1500;
    ModAdd((hourSlot + later) * 1500, k, n);
    ModAdd(hourSlot * 1500, d, n);
    assert (start + d) % n == x by { Wraps(start + d, n); }
    assert Window(all, hourSlot + later)[k] == all[x];
  }
}
