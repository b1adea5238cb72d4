/** One dream cycle: quarantine of junk, and superseding of near-duplicates by heavier memories. */
module Dream {
  import opened Prelude
  import opened Ops

  datatype Mem = Mem(data: Payload, mass: real)

  /** One memory as a snapshot of the corpus shows it. */
  datatype Row = Row(id: Id, data: Payload, mass: real)

  type Corpus = map<Id, Mem>

  const MAX_CONSOLIDATION_PER_CYCLE: nat := 1500
  const MAX_QUARANTINED_PER_CYCLE: nat := 10
  const SMALL_SCAN: nat := 30
  const IMPORTANCE_FLOOR: real := 0.3
  const MERGE_THRESHOLD: real := 0.95
  const SECONDS_PER_DAY: real := 86400.0

  /** What the vector layer contributes: which embeddings can be trusted, and how similar two of them are. */
  datatype Vectors = Vectors(healthy: seq<real> -> bool, similarity: (seq<real>, seq<real>) -> real)

  function Step(c: Corpus, id: Id, op: MemoryOp): Corpus {
    if id in c then
      var r := Apply(c[id].data, c[id].mass, op);
      c[id := Mem(r.data, r.mass)]
    else c
  }

  // ---- Quarantine --------------------------------------------------------------------------------------

  const QUARANTINE: MemoryOp := Quarantine(IMPORTANCE_FLOOR, MASS_MIN)

  predicate LooksLikeJunk(r: Row, now: int) {
    || "junk" in r.data.labels
    || r.mass < 0.1
    || ((now - r.data.timestamp) as real / SECONDS_PER_DAY > 30.0 && r.data.importance < 0.3)
  }

  predicate IsJunk(now: int, r: Row) {
    LifecycleOf(r.data) == Active && LooksLikeJunk(r, now) && !r.data.enforced
  }

  /** The memories quarantined: the first ten junk rows. */
  function Junk(rows: seq<Row>, now: int): (r: seq<Id>)
    ensures |r| <= MAX_QUARANTINED_PER_CYCLE
  {
    if rows == [] then []
    else
      var front := Junk(rows[..|rows| - 1], now);
      var row := rows[|rows| - 1];
      if |front| < MAX_QUARANTINED_PER_CYCLE && IsJunk(now, row) then front + [row.id] else front
  }

  function AfterQuarantine(c: Corpus, ids: seq<Id>): Corpus {
    if ids == [] then c else Step(AfterQuarantine(c, ids[..|ids| - 1]), ids[|ids| - 1], QUARANTINE)
  }

  // ---- Near-duplicates -----------------------------------------------------------------------------------

  predicate IsMeta(l: string) {
    "meta-" <= l
  }

  predicate IsCandidate(v: Vectors, r: Row) {
    && !r.data.enforced
    && (forall l :: l in r.data.labels ==> !IsMeta(l))
    && LifecycleOf(r.data) != Superseded
    && v.healthy(r.data.embedding)
  }

  /** The positions of the rows that may be merged, in order. */
  function Candidates(rows: seq<Row>, v: Vectors): (r: seq<nat>)
    ensures forall i :: i in r ==> i < |rows| && IsCandidate(v, rows[i])
    ensures forall i :: 0 <= i < |rows| && IsCandidate(v, rows[i]) ==> i in r
    ensures forall a, b :: 0 <= a < b < |r| ==> r[a] < r[b]
  {
    if rows == [] then []
    else
      var last := |rows| - 1;
      var front := Candidates(rows[..last], v);
      assert forall a :: 0 <= a < |front| ==> front[a] in front;
      if IsCandidate(v, rows[last]) then front + [last] else front
  }

  ghost predicate Within(s: seq<nat>, n: nat) {
    forall k :: 0 <= k < |s| ==> s[k] < n
  }

  datatype Pair = Pair(i: nat, j: nat, score: real)

  /** The similar rows behind row `i` among the candidates `rest`. */
  function SimilarTo(rows: seq<Row>, v: Vectors, i: nat, rest: seq<nat>): seq<Pair>
    requires i < |rows| && Within(rest, |rows|)
  {
    if rest == [] then []
    else
      var j := rest[|rest| - 1];
      assert Within(rest[..|rest| - 1], |rows|);
      var front := SimilarTo(rows, v, i, rest[..|rest| - 1]);
      var score := v.similarity(rows[i].data.embedding, rows[j].data.embedding);
      if score > MERGE_THRESHOLD then front + [Pair(i, j, score)] else front
  }

  predicate Enough(candidates: seq<nat>, found: seq<Pair>, depth: nat) {
    |candidates| > SMALL_SCAN && |found| >= depth * 3
  }

  /** The pairs found row by row; a large scan stops once it has found enough. */
  function PairsUpTo(rows: seq<Row>, v: Vectors, cs: seq<nat>, depth: nat, n: nat): seq<Pair>
    requires n <= |cs| && Within(cs, |rows|)
  {
    if n == 0 then []
    else
      var found := PairsUpTo(rows, v, cs, depth, n - 1);
      if n > 1 && Enough(cs, found, depth) then found
      else
        assert Within(cs[n..], |rows|);
        found + SimilarTo(rows, v, cs[n - 1], cs[n..])
  }

  function InsertByScore(s: seq<Pair>, p: Pair): seq<Pair> {
    if s == [] || p.score > s[0].score then [p] + s else [s[0]] + InsertByScore(s[1..], p)
  }

  /** Most similar first; equally similar pairs keep their order. */
  function ByScore(s: seq<Pair>): seq<Pair> {
    if s == [] then [] else InsertByScore(ByScore(s[..|s| - 1]), s[|s| - 1])
  }

  /** Pairs of two different rows. */
  ghost predicate ProperPairs(rows: seq<Row>, pairs: seq<Pair>) {
    forall k :: 0 <= k < |pairs| ==> pairs[k].i < |rows| && pairs[k].j < |rows| && pairs[k].i != pairs[k].j
  }

  datatype Merge = Merge(keeper: Id, removed: Id)

  function MergeOf(rows: seq<Row>, p: Pair): Merge
    requires p.i < |rows| && p.j < |rows|
  {
    if rows[p.i].mass >= rows[p.j].mass then Merge(rows[p.i].id, rows[p.j].id) else Merge(rows[p.j].id, rows[p.i].id)
  }

  function RemovedIds(ms: seq<Merge>): (r: seq<Id>)
    ensures |r| == |ms| && forall k :: 0 <= k < |r| ==> r[k] == ms[k].removed
  {
    seq(|ms|, k requires 0 <= k < |ms| => ms[k].removed)
  }

  /** The merges made: pair by pair, unless one of the two is already gone or the limit is reached. */
  function Chosen(rows: seq<Row>, pairs: seq<Pair>, depth: nat): seq<Merge>
    requires ProperPairs(rows, pairs)
  {
    if pairs == [] then []
    else
      var p := pairs[|pairs| - 1];
      assert ProperPairs(rows, pairs[..|pairs| - 1]);
      var front := Chosen(rows, pairs[..|pairs| - 1], depth);
      if |front| >= depth || rows[p.i].id in RemovedIds(front) || rows[p.j].id in RemovedIds(front) then front
      else front + [MergeOf(rows, p)]
  }

  function SupersedeAt(now: int): MemoryOp {
    Supersede(now, 0.15, IMPORTANCE_FLOOR, MASS_MIN)
  }

  function AfterMerges(c: Corpus, ms: seq<Merge>, now: int): Corpus {
    if ms == [] then c
    else
      var m := ms[|ms| - 1];
      Step(Step(AfterMerges(c, ms[..|ms| - 1], now), m.removed, SupersedeAt(now)), m.keeper, AdjustMass(0.5))
  }

  // ---- What the choice of merges guarantees -------------------------------------------------------------------

  ghost predicate DistinctIds(rows: seq<Row>) {
    forall a, b :: 0 <= a < b < |rows| ==> rows[a].id != rows[b].id
  }

  /** Nothing is removed twice, and what is kept by a merge has not been removed before. */
  ghost predicate KeepersLead(ms: seq<Merge>) {
    && NoDup(RemovedIds(ms))
    && forall a, b :: 0 <= a <= b < |ms| ==> ms[a].removed != ms[b].keeper
  }

  lemma {:induction false} ChosenKeepersLead(rows: seq<Row>, pairs: seq<Pair>, depth: nat)
    requires DistinctIds(rows) && ProperPairs(rows, pairs)
    ensures var ms := Chosen(rows, pairs, depth); KeepersLead(ms) && |ms| <= depth
    ensures forall m :: m in Chosen(rows, pairs, depth) ==> exists p :: p in pairs && m == MergeOf(rows, p)
  {
    if pairs != [] {
      var front, p := pairs[..|pairs| - 1], pairs[|pairs| - 1];
      assert forall q :: q in front ==> q in pairs;
      ChosenKeepersLead(rows, front, depth);
      var before := Chosen(rows, front, depth);
      assert p in pairs;
      if !(|before| >= depth || rows[p.i].id in RemovedIds(before) || rows[p.j].id in RemovedIds(before)) {
        KeepersLeadOneMore(before, MergeOf(rows, p));
      }
    }
  }

  lemma KeepersLeadOneMore(ms: seq<Merge>, m: Merge)
    requires KeepersLead(ms) && m.keeper != m.removed
    requires m.keeper !in RemovedIds(ms) && m.removed !in RemovedIds(ms)
    ensures KeepersLead(ms + [m])
  {
    var r, r' := RemovedIds(ms), RemovedIds(ms + [m]);
    assert r' == r + [m.removed];
    forall a, b | 0 <= a <= b < |ms + [m]| ensures (ms + [m])[a].removed != (ms + [m])[b].keeper {
      if b == |ms| && a < b {
        assert r[a] in r;
      }
    }
  }

  /** Who keeps a removed memory. */
  function KeeperOf(ms: seq<Merge>, id: Id): (k: nat)
    ensures k <= |ms|
    ensures k < |ms| ==> ms[k].removed == id
    ensures k == |ms| ==> id !in RemovedIds(ms)
  {
    if ms == [] then 0
    else if ms[0].removed == id then 0
    else
      var k := 1 + KeeperOf(ms[1..], id);
      assert k == |ms| ==> forall j :: 0 < j < |ms| ==> RemovedIds(ms[1..])[j - 1] == ms[j].removed;
      k
  }

  /** The end of the chain of keepers, starting among the merges from `from` on. */
  function Survivor(ms: seq<Merge>, id: Id, from: nat): (s: Id)
    requires from <= |ms|
    ensures s == id || exists m :: m in ms && s == m.keeper
    decreases |ms| - from
  {
    var k := KeeperOf(ms[from..], id);
    if from + k == |ms| then id else Survivor(ms, ms[from + k].keeper, from + k + 1)
  }

  /** Each chain ends at a memory that no merge removes. */
  lemma {:induction false} SurvivorIsKept(ms: seq<Merge>, id: Id, from: nat)
    requires from <= |ms| && KeepersLead(ms) && id !in RemovedIds(ms[..from])
    ensures Survivor(ms, id, from) !in RemovedIds(ms)
    decreases |ms| - from
  {
    hide KeeperOf, RemovedIds, KeepersLead;
    var k := KeeperOf(ms[from..], id);
    if from + k == |ms| {
      NotRemovedInParts(ms, id, from);
    } else {
      KeeperNotYetRemoved(ms, from + k);
      SurvivorIsKept(ms, ms[from + k].keeper, from + k + 1);
    }
  }

  lemma NotRemovedInParts(ms: seq<Merge>, id: Id, n: nat)
    requires n <= |ms| && id !in RemovedIds(ms[..n]) && id !in RemovedIds(ms[n..])
    ensures id !in RemovedIds(ms)
  {
    var all, early, late := RemovedIds(ms), RemovedIds(ms[..n]), RemovedIds(ms[n..]);
    assert all == early + late;
  }

  lemma KeeperNotYetRemoved(ms: seq<Merge>, k: nat)
    requires k < |ms| && KeepersLead(ms)
    ensures ms[k].keeper !in RemovedIds(ms[..k + 1])
  {
    var early := RemovedIds(ms[..k + 1]);
    assert forall a :: 0 <= a < |early| ==> early[a] == ms[a].removed;
  }

  /** Following the chain never leads to a lighter memory. */
  lemma {:induction false} SurvivorIsNotLighter(c: Corpus, ms: seq<Merge>, id: Id, from: nat)
    requires from <= |ms| && id in c && HeavierKeeps(c, ms)
    ensures Survivor(ms, id, from) in c && c[Survivor(ms, id, from)].mass >= c[id].mass
    decreases |ms| - from
  {
    hide KeeperOf, RemovedIds;
    var k := KeeperOf(ms[from..], id);
    if from + k < |ms| {
      SurvivorIsNotLighter(c, ms, ms[from + k].keeper, from + k + 1);
    }
  }

  ghost predicate HeavierKeeps(c: Corpus, ms: seq<Merge>) {
    forall k :: 0 <= k < |ms| ==>
      ms[k].keeper in c && ms[k].removed in c && c[ms[k].keeper].mass >= c[ms[k].removed].mass
  }

  // ---- What is found -------------------------------------------------------------------------------------------

  /** A pair of similar candidates, the earlier row first. */
  ghost predicate SimilarPair(rows: seq<Row>, v: Vectors, p: Pair) {
    && p.i < p.j < |rows|
    && IsCandidate(v, rows[p.i]) && IsCandidate(v, rows[p.j])
    && p.score == v.similarity(rows[p.i].data.embedding, rows[p.j].data.embedding) > MERGE_THRESHOLD
  }

  ghost predicate AllSimilar(rows: seq<Row>, v: Vectors, pairs: seq<Pair>) {
    forall k :: 0 <= k < |pairs| ==> SimilarPair(rows, v, pairs[k])
  }

  lemma {:induction false} SimilarToFinds(rows: seq<Row>, v: Vectors, i: nat, rest: seq<nat>)
    requires i < |rows| && IsCandidate(v, rows[i])
    requires forall k :: 0 <= k < |rest| ==> i < rest[k] < |rows| && IsCandidate(v, rows[rest[k]])
    ensures AllSimilar(rows, v, SimilarTo(rows, v, i, rest))
    ensures forall p: Pair :: p.i == i && SimilarPair(rows, v, p) && p.j in rest ==> p in SimilarTo(rows, v, i, rest)
  {
    hide IsCandidate;
    if rest != [] {
      var last := |rest| - 1;
      SimilarToFinds(rows, v, i, rest[..last]);
      forall p: Pair | p.i == i && SimilarPair(rows, v, p) && p.j in rest ensures p in SimilarTo(rows, v, i, rest) {
        assert p.j in rest[..last] || p.j == rest[last];
      }
    }
  }

  ghost predicate CandidateList(rows: seq<Row>, v: Vectors, cs: seq<nat>) {
    && (forall k :: 0 <= k < |cs| ==> cs[k] < |rows| && IsCandidate(v, rows[cs[k]]))
    && (forall a, b :: 0 <= a < b < |cs| ==> cs[a] < cs[b])
  }

  /** The scan finds similar candidates only, and unless it stopped early it finds all of them. */
  lemma {:induction false} ScanFinds(rows: seq<Row>, v: Vectors, cs: seq<nat>, depth: nat, n: nat)
    requires CandidateList(rows, v, cs) && n <= |cs|
    ensures AllSimilar(rows, v, PairsUpTo(rows, v, cs, depth, n))
    ensures !Enough(cs, PairsUpTo(rows, v, cs, depth, n), depth) ==>
      forall p: Pair, a :: 0 <= a < n && p.i == cs[a] && p.j in cs && SimilarPair(rows, v, p) ==>
        p in PairsUpTo(rows, v, cs, depth, n)
  {
    hide IsCandidate, SimilarPair;
    if n > 0 {
      ScanFinds(rows, v, cs, depth, n - 1);
      var found := PairsUpTo(rows, v, cs, depth, n - 1);
      if !(n > 1 && Enough(cs, found, depth)) {
        SimilarToFinds(rows, v, cs[n - 1], cs[n..]);
        var all := PairsUpTo(rows, v, cs, depth, n);
        forall p: Pair, a | !Enough(cs, all, depth) && 0 <= a < n && p.i == cs[a] && p.j in cs
          && SimilarPair(rows, v, p)
          ensures p in all
        {
          if a == n - 1 {
            LaterCandidate(rows, v, cs, p, a);
          } else {
            assert !Enough(cs, found, depth);
          }
        }
      }
    }
  }

  lemma LaterCandidate(rows: seq<Row>, v: Vectors, cs: seq<nat>, p: Pair, a: nat)
    requires CandidateList(rows, v, cs) && a < |cs| && p.i == cs[a] && p.j in cs && SimilarPair(rows, v, p)
    ensures p.j in cs[a + 1..]
  {
    hide IsCandidate;
    var b :| 0 <= b < |cs| && cs[b] == p.j;
    assert b > a;
    assert cs[a + 1..][b - a - 1] == p.j;
  }

  ghost predicate Descending(s: seq<Pair>) {
    forall a, b :: 0 <= a < b < |s| ==> s[a].score >= s[b].score
  }

  lemma {:induction false} InsertByScoreIs(s: seq<Pair>, p: Pair)
    requires Descending(s)
    ensures Descending(InsertByScore(s, p)) && multiset(InsertByScore(s, p)) == multiset(s) + multiset{p}
  {
    if s != [] && p.score <= s[0].score {
      InsertByScoreIs(s[1..], p);
      hide InsertByScore;
      assert InsertByScore(s, p) == [s[0]] + InsertByScore(s[1..], p) by { InsertBehind(s, p); }
      PrependKeepsOrder(s, p, InsertByScore(s[1..], p));
    }
  }

  lemma InsertBehind(s: seq<Pair>, p: Pair)
    requires s != [] && p.score <= s[0].score
    ensures InsertByScore(s, p) == [s[0]] + InsertByScore(s[1..], p)
  {
  }

  lemma PrependKeepsOrder(s: seq<Pair>, p: Pair, r: seq<Pair>)
    requires s != [] && Descending(s) && p.score <= s[0].score
    requires Descending(r) && multiset(r) == multiset(s[1..]) + multiset{p}
    ensures Descending([s[0]] + r) && multiset([s[0]] + r) == multiset(s) + multiset{p}
  {
    assert s == [s[0]] + s[1..];
    forall k | 0 <= k < |r| ensures s[0].score >= r[k].score {
      assert r[k] in multiset(r);
    }
  }

  /** Sorting by score keeps every pair, as often as it was found, and puts the most similar ones first. */
  lemma {:induction false} ByScoreIsSorted(s: seq<Pair>)
    ensures Descending(ByScore(s)) && multiset(ByScore(s)) == multiset(s)
  {
    if s != [] {
      ByScoreIsSorted(s[..|s| - 1]);
      InsertByScoreIs(ByScore(s[..|s| - 1]), s[|s| - 1]);
      assert s == s[..|s| - 1] + [s[|s| - 1]];
    }
  }

  /** The merges of one cycle, from the rows it saw. */
  function Plan(rows: seq<Row>, v: Vectors, depth: nat): seq<Merge> {
    PlanIsProper(rows, v, depth);
    Chosen(rows, ByScore(Pairs(rows, v, depth)), depth)
  }

  function Pairs(rows: seq<Row>, v: Vectors, depth: nat): seq<Pair> {
    var cs := Candidates(rows, v);
    assert forall k :: 0 <= k < |cs| ==> cs[k] in cs;
    PairsUpTo(rows, v, cs, depth, |cs|)
  }

  lemma PlanIsProper(rows: seq<Row>, v: Vectors, depth: nat)
    ensures AllSimilar(rows, v, ByScore(Pairs(rows, v, depth))) && ProperPairs(rows, ByScore(Pairs(rows, v, depth)))
  {
    hide IsCandidate, ByScore;
    var cs := Candidates(rows, v);
    assert forall k :: 0 <= k < |cs| ==> cs[k] in cs;
    ScanFinds(rows, v, cs, depth, |cs|);
    var found := Pairs(rows, v, depth);
    ByScoreIsSorted(found);
    var sorted := ByScore(found);
    forall k | 0 <= k < |sorted| ensures SimilarPair(rows, v, sorted[k]) {
      assert sorted[k] in multiset(sorted);
      assert sorted[k] in multiset(found);
    }
  }

  ghost predicate LostOne(rows: seq<Row>, ms: seq<Merge>, p: Pair) {
    p.i < |rows| && p.j < |rows| && (rows[p.i].id in RemovedIds(ms) || rows[p.j].id in RemovedIds(ms))
  }

  ghost predicate JoinsSimilar(rows: seq<Row>, v: Vectors, m: Merge) {
    exists p :: SimilarPair(rows, v, p) && m == MergeOf(rows, p)
  }

  lemma MergeJoinsSimilar(rows: seq<Row>, v: Vectors, pairs: seq<Pair>, depth: nat, m: Merge)
    requires AllSimilar(rows, v, pairs) && ProperPairs(rows, pairs) && DistinctIds(rows)
    requires m in Chosen(rows, pairs, depth)
    ensures JoinsSimilar(rows, v, m)
  {
    hide MergeOf, Chosen, IsCandidate;
    ChosenKeepersLead(rows, pairs, depth);
    var p :| p in pairs && m == MergeOf(rows, p);
    assert SimilarPair(rows, v, p);
  }

  /** If the limit was not reached, every pair considered has lost one of its two memories. */
  lemma {:induction false} ChosenIsThorough(rows: seq<Row>, pairs: seq<Pair>, depth: nat, p: Pair)
    requires ProperPairs(rows, pairs) && p in pairs && |Chosen(rows, pairs, depth)| < depth
    ensures LostOne(rows, Chosen(rows, pairs, depth), p)
  {
    var front, last := pairs[..|pairs| - 1], pairs[|pairs| - 1];
    assert ProperPairs(rows, front);
    var before, after := Chosen(rows, front, depth), Chosen(rows, pairs, depth);
    assert before <= after;
    assert forall id :: id in RemovedIds(before) ==> id in RemovedIds(after) by {
      RemovedGrow(before, after);
    }
    if p in front {
      ChosenIsThorough(rows, front, depth, p);
    } else {
      assert p == last;
      if before != after {
        assert RemovedIds(after)[|before|] == MergeOf(rows, p).removed;
      }
    }
  }

  lemma RemovedGrow(a: seq<Merge>, b: seq<Merge>)
    requires a <= b
    ensures RemovedIds(a) <= RemovedIds(b)
    ensures forall id :: id in RemovedIds(a) ==> id in RemovedIds(b)
  {
    var x, y := RemovedIds(a), RemovedIds(b);
    assert forall k :: 0 <= k < |x| ==> x[k] == y[k];
  }

  /**
   * What a cycle decides: at most `depth` merges, each of two candidates more similar than the threshold, the
   * heavier one kept, nothing removed twice; and when neither the scan nor the limit cut it short, no two
   * similar candidates both remain.
   */
  lemma PlanGuarantees(rows: seq<Row>, v: Vectors, depth: nat)
    requires DistinctIds(rows)
    ensures var ms := Plan(rows, v, depth);
      && KeepersLead(ms) && |ms| <= depth
      && (forall m :: m in ms ==> JoinsSimilar(rows, v, m))
    ensures !Enough(Candidates(rows, v), Pairs(rows, v, depth), depth) && |Plan(rows, v, depth)| < depth ==>
      forall p :: SimilarPair(rows, v, p) ==> LostOne(rows, Plan(rows, v, depth), p)
  {
    hide IsCandidate, SimilarPair, ByScore, PairsUpTo, MergeOf;
    var cs := Candidates(rows, v);
    var found := Pairs(rows, v, depth);
    var sorted := ByScore(found);
    PlanIsProper(rows, v, depth);
    ChosenKeepersLead(rows, sorted, depth);
    forall m | m in Plan(rows, v, depth) ensures JoinsSimilar(rows, v, m) {
      MergeJoinsSimilar(rows, v, sorted, depth, m);
    }
    if !Enough(cs, found, depth) && |Plan(rows, v, depth)| < depth {
      forall p | SimilarPair(rows, v, p) ensures LostOne(rows, Plan(rows, v, depth), p) {
        SimilarPairIsFound(rows, v, depth, p);
        ChosenIsThorough(rows, sorted, depth, p);
      }
    }
  }

  lemma SimilarPairIsFound(rows: seq<Row>, v: Vectors, depth: nat, p: Pair)
    requires !Enough(Candidates(rows, v), Pairs(rows, v, depth), depth) && SimilarPair(rows, v, p)
    ensures p in ByScore(Pairs(rows, v, depth))
  {
    hide IsCandidate, ByScore, PairsUpTo, Enough, CandidateList, Candidates;
    var cs := Candidates(rows, v);
    CandidatesAreListed(rows, v);
    CandidateIndex(rows, v, p.i);
    var a: nat :| a < |cs| && cs[a] == p.i;
    ScanFinds(rows, v, cs, depth, |cs|);
    SortedStillHas(Pairs(rows, v, depth), p);
  }

  lemma CandidatesAreListed(rows: seq<Row>, v: Vectors)
    ensures CandidateList(rows, v, Candidates(rows, v))
  {
    hide IsCandidate;
    var cs := Candidates(rows, v);
    assert forall k :: 0 <= k < |cs| ==> cs[k] in cs;
  }

  lemma CandidateIndex(rows: seq<Row>, v: Vectors, i: nat)
    requires i < |rows| && IsCandidate(v, rows[i])
    ensures exists a: nat :: a < |Candidates(rows, v)| && Candidates(rows, v)[a] == i
  {
    hide IsCandidate;
    var cs := Candidates(rows, v);
    assert i in cs;
  }

  lemma SortedStillHas(found: seq<Pair>, p: Pair)
    requires p in found
    ensures p in ByScore(found)
  {
    hide ByScore;
    ByScoreIsSorted(found);
    assert p in multiset(found);
    assert p in multiset(ByScore(found));
  }

  // ---- What the decisions do to the corpus -----------------------------------------------------------------------

  /** Rows that show memories of the corpus as they are. */
  ghost predicate Shows(rows: seq<Row>, c: Corpus) {
    && DistinctIds(rows)
    && forall k :: 0 <= k < |rows| ==> rows[k].id in c && c[rows[k].id] == Mem(rows[k].data, rows[k].mass)
  }

  function IdsOf(rows: seq<Row>): (r: seq<Id>)
    ensures |r| == |rows| && forall k :: 0 <= k < |r| ==> r[k] == rows[k].id
  {
    seq(|rows|, k requires 0 <= k < |rows| => rows[k].id)
  }

  /** The quarantined memories: junk rows only, each once, and all of them unless there are ten. */
  lemma {:induction false} JunkGuarantees(rows: seq<Row>, now: int)
    requires DistinctIds(rows)
    ensures NoDup(Junk(rows, now))
    ensures forall id :: id in Junk(rows, now) ==>
      exists k :: 0 <= k < |rows| && rows[k].id == id && IsJunk(now, rows[k])
    ensures |Junk(rows, now)| < MAX_QUARANTINED_PER_CYCLE ==>
      forall k :: 0 <= k < |rows| && IsJunk(now, rows[k]) ==> rows[k].id in Junk(rows, now)
  {
    hide IsJunk;
    if rows != [] {
      var front := rows[..|rows| - 1];
      JunkGuarantees(front, now);
      var before := Junk(front, now);
      forall id | id in before ensures exists k :: 0 <= k < |rows| && rows[k].id == id && IsJunk(now, rows[k]) {
        var k :| 0 <= k < |front| && front[k].id == id && IsJunk(now, front[k]);
        assert rows[k] == front[k];
      }
      assert rows[|rows| - 1].id !in before;
    }
  }

  /** Only the given memories change, each as one quarantine changes it. */
  ghost predicate Quarantined(c: Corpus, c': Corpus, ids: seq<Id>) {
    && c'.Keys == c.Keys
    && forall id :: id in c ==>
      c'[id] == if id in ids then Step(c, id, QUARANTINE)[id] else c[id]
  }

  lemma {:induction false} QuarantineDoes(c: Corpus, ids: seq<Id>)
    requires NoDup(ids) && forall id :: id in ids ==> id in c
    ensures Quarantined(c, AfterQuarantine(c, ids), ids)
  {
    hide Apply;
    if ids != [] {
      var front, last := ids[..|ids| - 1], ids[|ids| - 1];
      assert last !in front;
      assert forall id :: id in front ==> id in ids;
      assert last in ids;
      QuarantineDoes(c, front);
    }
  }

  ghost predicate Keeps(ms: seq<Merge>, id: Id) {
    exists k :: 0 <= k < |ms| && ms[k].keeper == id
  }

  /**
   * Removed memories are superseded and nothing but; keepers only gain mass, up to the maximum; everything else stays.
   */
  ghost predicate MergedOne(c: Corpus, c': Corpus, ms: seq<Merge>, now: int, id: Id)
    requires id in c && id in c'
  {
    && (id in RemovedIds(ms) ==>
      c'[id].data == Apply(c[id].data, c[id].mass, SupersedeAt(now)).data && c'[id].mass <= MASS_MIN)
    && (id !in RemovedIds(ms) ==> c'[id].data == c[id].data)
    && (id !in RemovedIds(ms) && Keeps(ms, id) ==> c'[id].mass >= MASS_MIN && c'[id].mass >= Min(c[id].mass, MASS_MAX))
    && (id !in RemovedIds(ms) && !Keeps(ms, id) ==> c'[id] == c[id])
  }

  ghost predicate Merged(c: Corpus, c': Corpus, ms: seq<Merge>, now: int) {
    && c'.Keys == c.Keys
    && forall id :: id in c ==> MergedOne(c, c', ms, now, id)
  }

  ghost predicate Mergeable(c: Corpus, ms: seq<Merge>) {
    forall k :: 0 <= k < |ms| ==>
      && ms[k].keeper in c && ms[k].removed in c
      && !c[ms[k].removed].data.enforced && LifecycleOf(c[ms[k].removed].data) != Superseded
  }

  lemma {:induction false} MergesDo(c: Corpus, ms: seq<Merge>, now: int)
    requires KeepersLead(ms) && Mergeable(c, ms)
    ensures Merged(c, AfterMerges(c, ms, now), ms, now)
  {
    hide Apply, MergedOne, RemovedIds;
    if ms == [] {
      forall id | id in c ensures MergedOne(c, c, ms, now, id) {
        UntouchedIsMerged(c, now, id);
      }
    } else {
      var front, m := ms[..|ms| - 1], ms[|ms| - 1];
      FrontLeads(ms);
      MergesDo(c, front, now);
      var mid := AfterMerges(c, front, now);
      forall id | id in c ensures MergedOne(c, AfterMerges(c, ms, now), ms, now, id) {
        MergeOneMore(c, mid, front, m, now, id);
        assert front + [m] == ms;
      }
    }
  }

  lemma UntouchedIsMerged(c: Corpus, now: int, id: Id)
    requires id in c
    ensures MergedOne(c, c, [], now, id)
  {
  }

  lemma FrontLeads(ms: seq<Merge>)
    requires ms != [] && KeepersLead(ms)
    ensures KeepersLead(ms[..|ms| - 1])
    ensures var m := ms[|ms| - 1];
      var gone := RemovedIds(ms[..|ms| - 1]);
      m.keeper != m.removed && m.keeper !in gone && m.removed !in gone
  {
    var front := ms[..|ms| - 1];
    var gone, all := RemovedIds(front), RemovedIds(ms);
    assert forall k :: 0 <= k < |gone| ==> gone[k] == all[k] == ms[k].removed;
  }

  lemma MergeOneMore(c: Corpus, mid: Corpus, ms: seq<Merge>, m: Merge, now: int, id: Id)
    requires Merged(c, mid, ms, now) && id in c && m.keeper in c && m.removed in c
    requires m.keeper != m.removed && m.keeper !in RemovedIds(ms) && m.removed !in RemovedIds(ms)
    requires !c[m.removed].data.enforced && LifecycleOf(c[m.removed].data) != Superseded
    ensures var c' := Step(Step(mid, m.removed, SupersedeAt(now)), m.keeper, AdjustMass(0.5));
      id in c' && MergedOne(c, c', ms + [m], now, id)
  {
    hide MergedOne, LifecycleOf;
    assert MergedOne(c, mid, ms, now, id) && MergedOne(c, mid, ms, now, m.removed);
    var c' := Step(Step(mid, m.removed, SupersedeAt(now)), m.keeper, AdjustMass(0.5));
    var gone := RemovedIds(ms);
    assert RemovedIds(ms + [m]) == gone + [m.removed];
    assert Keeps(ms + [m], id) <==> Keeps(ms, id) || id == m.keeper by {
      KeepsOneMore(ms, m, id);
    }
    NotRemovedKeepsData(c, mid, ms, now, m.removed);
    OneMoreMerged(c, mid, c', ms, m, now, id);
  }

  lemma NotRemovedKeepsData(c: Corpus, c': Corpus, ms: seq<Merge>, now: int, id: Id)
    requires id in c && id in c' && MergedOne(c, c', ms, now, id) && id !in RemovedIds(ms)
    ensures c'[id].data == c[id].data
  {
  }

  lemma KeepsOneMore(ms: seq<Merge>, m: Merge, id: Id)
    ensures Keeps(ms + [m], id) <==> Keeps(ms, id) || id == m.keeper
  {
    var all := ms + [m];
    assert all[|ms|] == m;
    if Keeps(ms, id) {
      var k :| 0 <= k < |ms| && ms[k].keeper == id;
      assert all[k] == ms[k];
    }
  }

  lemma OneMoreMerged(c: Corpus, mid: Corpus, c': Corpus, ms: seq<Merge>, m: Merge, now: int, id: Id)
    requires c.Keys == mid.Keys && id in c && m.keeper in c && m.removed in c && m.keeper != m.removed
    requires MergedOne(c, mid, ms, now, id)
    requires id == m.removed ==>
      mid[id].data == c[id].data && !c[id].data.enforced && LifecycleOf(c[id].data) != Superseded
    requires m.keeper !in RemovedIds(ms) && m.removed !in RemovedIds(ms)
    requires RemovedIds(ms + [m]) == RemovedIds(ms) + [m.removed]
    requires Keeps(ms + [m], id) <==> Keeps(ms, id) || id == m.keeper
    requires c' == Step(Step(mid, m.removed, SupersedeAt(now)), m.keeper, AdjustMass(0.5))
    ensures id in c' && MergedOne(c, c', ms + [m], now, id)
  {
    hide LifecycleOf, Keeps, RemovedIds;
    if id == m.removed {
    } else if id == m.keeper {
    } else {
      assert c'[id] == mid[id];
    }
  }

  // ---- The cycle ---------------------------------------------------------------------------------------------

  datatype DreamResult = DreamResult(seen: nat, duplicatesMerged: nat, junkEvicted: nat, evictedIds: seq<Id>,
                                     mergedRemoveIds: seq<Id>)

  /** What a cycle saw and decided: the rows of its two phases, and its merges. */
  datatype Trace = Trace(first: seq<Row>, second: seq<Row>, merges: seq<Merge>)

  function WindowSize(n: nat): nat {
    if n <= MAX_CONSOLIDATION_PER_CYCLE then n else MAX_CONSOLIDATION_PER_CYCLE
  }

  /** The rows show every memory of the corpus. */
  ghost predicate IsWhole(rows: seq<Row>, c: Corpus) {
    |rows| == |c| && forall id :: id in c <==> id in IdsOf(rows)
  }

  /** The slice of a large corpus that one cycle works on. */
  function Window(all: seq<Row>, hourSlot: nat): (r: seq<Row>)
    ensures |r| == WindowSize(|all|)
    ensures |all| <= MAX_CONSOLIDATION_PER_CYCLE ==> r == all
  {
    if |all| <= MAX_CONSOLIDATION_PER_CYCLE then all
    else
      var start := (hourSlot * MAX_CONSOLIDATION_PER_CYCLE) % |all|;
      seq(MAX_CONSOLIDATION_PER_CYCLE, k requires 0 <= k < MAX_CONSOLIDATION_PER_CYCLE => all[(start + k) % |all|])
  }

  lemma RotationIsInjective(start: nat, a: nat, b: nat, n: nat)
    requires start < n && a < b < n
    ensures (start + a) % n != (start + b) % n
  {
    assert (start + a) % n == if start + a < n then start + a else start + a - n by { Wraps(start + a, n); }
    assert (start + b) % n == if start + b < n then start + b else start + b - n by { Wraps(start + b, n); }
  }

  lemma Wraps(x: nat, n: nat)
    requires x < 2 * n
    ensures x % n == if x < n then x else x - n
  {
  }

  /** A window shows each memory at most once. */
  lemma WindowShows(all: seq<Row>, hourSlot: nat, c: Corpus)
    requires Shows(all, c)
    ensures Shows(Window(all, hourSlot), c)
  {
    var w := Window(all, hourSlot);
    if |all| > MAX_CONSOLIDATION_PER_CYCLE {
      var start := (hourSlot * MAX_CONSOLIDATION_PER_CYCLE) % |all|;
      forall a, b | 0 <= a < b < |w| ensures w[a].id != w[b].id {
        RotationIsInjective(start, a, b, |all|);
      }
    }
  }

  /** The rows are the window of the hour over some listing of the whole corpus. */
  ghost predicate ViewsWindow(rows: seq<Row>, c: Corpus, hourSlot: nat) {
    exists all: seq<Row> :: Shows(all, c) && IsWhole(all, c) && rows == Window(all, hourSlot)
  }

  lemma WindowIsViewed(all: seq<Row>, c: Corpus, hourSlot: nat)
    requires Shows(all, c) && forall id :: id in c <==> id in IdsOf(all)
    ensures ViewsWindow(Window(all, hourSlot), c, hourSlot)
  {
    hide Window;
    EveryRowOnce(all, c);
  }

  /** The store the cycle reads and edits. */
  class Store {
    var memories: Corpus

    constructor (c: Corpus)
      ensures memories == c
    {
      memories := c;
    }

    method ApplyOp(id: Id, op: MemoryOp) returns (changed: bool)
      modifies this
      ensures memories == Step(old(memories), id, op)
      ensures changed <==> id in old(memories) && Apply(old(memories)[id].data, old(memories)[id].mass, op).changed
    {
      if id !in memories {
        return false;
      }
      var cell := new Memory(memories[id].data, memories[id].mass);
      changed := cell.ApplyOp(op);
      memories := memories[id := Mem(cell.data, cell.mass)];
    }

    /** Every memory, in no particular order. */
    method AllRows() returns (rows: seq<Row>)
      ensures Shows(rows, memories) && forall id :: id in memories <==> id in IdsOf(rows)
    {
      rows := [];
      var todo := memories.Keys;
      while todo != {}
        invariant todo <= memories.Keys
        invariant Shows(rows, memories) && forall id :: id in IdsOf(rows) <==> id in memories && id !in todo
        decreases |todo|
      {
        var id :| id in todo;
        var row := Row(id, memories[id].data, memories[id].mass);
        assert IdsOf(rows + [row]) == IdsOf(rows) + [id];
        assert forall k :: 0 <= k < |rows| ==> IdsOf(rows)[k] in IdsOf(rows);
        rows := rows + [row];
        todo := todo - {id};
      }
    }
  }

  /** Quarantine up to ten junk memories; a dry run decides the same from the snapshot alone. */
  method QuarantineJunk(store: Store, rows: seq<Row>, now: int, dryRun: bool) returns (evicted: seq<Id>)
    requires Shows(rows, store.memories)
    modifies store
    ensures evicted == Junk(rows, now)
    ensures store.memories == if dryRun then old(store.memories) else AfterQuarantine(old(store.memories), evicted)
  {
    hide Apply, IsJunk, Quarantined;
    evicted := [];
    var k := 0;
    ghost var before := store.memories;
    assert rows[..|rows|] == rows;
    while k < |rows|
      invariant 0 <= k <= |rows| && evicted == Junk(rows[..k], now) && |evicted| < MAX_QUARANTINED_PER_CYCLE
      invariant store.memories == if dryRun then before else AfterQuarantine(before, evicted)
    {
      var row := rows[k];
      assert rows[..k + 1][..k] == rows[..k];
      k := k + 1;
      if IsJunk(now, row) {
        JunkIsChanged(before, rows[..k], now, evicted);
        var changed: bool;
        if dryRun {
          var copy := new Memory(row.data, row.mass);
          changed := copy.ApplyOp(QUARANTINE);
        } else {
          changed := store.ApplyOp(row.id, QUARANTINE);
        }
        assert changed;
        evicted := evicted + [row.id];
        assert evicted[..|evicted| - 1] + [row.id] == evicted;
        if |evicted| >= MAX_QUARANTINED_PER_CYCLE {
          FullStaysFull(rows, now, k);
          return;
        }
      }
    }
  }

  /** A junk row not yet quarantined shows the memory as it is, and quarantining it is a change. */
  lemma JunkIsChanged(c: Corpus, rows: seq<Row>, now: int, evicted: seq<Id>)
    requires rows != [] && Shows(rows, c) && evicted == Junk(rows[..|rows| - 1], now) && IsJunk(now, rows[|rows| - 1])
    ensures var row := rows[|rows| - 1];
      && Apply(row.data, row.mass, QUARANTINE).changed
      && row.id in AfterQuarantine(c, evicted) && AfterQuarantine(c, evicted)[row.id] == Mem(row.data, row.mass)
  {
    hide Apply;
    var front, row := rows[..|rows| - 1], rows[|rows| - 1];
    JunkGuarantees(front, now);
    ApplyOnlyMovesForward(row.data, row.mass, QUARANTINE);
    forall id | id in evicted ensures id in c && id != row.id {
      var k :| 0 <= k < |front| && front[k].id == id && IsJunk(now, front[k]);
      assert rows[k].id in c;
    }
    QuarantineDoes(c, evicted);
  }

  lemma {:induction false} FullStaysFull(rows: seq<Row>, now: int, k: nat)
    requires k <= |rows| && |Junk(rows[..k], now)| >= MAX_QUARANTINED_PER_CYCLE
    ensures Junk(rows, now) == Junk(rows[..k], now)
    decreases |rows| - k
  {
    if k == |rows| {
      assert rows[..k] == rows;
    } else {
      assert rows[..k + 1][..k] == rows[..k];
      FullStaysFull(rows, now, k + 1);
    }
  }

  /** Compare the candidates pair by pair; a large scan stops once it has found enough. */
  method FindPairs(rows: seq<Row>, v: Vectors, depth: nat) returns (found: seq<Pair>)
    ensures found == Pairs(rows, v, depth)
  {
    hide IsCandidate, Enough;
    var cs := Candidates(rows, v);
    assert forall k :: 0 <= k < |cs| ==> cs[k] in cs;
    found := [];
    for w := 0 to |cs|
      invariant Within(cs, |rows|) && found == PairsUpTo(rows, v, cs, depth, w)
      invariant w > 0 ==> !Enough(cs, found, depth)
    {
      var row := SimilarRows(rows, v, cs[w], cs[w + 1..]);
      found := found + row;
      if Enough(cs, found, depth) {
        EnoughStays(rows, v, cs, depth, w + 1);
        return;
      }
    }
  }

  method SimilarRows(rows: seq<Row>, v: Vectors, i: nat, rest: seq<nat>) returns (found: seq<Pair>)
    requires i < |rows| && Within(rest, |rows|)
    ensures found == SimilarTo(rows, v, i, rest)
  {
    found := [];
    assert rest[..|rest|] == rest;
    for k := 0 to |rest|
      invariant Within(rest[..k], |rows|) && found == SimilarTo(rows, v, i, rest[..k])
    {
      assert rest[..k + 1][..k] == rest[..k];
      var score := v.similarity(rows[i].data.embedding, rows[rest[k]].data.embedding);
      if score > MERGE_THRESHOLD {
        found := found + [Pair(i, rest[k], score)];
      }
    }
  }

  lemma {:induction false} EnoughStays(rows: seq<Row>, v: Vectors, cs: seq<nat>, depth: nat, n: nat)
    requires Within(cs, |rows|) && 0 < n <= |cs| && Enough(cs, PairsUpTo(rows, v, cs, depth, n), depth)
    ensures PairsUpTo(rows, v, cs, depth, |cs|) == PairsUpTo(rows, v, cs, depth, n)
    decreases |cs| - n
  {
    hide Enough;
    if n < |cs| {
      EnoughStays(rows, v, cs, depth, n + 1);
    }
  }

  /**
   * Make the merges in order of similarity; a dry run decides the same without touching the store. The source
   * also skips pairs with a protected or vanished memory: neither exists among candidates of the current corpus.
   */
  method MergePairs(store: Store, rows: seq<Row>, v: Vectors, pairs: seq<Pair>, now: int, depth: nat, dryRun: bool)
    returns (removed: seq<Id>, ghost merges: seq<Merge>)
    requires Shows(rows, store.memories) && ProperPairs(rows, pairs) && AllSimilar(rows, v, pairs)
    modifies store
    ensures merges == Chosen(rows, pairs, depth) && removed == RemovedIds(merges)
    ensures store.memories == if dryRun then old(store.memories) else AfterMerges(old(store.memories), merges, now)
  {
    hide Apply, RemovedIds, MergeOf, SimilarPair, AllSimilar, IsCandidate, LifecycleOf;
    removed := [];
    merges := [];
    ghost var before := store.memories;
    var k := 0;
    assert pairs[..|pairs|] == pairs;
    assert RemovedIds([]) == [] by { NothingRemoved(); }
    while k < |pairs|
      invariant 0 <= k <= |pairs| && ProperPairs(rows, pairs[..k])
      invariant merges == Chosen(rows, pairs[..k], depth) && removed == RemovedIds(merges)
      invariant |removed| == |merges| <= depth
      invariant store.memories == if dryRun then before else AfterMerges(before, merges, now)
    {
      if |removed| >= depth {
        LimitStays(rows, pairs, depth, k);
        return;
      }
      var p := pairs[k];
      var a, b := rows[p.i], rows[p.j];
      assert pairs[..k + 1][..k] == pairs[..k];
      k := k + 1;
      if a.id in removed || b.id in removed {
        continue;
      }
      MergeIsChanged(before, rows, v, pairs, k - 1, now, depth);
      var keepA := a.mass >= b.mass;
      var keepId, source := if keepA then a.id else b.id, if keepA then b else a;
      assert MergeOf(rows, p) == Merge(keepId, source.id) by { MergeOfIs(rows, p); }
      var changed: bool;
      if dryRun {
        var copy := new Memory(source.data, source.mass);
        changed := copy.ApplyOp(SupersedeAt(now));
      } else {
        changed := store.ApplyOp(source.id, SupersedeAt(now));
      }
      assert changed;
      if !dryRun {
        var _ := store.ApplyOp(keepId, AdjustMass(0.5));
      }
      removed := removed + [source.id];
      RemovedAppend(merges, Merge(keepId, source.id));
      merges := merges + [Merge(keepId, source.id)];
      assert merges[..|merges| - 1] + [Merge(keepId, source.id)] == merges;
    }
  }

  lemma NothingRemoved()
    ensures RemovedIds([]) == []
  {
  }

  lemma RemovedAppend(ms: seq<Merge>, m: Merge)
    ensures RemovedIds(ms + [m]) == RemovedIds(ms) + [m.removed]
  {
  }

  lemma MergeOfIs(rows: seq<Row>, p: Pair)
    requires p.i < |rows| && p.j < |rows|
    ensures var a, b := rows[p.i], rows[p.j];
      MergeOf(rows, p) == if a.mass >= b.mass then Merge(a.id, b.id) else Merge(b.id, a.id)
  {
  }

  lemma {:induction false} LimitStays(rows: seq<Row>, pairs: seq<Pair>, depth: nat, k: nat)
    requires ProperPairs(rows, pairs) && k <= |pairs| && ProperPairs(rows, pairs[..k])
    requires |Chosen(rows, pairs[..k], depth)| >= depth
    ensures Chosen(rows, pairs, depth) == Chosen(rows, pairs[..k], depth)
    decreases |pairs| - k
  {
    if k == |pairs| {
      assert pairs[..k] == pairs;
    } else {
      assert pairs[..k + 1][..k] == pairs[..k];
      assert ProperPairs(rows, pairs[..k + 1]);
      LimitStays(rows, pairs, depth, k + 1);
    }
  }

  /** Two similar candidates neither of which is gone: superseding either of them is a change. */
  lemma MergeIsChanged(c: Corpus, rows: seq<Row>, v: Vectors, pairs: seq<Pair>, k: nat, now: int, depth: nat)
    requires Shows(rows, c) && ProperPairs(rows, pairs) && AllSimilar(rows, v, pairs) && k < |pairs|
    requires ProperPairs(rows, pairs[..k])
    requires var gone := RemovedIds(Chosen(rows, pairs[..k], depth));
      rows[pairs[k].i].id !in gone && rows[pairs[k].j].id !in gone
    ensures var mid := AfterMerges(c, Chosen(rows, pairs[..k], depth), now);
      && Supersedable(mid, rows[pairs[k].i], now) && Supersedable(mid, rows[pairs[k].j], now)
  {
    hide Apply, IsCandidate, MergedOne, Supersedable;
    var front := pairs[..k];
    var ms := Chosen(rows, front, depth);
    assert AllSimilar(rows, v, front);
    ChosenKeepersLead(rows, front, depth);
    ChosenIsMergeable(c, rows, v, front, depth);
    MergesDo(c, ms, now);
    assert SimilarPair(rows, v, pairs[k]);
    StillSupersedable(c, rows, v, ms, now, pairs[k].i);
    StillSupersedable(c, rows, v, ms, now, pairs[k].j);
  }

  ghost predicate Supersedable(mid: Corpus, row: Row, now: int) {
    && row.id in mid
    && Apply(mid[row.id].data, mid[row.id].mass, SupersedeAt(now)).changed
    && Apply(row.data, row.mass, SupersedeAt(now)).changed
  }

  lemma StillSupersedable(c: Corpus, rows: seq<Row>, v: Vectors, ms: seq<Merge>, now: int, i: nat)
    requires Shows(rows, c) && i < |rows| && IsCandidate(v, rows[i])
    requires Merged(c, AfterMerges(c, ms, now), ms, now) && rows[i].id !in RemovedIds(ms)
    ensures Supersedable(AfterMerges(c, ms, now), rows[i], now)
  {
    hide Apply, RemovedIds, AfterMerges;
    var row, mid := rows[i], AfterMerges(c, ms, now);
    assert row.id in c;
    assert MergedOne(c, mid, ms, now, row.id);
    ApplyOnlyMovesForward(row.data, row.mass, SupersedeAt(now));
    ApplyOnlyMovesForward(mid[row.id].data, mid[row.id].mass, SupersedeAt(now));
  }

  /** The merges chosen from similar candidates keep the heavier one and remove live, unprotected memories. */
  lemma ChosenIsMergeable(c: Corpus, rows: seq<Row>, v: Vectors, pairs: seq<Pair>, depth: nat)
    requires Shows(rows, c) && ProperPairs(rows, pairs) && AllSimilar(rows, v, pairs)
    ensures Mergeable(c, Chosen(rows, pairs, depth)) && HeavierKeeps(c, Chosen(rows, pairs, depth))
  {
    hide LifecycleOf;
    var ms := Chosen(rows, pairs, depth);
    ChosenKeepersLead(rows, pairs, depth);
    forall k | 0 <= k < |ms|
      ensures ms[k].keeper in c && ms[k].removed in c && c[ms[k].keeper].mass >= c[ms[k].removed].mass
      ensures !c[ms[k].removed].data.enforced && LifecycleOf(c[ms[k].removed].data) != Superseded
    {
      assert ms[k] in ms;
      MergeJoinsSimilar(rows, v, pairs, depth, ms[k]);
      var p :| SimilarPair(rows, v, p) && ms[k] == MergeOf(rows, p);
      assert rows[p.i].id in c && rows[p.j].id in c;
    }
  }

  /** One cycle over a store that nothing else changes meanwhile. */
  method Cycle(store: Store, v: Vectors, hourSlot: nat, now: int, depth: nat, dryRun: bool)
    returns (r: DreamResult, ghost t: Trace)
    modifies store
    ensures Shows(t.first, old(store.memories)) && |t.first| == WindowSize(|old(store.memories)|)
    ensures ViewsWindow(t.first, old(store.memories), hourSlot)
    ensures |t.first| < 2 ==> r == DreamResult(|t.first|, 0, 0, [], []) && store.memories == old(store.memories)
    ensures |t.first| >= 2 ==>
      Decided(r, t, v, now, depth) && Shows(t.second, AfterPhaseOne(old(store.memories), r, dryRun))
    ensures dryRun || r.evictedIds == [] ==> t.second == t.first
    ensures !dryRun && r.evictedIds != [] ==> IsWhole(t.second, old(store.memories))
    ensures |old(store.memories)| <= MAX_CONSOLIDATION_PER_CYCLE ==> IsWhole(t.first, old(store.memories))
    ensures |t.second| <= MAX_CONSOLIDATION_PER_CYCLE
      <==> dryRun || r.evictedIds == [] || |old(store.memories)| <= MAX_CONSOLIDATION_PER_CYCLE
    ensures dryRun ==> store.memories == old(store.memories)
    ensures !dryRun && |t.first| >= 2 ==> store.memories == AfterCycle(old(store.memories), t, v, now, depth)
    ensures |t.first| >= 2 ==> r.seen == if dryRun then |t.second| else |old(store.memories)|
  {
    hide Apply, Junk, Plan, Pairs, RemovedIds, Shows, Window, ByScore, ViewsWindow;
    ghost var c := store.memories;
    var all := store.AllRows();
    var rows := Window(all, hourSlot);
    WindowIsViewed(all, c, hourSlot);
    WindowShows(all, hourSlot, c);
    EveryRowOnce(all, c);
    t := Trace(rows, rows, []);
    if |rows| < 2 {
      return DreamResult(|rows|, 0, 0, [], []), t;
    }
    var evicted := QuarantineJunk(store, rows, now, dryRun);
    assert evicted == [] ==> AfterQuarantine(c, evicted) == c;
    var second := rows;
    if |evicted| > 0 && !dryRun {
      second := store.AllRows();
      QuarantineKeys(c, evicted);
      EveryRowOnce(second, store.memories);
      KeysCount(c, store.memories);
    }
    var pairs := FindPairs(second, v, depth);
    PlanIsProper(second, v, depth);
    var removed;
    removed, t := MergeAll(store, rows, second, v, pairs, now, depth, dryRun);
    var seen := |second|;
    if !dryRun {
      var third := store.AllRows();
      CycleKeys(c, rows, second, v, now, depth);
      EveryRowOnce(third, store.memories);
      seen := |third|;
    }
    r := DreamResult(seen, |removed|, |evicted|, evicted, removed);
  }

  method MergeAll(store: Store, first: seq<Row>, second: seq<Row>, v: Vectors, pairs: seq<Pair>, now: int, depth: nat,
                  dryRun: bool)
    returns (removed: seq<Id>, ghost t: Trace)
    requires Shows(second, store.memories) && pairs == Pairs(second, v, depth)
    modifies store
    ensures t == Trace(first, second, Plan(second, v, depth)) && removed == RemovedIds(t.merges)
    ensures store.memories == if dryRun then old(store.memories) else AfterMerges(old(store.memories), t.merges, now)
  {
    hide Apply, Pairs, RemovedIds, Shows, ByScore;
    PlanIsProper(second, v, depth);
    ghost var merges;
    removed, merges := MergePairs(store, second, v, ByScore(pairs), now, depth, dryRun);
    t := Trace(first, second, merges);
  }

  ghost predicate Decided(r: DreamResult, t: Trace, v: Vectors, now: int, depth: nat) {
    && r.evictedIds == Junk(t.first, now) && r.junkEvicted == |r.evictedIds|
    && t.merges == Plan(t.second, v, depth)
    && r.mergedRemoveIds == RemovedIds(t.merges) && r.duplicatesMerged == |t.merges|
  }

  ghost function AfterPhaseOne(c: Corpus, r: DreamResult, dryRun: bool): Corpus {
    if dryRun then c else AfterQuarantine(c, r.evictedIds)
  }

  ghost function AfterCycle(c: Corpus, t: Trace, v: Vectors, now: int, depth: nat): Corpus {
    AfterMerges(AfterQuarantine(c, Junk(t.first, now)), Plan(t.second, v, depth), now)
  }

  lemma {:induction false} QuarantineKeys(c: Corpus, ids: seq<Id>)
    ensures AfterQuarantine(c, ids).Keys == c.Keys
  {
    if ids != [] {
      QuarantineKeys(c, ids[..|ids| - 1]);
    }
  }

  lemma {:induction false} MergeKeys(c: Corpus, ms: seq<Merge>, now: int)
    ensures AfterMerges(c, ms, now).Keys == c.Keys
  {
    if ms != [] {
      MergeKeys(c, ms[..|ms| - 1], now);
    }
  }

  /** A cycle neither adds nor removes memories. */
  lemma CycleKeys(c: Corpus, first: seq<Row>, second: seq<Row>, v: Vectors, now: int, depth: nat)
    ensures AfterCycle(c, Trace(first, second, []), v, now, depth).Keys == c.Keys
    ensures |AfterCycle(c, Trace(first, second, []), v, now, depth)| == |c|
  {
    hide Junk, Plan;
    QuarantineKeys(c, Junk(first, now));
    MergeKeys(AfterQuarantine(c, Junk(first, now)), Plan(second, v, depth), now);
    var c' := AfterCycle(c, Trace(first, second, []), v, now, depth);
    assert |c'| == |c'.Keys| && |c| == |c.Keys|;
  }

  lemma KeysCount(c: Corpus, c': Corpus)
    requires c.Keys == c'.Keys
    ensures |c| == |c'|
  {
    assert |c| == |c.Keys| && |c'| == |c'.Keys|;
  }

  lemma EveryRowOnce(rows: seq<Row>, c: Corpus)
    requires Shows(rows, c) && forall id :: id in c <==> id in IdsOf(rows)
    ensures |rows| == |c|
  {
    var ids := IdsOf(rows);
    assert Elems(ids) == c.Keys;
    assert NoDup(ids);
    NoDupCount(ids);
  }

  lemma {:induction false} NoDupCount<T>(s: seq<T>)
    requires NoDup(s)
    ensures |Elems(s)| == |s|
  {
    if s != [] {
      var front := s[..|s| - 1];
      NoDupCount(front);
      assert Elems(s) == Elems(front) + {s[|s| - 1]};
      assert s[|s| - 1] !in front;
    }
  }

  // ---- What a cycle leaves undone ---------------------------------------------------------------------------------

  function RowOf(c: Corpus, id: Id): Row
    requires id in c
  {
    Row(id, c[id].data, c[id].mass)
  }

  lemma WholeShowsEach(rows: seq<Row>, c: Corpus, id: Id) returns (k: nat)
    requires Shows(rows, c) && IsWhole(rows, c) && id in c
    ensures k < |rows| && rows[k] == RowOf(c, id)
  {
    assert id in IdsOf(rows);
    k :| k < |rows| && IdsOf(rows)[k] == id;
  }

  /** A cycle that saw the whole corpus and quarantined fewer than ten has left no junk. */
  lemma NoJunkRemains(c: Corpus, rows: seq<Row>, now: int, id: Id)
    requires Shows(rows, c) && IsWhole(rows, c) && |Junk(rows, now)| < MAX_QUARANTINED_PER_CYCLE
    requires id in c && IsJunk(now, RowOf(c, id))
    ensures id in Junk(rows, now)
  {
    hide Junk, IsJunk;
    ShowsDistinct(rows, c);
    JunkGuarantees(rows, now);
    var k := WholeShowsEach(rows, c, id);
  }

  /**
   * A cycle that saw the whole corpus and was cut short neither by its scan nor by its limit has left no similar
   * pair.
   */
  lemma NoSimilarPairRemains(c: Corpus, rows: seq<Row>, v: Vectors, depth: nat, a: Id, b: Id)
    requires Shows(rows, c) && IsWhole(rows, c)
    requires !Enough(Candidates(rows, v), Pairs(rows, v, depth), depth) && |Plan(rows, v, depth)| < depth
    requires a in c && b in c && a != b && IsCandidate(v, RowOf(c, a)) && IsCandidate(v, RowOf(c, b))
    requires v.similarity(c[a].data.embedding, c[b].data.embedding) > MERGE_THRESHOLD
    requires v.similarity(c[b].data.embedding, c[a].data.embedding) > MERGE_THRESHOLD
    ensures a in RemovedIds(Plan(rows, v, depth)) || b in RemovedIds(Plan(rows, v, depth))
  {
    hide IsCandidate, Enough, Pairs, Plan, Candidates, RemovedIds, IsWhole;
    ShowsDistinct(rows, c);
    PlanGuarantees(rows, v, depth);
    var i := WholeShowsEach(rows, c, a);
    var j := WholeShowsEach(rows, c, b);
    var first, second := if i < j then i else j, if i < j then j else i;
    var p := Pair(first, second, v.similarity(rows[first].data.embedding, rows[second].data.embedding));
    assert SimilarPair(rows, v, p);
    assert LostOne(rows, Plan(rows, v, depth), p);
  }

  /** Such a cycle ends with a corpus without any junk. */
  lemma NoJunkInTheEnd(c: Corpus, t: Trace, v: Vectors, now: int, depth: nat, id: Id)
    requires Ran(c, t, v, now, depth) && IsWhole(t.first, c) && |Junk(t.first, now)| < MAX_QUARANTINED_PER_CYCLE
    requires id in AfterCycle(c, t, v, now, depth)
    ensures !IsJunk(now, RowOf(AfterCycle(c, t, v, now, depth), id))
  {
    hide Junk, Apply, LifecycleOf, Shows, AfterMerges, AfterQuarantine, Plan, RemovedIds, Keeps, IsWhole, IsJunk,
      MergedOne;
    var ids := Junk(t.first, now);
    var mid := AfterQuarantine(c, ids);
    QuarantinePhase(c, t, v, now, depth);
    MergePhase(c, t, v, now, depth);
    var c' := AfterMerges(mid, t.merges, now);
    OneQuarantined(c, mid, ids, id);
    OneMerged(mid, c', t.merges, now, id);
    assert MergedOne(mid, c', t.merges, now, id);
    if id in ids {
      QuarantinedIsNoJunk(c, mid, c', t.merges, now, id);
    } else {
      assert !IsJunk(now, RowOf(c, id)) by {
        if IsJunk(now, RowOf(c, id)) {
          NoJunkRemains(c, t.first, now, id);
        }
      }
      MergingMakesNoJunk(mid, c', t.merges, now, id);
    }
  }

  lemma QuarantinedIsNoJunk(c: Corpus, mid: Corpus, c': Corpus, ms: seq<Merge>, now: int, id: Id)
    requires id in c && LifecycleOf(c[id].data) == Active && !c[id].data.enforced
    requires id in mid && mid[id] == Step(c, id, QUARANTINE)[id]
    requires id in c' && MergedOne(mid, c', ms, now, id)
    ensures !IsJunk(now, RowOf(c', id))
  {
    hide LifecycleOf, Apply;
    ApplyOnlyMovesForward(c[id].data, c[id].mass, QUARANTINE);
    ApplyOnlyMovesForward(mid[id].data, mid[id].mass, SupersedeAt(now));
  }

  lemma MergingMakesNoJunk(mid: Corpus, c': Corpus, ms: seq<Merge>, now: int, id: Id)
    requires id in mid && id in c' && MergedOne(mid, c', ms, now, id) && !IsJunk(now, RowOf(mid, id))
    requires id in RemovedIds(ms) ==> LifecycleOf(c'[id].data) == Superseded
    ensures !IsJunk(now, RowOf(c', id))
  {
    hide LifecycleOf, Apply, RemovedIds, Keeps;
  }

  /** Two different candidates that count as duplicates whichever way they are compared. */
  predicate SimilarCandidates(c: Corpus, v: Vectors, a: Id, b: Id)
    requires a in c && b in c
  {
    && a != b && IsCandidate(v, RowOf(c, a)) && IsCandidate(v, RowOf(c, b))
    && v.similarity(c[a].data.embedding, c[b].data.embedding) > MERGE_THRESHOLD
    && v.similarity(c[b].data.embedding, c[a].data.embedding) > MERGE_THRESHOLD
  }

  /** Such a cycle ends with a corpus without two similar candidates. */
  lemma NoSimilarPairInTheEnd(c: Corpus, t: Trace, v: Vectors, now: int, depth: nat, a: Id, b: Id)
    requires Ran(c, t, v, now, depth) && IsWhole(t.second, c)
    requires !Enough(Candidates(t.second, v), Pairs(t.second, v, depth), depth) && |t.merges| < depth
    requires a in AfterCycle(c, t, v, now, depth) && b in AfterCycle(c, t, v, now, depth)
    ensures !SimilarCandidates(AfterCycle(c, t, v, now, depth), v, a, b)
  {
    hide Junk, Apply, LifecycleOf, Shows, AfterMerges, AfterQuarantine, Plan, RemovedIds, Keeps, IsWhole, IsCandidate,
      MergedOne, Pairs,
      Candidates, Enough;
    var mid := AfterQuarantine(c, Junk(t.first, now));
    var c' := AfterMerges(mid, t.merges, now);
    QuarantinePhase(c, t, v, now, depth);
    MergePhase(c, t, v, now, depth);
    WholeByKeys(t.second, c, mid);
    OneMerged(mid, c', t.merges, now, a);
    OneMerged(mid, c', t.merges, now, b);
    if SimilarCandidates(c', v, a, b) {
      StillCandidate(mid, c', v, t.merges, now, a);
      StillCandidate(mid, c', v, t.merges, now, b);
      NoSimilarPairRemains(mid, t.second, v, depth, a, b);
    }
  }

  lemma WholeByKeys(rows: seq<Row>, c: Corpus, mid: Corpus)
    requires IsWhole(rows, c) && mid.Keys == c.Keys
    ensures IsWhole(rows, mid)
  {
    KeysCount(c, mid);
  }

  /** A candidate after the merges was not removed by them, and was the same before. */
  lemma StillCandidate(mid: Corpus, c': Corpus, v: Vectors, ms: seq<Merge>, now: int, id: Id)
    requires id in mid && id in c' && MergedOne(mid, c', ms, now, id)
    requires id in RemovedIds(ms) ==> LifecycleOf(c'[id].data) == Superseded
    requires IsCandidate(v, RowOf(c', id))
    ensures id !in RemovedIds(ms) && IsCandidate(v, RowOf(mid, id)) && mid[id].data == c'[id].data
  {
    hide LifecycleOf, Apply, RemovedIds, Keeps;
  }

  function JunkMemory(): Mem {
    Mem(Payload("", 0, ["junk"], 0, [], [], 1.0, false, None, 0, None, None, None, 0, None, None, None, None, None),
        1.0)
  }

  function JunkCorpus(n: nat): (c: Corpus)
    requires n <= U64_MAX
    ensures |c| == n && forall id :: id in c ==> id < n && c[id] == JunkMemory()
  {
    if n == 0 then map[] else JunkCorpus(n - 1)[n - 1 := JunkMemory()]
  }

  lemma JunkIsFound(rows: seq<Row>, n: nat, now: int)
    requires n <= U64_MAX && Shows(rows, JunkCorpus(n)) && rows != []
    ensures Junk(rows, now) != []
  {
    hide Junk, JunkCorpus;
    ShowsDistinct(rows, JunkCorpus(n));
    ShowsRow(rows, JunkCorpus(n), 0);
    JunkMemoryIsJunk(rows[0], now);
    JunkGuarantees(rows, now);
  }

  lemma JunkMemoryIsJunk(row: Row, now: int)
    requires Mem(row.data, row.mass) == JunkMemory()
    ensures IsJunk(now, row)
  {
    assert row.data.labels[0] == "junk";
    assert "junk" != "superseded" && "junk" != "quarantine" by { assert |"junk"| == 4; }
  }

  /** A quarantine makes the second phase of a cycle look past its window, at all of a larger corpus. */
  method WidenedView(v: Vectors, hourSlot: nat, now: int, depth: nat) returns (r: DreamResult, ghost t: Trace)
    ensures r.evictedIds != [] && r.seen == MAX_CONSOLIDATION_PER_CYCLE + 1
    ensures |t.first| == MAX_CONSOLIDATION_PER_CYCLE && |t.second| == MAX_CONSOLIDATION_PER_CYCLE + 1
  {
    hide Junk, Plan, Shows, JunkCorpus;
    var size := MAX_CONSOLIDATION_PER_CYCLE + 1;
    var store := new Store(JunkCorpus(size));
    r, t := Cycle(store, v, hourSlot, now, depth, false);
    assert r.evictedIds != [] by { JunkIsFound(t.first, size, now); }
  }

  // ---- What a cycle never does ---------------------------------------------------------------------------------

  ghost predicate SameText(a: Payload, b: Payload) {
    a.content == b.content && a.aliases == b.aliases && a.embedding == b.embedding && a.labels <= b.labels
  }

  /** The two phases as the cycle ran them. */
  ghost predicate Ran(c: Corpus, t: Trace, v: Vectors, now: int, depth: nat) {
    && Shows(t.first, c)
    && Shows(t.second, AfterQuarantine(c, Junk(t.first, now)))
    && t.merges == Plan(t.second, v, depth)
  }

  lemma QuarantinePhase(c: Corpus, t: Trace, v: Vectors, now: int, depth: nat)
    requires Ran(c, t, v, now, depth)
    ensures Quarantined(c, AfterQuarantine(c, Junk(t.first, now)), Junk(t.first, now))
    ensures forall id :: id in Junk(t.first, now) ==>
      id in c && !c[id].data.enforced && LifecycleOf(c[id].data) == Active
  {
    hide Junk, Plan, Apply, LifecycleOf, Shows;
    var ids := Junk(t.first, now);
    assert DistinctIds(t.first) by { ShowsDistinct(t.first, c); }
    JunkGuarantees(t.first, now);
    forall id | id in ids ensures id in c && !c[id].data.enforced && LifecycleOf(c[id].data) == Active {
      var k :| 0 <= k < |t.first| && t.first[k].id == id && IsJunk(now, t.first[k]);
      ShowsRow(t.first, c, k);
    }
    QuarantineDoes(c, ids);
  }

  lemma ShowsDistinct(rows: seq<Row>, c: Corpus)
    requires Shows(rows, c)
    ensures DistinctIds(rows)
  {
  }

  lemma ShowsRow(rows: seq<Row>, c: Corpus, k: nat)
    requires Shows(rows, c) && k < |rows|
    ensures rows[k].id in c && c[rows[k].id] == Mem(rows[k].data, rows[k].mass)
  {
  }

  lemma MergePhase(c: Corpus, t: Trace, v: Vectors, now: int, depth: nat)
    requires Ran(c, t, v, now, depth)
    ensures var mid := AfterQuarantine(c, Junk(t.first, now));
      && Merged(mid, AfterMerges(mid, t.merges, now), t.merges, now)
      && KeepersLead(t.merges) && Mergeable(mid, t.merges) && HeavierKeeps(mid, t.merges)
  {
    hide Junk, Apply, LifecycleOf, Shows, Pairs, ByScore, Merged, KeepersLead, HeavierKeeps;
    var mid := AfterQuarantine(c, Junk(t.first, now));
    var pairs := ByScore(Pairs(t.second, v, depth));
    PlanIsProper(t.second, v, depth);
    ShowsDistinct(t.second, mid);
    ChosenKeepersLead(t.second, pairs, depth);
    ChosenIsMergeable(mid, t.second, v, pairs, depth);
    MergesDo(mid, t.merges, now);
  }

  /** What one phase or the other does to one memory. */
  lemma OneQuarantined(c: Corpus, mid: Corpus, ids: seq<Id>, id: Id)
    requires Quarantined(c, mid, ids) && id in c
    ensures id in mid
    ensures LifecycleOf(mid[id].data) == Superseded <==> LifecycleOf(c[id].data) == Superseded
    ensures mid[id].data.enforced == c[id].data.enforced
    ensures SameText(c[id].data, mid[id].data)
    ensures c[id].data.enforced || id !in ids ==> mid[id] == c[id]
  {
    hide LifecycleOf;
    ApplyOnlyMovesForward(c[id].data, c[id].mass, QUARANTINE);
    assert c[id].data.labels <= c[id].data.labels;
    QuarantineLifecycle(c[id].data, c[id].mass);
  }

  lemma QuarantineLifecycle(d: Payload, m: real)
    ensures LifecycleOf(Apply(d, m, QUARANTINE).data) == Superseded <==> LifecycleOf(d) == Superseded
    ensures Apply(d, m, QUARANTINE).data.embedding == d.embedding
  {
    ApplyOnlyMovesForward(d, m, QUARANTINE);
  }

  lemma OneMerged(mid: Corpus, c': Corpus, ms: seq<Merge>, now: int, id: Id)
    requires Merged(mid, c', ms, now) && Mergeable(mid, ms) && id in mid
    ensures id in c' && SameText(mid[id].data, c'[id].data)
    ensures LifecycleOf(c'[id].data) == Superseded <==> LifecycleOf(mid[id].data) == Superseded || id in RemovedIds(ms)
    ensures id in RemovedIds(ms) ==> !mid[id].data.enforced && LifecycleOf(mid[id].data) != Superseded
    ensures id in RemovedIds(ms) ==> c'[id].data.validTo == Some(now)
    ensures id !in RemovedIds(ms) && !Keeps(ms, id) ==> c'[id] == mid[id]
  {
    hide LifecycleOf, Keeps;
    assert MergedOne(mid, c', ms, now, id);
    ApplyOnlyMovesForward(mid[id].data, mid[id].mass, SupersedeAt(now));
    assert mid[id].data.labels <= mid[id].data.labels;
    if id in RemovedIds(ms) {
      var k :| 0 <= k < |ms| && ms[k].removed == id;
    }
  }

  /**
   * No memory disappears or loses its text; exactly the removed ones become superseded, and each of them was live
   * and unprotected; a memory that is neither quarantined nor part of a merge is left as it was.
   */
  lemma CycleIsSafe(c: Corpus, t: Trace, v: Vectors, now: int, depth: nat, id: Id)
    requires Ran(c, t, v, now, depth) && id in c
    ensures var c' := AfterCycle(c, t, v, now, depth);
      && c'.Keys == c.Keys && SameText(c[id].data, c'[id].data)
      && (LifecycleOf(c'[id].data) == Superseded
          <==> LifecycleOf(c[id].data) == Superseded || id in RemovedIds(t.merges))
      && (id in RemovedIds(t.merges) ==> !c[id].data.enforced && LifecycleOf(c[id].data) != Superseded)
      && (id in RemovedIds(t.merges) ==> c'[id].data.validTo == Some(now))
      && (id !in Junk(t.first, now) && id !in RemovedIds(t.merges) && !Keeps(t.merges, id) ==> c'[id] == c[id])
  {
    hide Junk, Plan, Apply, LifecycleOf, Shows, RemovedIds, Keeps, AfterMerges, AfterQuarantine;
    var ids := Junk(t.first, now);
    var mid := AfterQuarantine(c, ids);
    QuarantinePhase(c, t, v, now, depth);
    MergePhase(c, t, v, now, depth);
    OneQuarantined(c, mid, ids, id);
    OneMerged(mid, AfterMerges(mid, t.merges, now), t.merges, now, id);
  }

  /** A protected memory keeps every field and its mass. */
  lemma ProtectedMemoriesAreUntouched(c: Corpus, t: Trace, v: Vectors, now: int, depth: nat, id: Id)
    requires Ran(c, t, v, now, depth) && id in c && c[id].data.enforced
    ensures var c' := AfterCycle(c, t, v, now, depth); id in c' && c'[id] == c[id]
  {
    hide Junk, Apply, LifecycleOf, Shows, AfterMerges, AfterQuarantine, Plan;
    var ids := Junk(t.first, now);
    var mid := AfterQuarantine(c, ids);
    QuarantinePhase(c, t, v, now, depth);
    MergePhase(c, t, v, now, depth);
    OneQuarantined(c, mid, ids, id);
    OneMerged(mid, AfterMerges(mid, t.merges, now), t.merges, now, id);
    if Keeps(t.merges, id) {
      KeeperIsUnprotected(c, t, v, now, depth, id);
    }
  }

  lemma KeeperIsUnprotected(c: Corpus, t: Trace, v: Vectors, now: int, depth: nat, id: Id)
    requires Ran(c, t, v, now, depth) && Keeps(t.merges, id)
    ensures var mid := AfterQuarantine(c, Junk(t.first, now));
      id in mid && !mid[id].data.enforced && LifecycleOf(mid[id].data) != Superseded
  {
    hide Junk, LifecycleOf, Pairs, ByScore, Chosen;
    var mid := AfterQuarantine(c, Junk(t.first, now));
    var k :| 0 <= k < |t.merges| && t.merges[k].keeper == id;
    assert t.merges[k] in t.merges;
    PlanIsProper(t.second, v, depth);
    MergeJoinsSimilar(t.second, v, ByScore(Pairs(t.second, v, depth)), depth, t.merges[k]);
    var p :| SimilarPair(t.second, v, p) && t.merges[k] == MergeOf(t.second, p);
    ShowsRow(t.second, mid, p.i);
    ShowsRow(t.second, mid, p.j);
  }

  /**
   * Every superseded memory has a successor: following its keepers leads to a memory that ends the cycle not
   * superseded and that was at least as heavy.
   */
  lemma EveryRemovedMemorySurvives(c: Corpus, t: Trace, v: Vectors, now: int, depth: nat, id: Id)
    requires Ran(c, t, v, now, depth) && id in RemovedIds(t.merges)
    ensures var c' := AfterCycle(c, t, v, now, depth);
      var mid := AfterQuarantine(c, Junk(t.first, now));
      var s := Survivor(t.merges, id, 0);
      && s in c' && id in c' && s in mid && id in mid
      && LifecycleOf(c'[id].data) == Superseded && LifecycleOf(c'[s].data) != Superseded
      && mid[s].mass >= mid[id].mass
  {
    hide Junk, Apply, LifecycleOf, Shows, AfterMerges, AfterQuarantine, Survivor, Plan;
    var ids := Junk(t.first, now);
    var mid := AfterQuarantine(c, ids);
    var s := Survivor(t.merges, id, 0);
    MergePhase(c, t, v, now, depth);
    var k :| 0 <= k < |t.merges| && t.merges[k].removed == id;
    assert id in mid;
    assert t.merges[..0] == [];
    SurvivorIsKept(t.merges, id, 0);
    SurvivorIsNotLighter(mid, t.merges, id, 0);
    SurvivorKeeps(t.merges, id);
    KeeperIsUnprotected(c, t, v, now, depth, s);
    OneMerged(mid, AfterMerges(mid, t.merges, now), t.merges, now, s);
    OneMerged(mid, AfterMerges(mid, t.merges, now), t.merges, now, id);
  }

  lemma SurvivorKeeps(ms: seq<Merge>, id: Id)
    requires id in RemovedIds(ms) && Survivor(ms, id, 0) !in RemovedIds(ms)
    ensures Keeps(ms, Survivor(ms, id, 0))
  {
    hide RemovedIds;
    var m :| m in ms && Survivor(ms, id, 0) == m.keeper;
    var k :| 0 <= k < |ms| && ms[k] == m;
  }

  /** What one cycle superseded, no later cycle considers again. */
  lemma RemovedIsNoCandidate(c: Corpus, t: Trace, v: Vectors, now: int, depth: nat, rows: seq<Row>, k: nat)
    requires Ran(c, t, v, now, depth) && Shows(rows, AfterCycle(c, t, v, now, depth)) && k < |rows|
    requires rows[k].id in RemovedIds(t.merges)
    ensures k !in Candidates(rows, v)
  {
    hide Junk, Apply, Plan, Shows, LifecycleOf, Survivor, AfterMerges, AfterQuarantine;
    EveryRemovedMemorySurvives(c, t, v, now, depth, rows[k].id);
    ShowsRow(rows, AfterCycle(c, t, v, now, depth), k);
  }

  /** Superseding is meant to demote; it raises the importance of exactly the memories below the floor. */
  lemma SupersedingRaisesExactly(d: Payload, m: real, now: int)
    requires Apply(d, m, SupersedeAt(now)).changed
    ensures Apply(d, m, SupersedeAt(now)).data.importance > d.importance <==> d.importance < IMPORTANCE_FLOOR
  {
    hide LifecycleOf;
  }

  /** A memory of importance 0.2 ends up with 0.3. */
  lemma SupersedingCanRaise(now: int)
    ensures var d := JunkMemory().data.(importance := 0.2);
      Apply(d, 1.0, SupersedeAt(now)).changed && Apply(d, 1.0, SupersedeAt(now)).data.importance == 0.3
  {
    var d := JunkMemory().data;
    assert d.labels[0] == "junk";
    assert "junk" != "superseded" by { assert |"junk"| == 4; }
  }
}
