/** How effective an action was, judged by the snapshots before and after it. */
module Outcomes {
  import opened Prelude

  datatype ActionType = Pulse | Fission | Merge | Dream | Link | Evict

  type Labels = seq<string>

  /** The labels of each member of each cluster, the number of memories and the energy at one tick. */
  datatype Tick = Tick(clusters: seq<seq<Labels>>, tetras: nat, energy: real)

  /** `costRoot` stands for the square root of the energy cost. */
  datatype Observation = Observation(pre: Tick, post: Tick, costRoot: real)

  function Clamp(x: real, lo: real, hi: real): real {
    if x < lo then lo else if x > hi then hi else x
  }

  // ---- Entropy -----------------------------------------------------------------------------------------

  /** How much two label lists have in common, as sets. */
  function Jaccard(a: Labels, b: Labels): real {
    if a == [] && b == [] then 1.0
    else if a == [] || b == [] then 0.0
    else
      ElemsEmpty(a);
      assert Elems(a) + Elems(b) != {};
      |Elems(a) * Elems(b)| as real / |Elems(a) + Elems(b)| as real
  }

  function DissimilarityTo(a: Labels, others: seq<Labels>): real {
    if others == [] then 0.0 else (1.0 - Jaccard(a, others[0])) + DissimilarityTo(a, others[1..])
  }

  /** The dissimilarity of all pairs. */
  function TotalDissimilarity(members: seq<Labels>): real {
    if members == [] then 0.0 else DissimilarityTo(members[0], members[1..]) + TotalDissimilarity(members[1..])
  }

  function PairCount(n: nat): nat {
    if n == 0 then 0 else n - 1 + PairCount(n - 1)
  }

  /** The mean dissimilarity of the pairs of one cluster. */
  function Entropy(members: seq<Labels>): real {
    if |members| < 2 then 0.0
    else
      assert PairCount(|members|) > 0;
      TotalDissimilarity(members) / PairCount(|members|) as real
  }

  function TotalEntropy(clusters: seq<seq<Labels>>): real {
    if clusters == [] then 0.0 else Entropy(clusters[0]) + TotalEntropy(clusters[1..])
  }

  function MeanEntropy(clusters: seq<seq<Labels>>): real {
    if clusters == [] then 0.0 else TotalEntropy(clusters) / |clusters| as real
  }

  lemma SubsetCount<T>(a: set<T>, b: set<T>)
    requires a <= b
    ensures |a| <= |b|
  {
    assert b == a + (b - a);
  }

  lemma Product(q: real, n: nat)
    requires n > 0
    ensures q < 0.0 ==> q * n as real < 0.0
    ensures q > 1.0 ==> q * n as real > n as real
  {
    if q > 1.0 {
      var more := q - 1.0;
      assert more * n as real > 0.0;
      assert q * n as real == n as real + more * n as real;
    }
  }

  lemma Quotient(x: real, n: nat)
    requires n > 0 && 0.0 <= x <= n as real
    ensures 0.0 <= x / n as real <= 1.0
  {
    Product(x / n as real, n);
  }

  lemma JaccardIsAFraction(a: Labels, b: Labels)
    ensures 0.0 <= Jaccard(a, b) <= 1.0
  {
    if a != [] && b != [] {
      ElemsEmpty(a);
      var union := Elems(a) + Elems(b);
      assert Elems(a) <= union;
      assert union != {};
      SubsetCount(Elems(a) * Elems(b), union);
      Quotient(|Elems(a) * Elems(b)| as real, |union|);
    }
  }

  /** Label lists agree fully as equal sets, and not at all as disjoint ones; two empty ones agree. */
  lemma JaccardExactly(a: Labels, b: Labels)
    ensures Jaccard(a, b) == 1.0 <==> Elems(a) == Elems(b)
    ensures Jaccard(a, b) == 0.0 <==> Elems(a) !! Elems(b) && (a != [] || b != [])
    ensures Jaccard(a, b) == Jaccard(b, a)
  {
    ElemsEmpty(a);
    ElemsEmpty(b);
    if a != [] && b != [] {
      var both, either := Elems(a) * Elems(b), Elems(a) + Elems(b);
      assert Elems(b) * Elems(a) == both && Elems(b) + Elems(a) == either;
      assert both <= either && either != {};
      SubsetCount(both, either);
      QuotientExtremes(|both| as real, |either|);
      if |both| == |either| {
        assert either == both + (either - both);
        assert |either - both| == 0;
      }
    }
  }

  lemma {:induction false} DissimilarityExtremes(a: Labels, others: seq<Labels>)
    ensures DissimilarityTo(a, others) == 0.0 <==> forall b :: b in others ==> Jaccard(a, b) == 1.0
    ensures DissimilarityTo(a, others) == |others| as real <==> forall b :: b in others ==> Jaccard(a, b) == 0.0
  {
    hide Jaccard;
    if others != [] {
      JaccardIsAFraction(a, others[0]);
      DissimilarityIsBounded(a, others[1..]);
      DissimilarityExtremes(a, others[1..]);
      assert others == [others[0]] + others[1..];
    }
  }

  ghost predicate AllPairs(members: seq<Labels>, similarity: real) {
    forall i, j :: 0 <= i < j < |members| ==> Jaccard(members[i], members[j]) == similarity
  }

  lemma AllPairsOneMore(members: seq<Labels>, similarity: real)
    requires members != []
    ensures AllPairs(members, similarity) <==>
      (forall b :: b in members[1..] ==> Jaccard(members[0], b) == similarity) && AllPairs(members[1..], similarity)
  {
    hide Jaccard;
    var rest := members[1..];
    assert forall k :: 0 <= k < |rest| ==> rest[k] == members[k + 1];
    if (forall b :: b in rest ==> Jaccard(members[0], b) == similarity) && AllPairs(rest, similarity) {
      forall i, j | 0 <= i < j < |members| ensures Jaccard(members[i], members[j]) == similarity {
        assert members[j] == rest[j - 1];
        if i > 0 {
          assert members[i] == rest[i - 1];
        }
      }
    }
  }

  lemma {:induction false} TotalExtremes(members: seq<Labels>)
    ensures TotalDissimilarity(members) == 0.0 <==> AllPairs(members, 1.0)
    ensures TotalDissimilarity(members) == PairCount(|members|) as real <==> AllPairs(members, 0.0)
  {
    hide Jaccard, AllPairs;
    if members == [] {
      assert AllPairs([], 1.0) && AllPairs([], 0.0) by { NoPairsAtAll(); }
    } else {
      DissimilarityIsBounded(members[0], members[1..]);
      DissimilarityExtremes(members[0], members[1..]);
      TotalIsBounded(members[1..]);
      TotalExtremes(members[1..]);
      AllPairsOneMore(members, 1.0);
      AllPairsOneMore(members, 0.0);
    }
  }

  lemma NoPairsAtAll()
    ensures AllPairs([], 1.0) && AllPairs([], 0.0)
  {
  }

  /** A cluster has no entropy exactly if all its members have the same labels, and most if no two share any. */
  lemma EntropyExtremes(members: seq<Labels>)
    requires |members| >= 2
    ensures Entropy(members) == 0.0 <==> AllPairs(members, 1.0)
    ensures Entropy(members) == 1.0 <==> AllPairs(members, 0.0)
  {
    assert PairCount(|members|) > 0;
    TotalExtremes(members);
    hide AllPairs, TotalDissimilarity, PairCount;
    QuotientExtremes(TotalDissimilarity(members), PairCount(|members|));
  }

  lemma QuotientExtremes(x: real, n: nat)
    requires n > 0
    ensures x / n as real == 0.0 <==> x == 0.0
    ensures x / n as real == 1.0 <==> x == n as real
  {
    var q := x / n as real;
    assert q * n as real == x;
  }

  lemma {:induction false} DissimilarityIsBounded(a: Labels, others: seq<Labels>)
    ensures 0.0 <= DissimilarityTo(a, others) <= |others| as real
  {
    hide Jaccard;
    if others != [] {
      JaccardIsAFraction(a, others[0]);
      DissimilarityIsBounded(a, others[1..]);
    }
  }

  lemma {:induction false} TotalIsBounded(members: seq<Labels>)
    ensures 0.0 <= TotalDissimilarity(members) <= PairCount(|members|) as real
  {
    if members != [] {
      DissimilarityIsBounded(members[0], members[1..]);
      TotalIsBounded(members[1..]);
    }
  }

  lemma EntropyIsAFraction(members: seq<Labels>)
    ensures 0.0 <= Entropy(members) <= 1.0
  {
    if |members| >= 2 {
      TotalIsBounded(members);
      assert PairCount(|members|) > 0;
      Quotient(TotalDissimilarity(members), PairCount(|members|));
    }
  }

  lemma {:induction false} TotalEntropyIsBounded(clusters: seq<seq<Labels>>)
    ensures 0.0 <= TotalEntropy(clusters) <= |clusters| as real
  {
    hide Entropy;
    if clusters != [] {
      EntropyIsAFraction(clusters[0]);
      TotalEntropyIsBounded(clusters[1..]);
    }
  }

  /** Entropy lies between 0 and 1. */
  lemma MeanEntropyIsAFraction(clusters: seq<seq<Labels>>)
    ensures 0.0 <= MeanEntropy(clusters) <= 1.0
  {
    if clusters != [] {
      TotalEntropyIsBounded(clusters);
      Quotient(TotalEntropy(clusters), |clusters|);
    }
  }

  // ---- Effectiveness -------------------------------------------------------------------------------------

  function EnergyCost(o: Observation): real {
    var spent := o.pre.energy - o.post.energy;
    if spent > 0.01 then spent else 0.01
  }

  predicate Plausible(o: Observation) {
    o.costRoot > 0.0 && o.costRoot * o.costRoot == EnergyCost(o)
  }

  /** By how much the number of clusters changed, relative to what it was. */
  function ClusterImprovement(before: nat, after: nat): real {
    if before == 0 then 0.0 else (if after >= before then after - before else before - after) as real / before as real
  }

  function Effectiveness(action: ActionType, o: Observation): real
    requires Plausible(o)
  {
    var pre, post := MeanEntropy(o.pre.clusters), MeanEntropy(o.post.clusters);
    var delta := pre - post;
    Clamp(match action
          case Fission => if pre > 0.3 then delta / o.costRoot else 0.0
          case Dream => delta * 0.6 + ClusterImprovement(|o.pre.clusters|, |o.post.clusters|) * 0.4
          case Pulse => (if delta > 0.0 then delta else 0.0) * 0.5
          case Merge => if post <= pre * 1.1 then 0.7 else 0.2
          case Evict => if o.post.tetras < o.pre.tetras then 0.6 else 0.1
          case Link => 0.5,
          -1.0, 1.0)
  }

  /** Only fission and dreams can be harmful, and a dream by no more than 0.6. */
  lemma EffectivenessRange(action: ActionType, o: Observation)
    requires Plausible(o)
    ensures match action
      case Fission => -1.0 <= Effectiveness(action, o) <= 1.0
      case Dream => -0.6 <= Effectiveness(action, o) <= 1.0
      case Pulse => 0.0 <= Effectiveness(action, o) <= 0.5
      case Merge => Effectiveness(action, o) in {0.2, 0.7}
      case Evict => Effectiveness(action, o) in {0.1, 0.6}
      case Link => Effectiveness(action, o) == 0.5
  {
    MeanEntropyIsAFraction(o.pre.clusters);
    MeanEntropyIsAFraction(o.post.clusters);
    hide MeanEntropy;
    ImprovementIsNotNegative(|o.pre.clusters|, |o.post.clusters|);
  }

  lemma ImprovementIsNotNegative(before: nat, after: nat)
    ensures ClusterImprovement(before, after) >= 0.0
  {
    if before > 0 {
      Product(ClusterImprovement(before, after), before);
    }
  }

  // ---- Observations at the ends of the ranges ---------------------------------------------------------------

  const BARE: seq<Labels> := [[], []]
  const MARKED: seq<Labels> := [[], ["superseded"]]
  const HALF: seq<Labels> := [["a"], ["a", "b"]]
  const APART: seq<Labels> := [["a"], ["b"]]

  lemma SampleJaccards()
    ensures Jaccard([], []) == 1.0 && Jaccard([], ["superseded"]) == 0.0
    ensures Jaccard(["a"], ["a", "b"]) == 0.5 && Jaccard(["a"], ["b"]) == 0.0
  {
    var a, b, ab := ["a"], ["b"], ["a", "b"];
    assert "a" != "b" by { assert "a"[0] != "b"[0]; }
    assert Elems(a) == {"a"} && Elems(b) == {"b"};
    assert ab[0] == "a" && ab[1] == "b";
    assert Elems(ab) == {"a", "b"};
    assert Elems(a) * Elems(b) == {} && Elems(a) + Elems(b) == {"a", "b"};
    assert Elems(a) * Elems(ab) == {"a"} && Elems(a) + Elems(ab) == {"a", "b"};
  }

  lemma SampleEntropies()
    ensures MeanEntropy([BARE]) == 0.0 && MeanEntropy([MARKED]) == 1.0
    ensures MeanEntropy([HALF]) == 0.5 && MeanEntropy([APART]) == 1.0
  {
    hide MeanEntropy, Jaccard;
    SampleJaccards();
    PairOf([], []);
    PairOf([], ["superseded"]);
    PairOf(["a"], ["a", "b"]);
    PairOf(["a"], ["b"]);
  }

  lemma PairOf(a: Labels, b: Labels)
    ensures MeanEntropy([[a, b]]) == 1.0 - Jaccard(a, b)
  {
    hide Jaccard;
    var members := [a, b];
    var one: seq<seq<Labels>> := [members];
    assert members[1..] == [b] && members[1..][1..] == [] && one[1..] == [];
    assert DissimilarityTo(a, [b]) == 1.0 - Jaccard(a, b);
    assert TotalDissimilarity([b]) == 0.0;
    assert TotalDissimilarity(members) == 1.0 - Jaccard(a, b);
    assert PairCount(1) == 0 && PairCount(2) == 1;
    assert Entropy(members) == 1.0 - Jaccard(a, b);
    assert TotalEntropy(one) == Entropy(members);
  }

  /** A dream that superseded one of the two memories of the only cluster; neither had any label. */
  function WorstDream(): Observation {
    Observation(Tick([BARE], 2, 0.0), Tick([MARKED], 2, 0.0), 0.1)
  }

  /** A fission that cost little and left the only cluster less coherent. */
  function WorstFission(): Observation {
    Observation(Tick([HALF], 2, 0.0), Tick([APART], 2, 0.0), 0.1)
  }

  /** The lower ends of the ranges are reached. */
  lemma WorstCases()
    ensures Plausible(WorstDream()) && Effectiveness(Dream, WorstDream()) == -0.6
    ensures Plausible(WorstFission()) && Effectiveness(Fission, WorstFission()) == -1.0
  {
    SampleEntropies();
    hide MeanEntropy;
    assert ClusterImprovement(1, 1) == 0.0;
  }
}
