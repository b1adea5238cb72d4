/**
 * Clustering behind the version-stamped cache. A call takes four separate locks (read the version, look in
 * the cache, copy the topology, write the cache back); writers and other calls may run between any two.
 */
module ClusterCache {
  import opened Prelude
  import opened Clusters
  import opened Topology
  import opened SpaceStore
  import Index
  import C = Cylinder

  type CallId = nat
  type ClusterList = seq<seq<Id>>

  /** How far a call has come. Positions are indexes into the history of the space. */
  datatype Phase =
    | GotVersion(start: nat, version: nat)
    | Missed(start: nat, version: nat)
    | Copied(start: nat, version: nat, at: nat)
    | Returned(start: nat, end: nat, result: ClusterList)

  /** All states the space has been in, the cached clusters with their version, and the calls. */
  datatype System = System(history: seq<Snapshot>, cache: Option<(nat, ClusterList)>, calls: map<CallId, Phase>)

  datatype Action =
    | Mutate(next: Snapshot)
    | ReadVersion(call: CallId)
    | LookInCache(call: CallId)
    | CopyTopology(call: CallId)
    | WriteCache(call: CallId, clusters: ClusterList)

  function Now(s: System): nat
    requires s.history != []
  {
    |s.history| - 1
  }

  ghost predicate Enabled(s: System, a: Action)
    requires s.history != []
  {
    match a
    case Mutate(next) => Stamped(s.history[Now(s)], next)
    case ReadVersion(c) => c !in s.calls
    case LookInCache(c) => c in s.calls && s.calls[c].GotVersion?
    case CopyTopology(c) => c in s.calls && s.calls[c].Missed?
    case WriteCache(c, clusters) =>
      c in s.calls && s.calls[c].Copied? && s.calls[c].at <= Now(s)
      && AreComponents(clusters, Shape(s.history[s.calls[c].at]))
  }

  ghost function Perform(s: System, a: Action): System
    requires s.history != [] && Enabled(s, a)
  {
    match a
    case Mutate(next) => s.(history := s.history + [next])
    case ReadVersion(c) =>
      s.(calls := s.calls[c := GotVersion(Now(s), s.history[Now(s)].structureVersion)])
    case LookInCache(c) =>
      var p := s.calls[c];
      if s.cache.Some? && s.cache.value.0 == p.version then
        s.(calls := s.calls[c := Returned(p.start, Now(s), s.cache.value.1)])
      else
        s.(calls := s.calls[c := Missed(p.start, p.version)])
    case CopyTopology(c) =>
      s.(calls := s.calls[c := Copied(s.calls[c].start, s.calls[c].version, Now(s))])
    case WriteCache(c, clusters) =>
      var p := s.calls[c];
      s.(cache := Some((p.version, clusters)), calls := s.calls[c := Returned(p.start, Now(s), clusters)])
  }

  ghost predicate Start(s: System) {
    |s.history| == 1 && s.cache == None && s.calls == map[]
  }

  /** Any interleaving: consecutive states related by one enabled action. */
  ghost predicate IsExecution(states: seq<System>, actions: seq<Action>) {
    && |states| == |actions| + 1
    && Start(states[0])
    && forall i :: 0 <= i < |actions| ==>
         states[i].history != [] && Enabled(states[i], actions[i]) && states[i + 1] == Perform(states[i], actions[i])
  }

  /** `clusters` are the components of a state that was current between two positions of the history. */
  ghost predicate WasCurrent(history: seq<Snapshot>, from: nat, to: nat, clusters: ClusterList) {
    exists w :: from <= w <= to && w < |history| && AreComponents(clusters, Shape(history[w]))
  }

  ghost predicate CacheOk(s: System) {
    s.cache.Some? ==>
      exists w :: 0 <= w < |s.history| && s.cache.value.0 <= s.history[w].structureVersion
               && AreComponents(s.cache.value.1, Shape(s.history[w]))
  }

  ghost predicate CallOk(s: System, p: Phase)
    requires s.history != []
  {
    && p.start < |s.history|
    && (!p.Returned? ==> p.version == s.history[p.start].structureVersion)
    && (p.Copied? ==> p.start <= p.at < |s.history|)
    && (p.Returned? ==> p.start <= p.end < |s.history| && WasCurrent(s.history, p.start, p.end, p.result))
  }

  ghost predicate Inv(s: System) {
    && s.history != []
    && IsRun(s.history)
    && CacheOk(s)
    && forall c :: c in s.calls ==> CallOk(s, s.calls[c])
  }

  lemma MutatingKeepsCalls(s: System, next: Snapshot, p: Phase)
    requires s.history != [] && CallOk(s, p)
    ensures CallOk(s.(history := s.history + [next]), p)
  {
    var h := s.history + [next];
    assert forall i :: 0 <= i < |s.history| ==> h[i] == s.history[i];
    if p.Returned? {
      var w :| p.start <= w <= p.end && w < |s.history| && AreComponents(p.result, Shape(s.history[w]));
      assert AreComponents(p.result, Shape(h[w]));
    }
  }

  /** A cached answer stored under the version a call started with was current during that call. */
  lemma HitWasCurrent(s: System, start: nat)
    requires Inv(s) && start < |s.history| && s.cache.Some? && s.cache.value.0 == s.history[start].structureVersion
    ensures WasCurrent(s.history, start, Now(s), s.cache.value.1)
  {
    hide AreComponents, Shape, Stamped;
    var w :| 0 <= w < |s.history| && s.cache.value.0 <= s.history[w].structureVersion
          && AreComponents(s.cache.value.1, Shape(s.history[w]));
    if w < start {
      StampsIdentifyStates(s.history, w, start);
      assert AreComponents(s.cache.value.1, Shape(s.history[start]));
    }
  }

  lemma PerformKeepsInv(s: System, a: Action)
    requires Inv(s) && Enabled(s, a)
    ensures Inv(Perform(s, a))
  {
    hide AreComponents, Shape, Stamped;
    var s' := Perform(s, a);
    match a
    case Mutate(next) =>
      forall i | 0 <= i < |s'.history| - 1
        ensures Stamped(s'.history[i], s'.history[i + 1])
      {
        if i < |s.history| - 1 {
          assert Stamped(s.history[i], s.history[i + 1]);
        }
      }
      forall c | c in s'.calls
        ensures CallOk(s', s'.calls[c])
      {
        MutatingKeepsCalls(s, next, s.calls[c]);
      }
      if s.cache.Some? {
        var w :| 0 <= w < |s.history| && s.cache.value.0 <= s.history[w].structureVersion
              && AreComponents(s.cache.value.1, Shape(s.history[w]));
        assert s'.history[w] == s.history[w];
      }
    case ReadVersion(c) =>
    case LookInCache(c) =>
      if s.cache.Some? && s.cache.value.0 == s.calls[c].version {
        HitWasCurrent(s, s.calls[c].start);
      }
    case CopyTopology(c) =>
    case WriteCache(c, clusters) =>
      var p := s.calls[c];
      if p.start < p.at {
        StampsIdentifyStates(s.history, p.start, p.at);
      }
      assert AreComponents(clusters, Shape(s'.history[p.at]));
  }

  lemma {:induction false} ExecutionKeepsInv(states: seq<System>, actions: seq<Action>, n: nat)
    requires IsExecution(states, actions) && n < |states|
    ensures Inv(states[n])
  {
    hide Enabled, Perform, Inv;
    if n == 0 {
      assert Inv(states[0]) by { StartIsOk(states[0]); }
    } else {
      ExecutionKeepsInv(states, actions, n - 1);
      PerformKeepsInv(states[n - 1], actions[n - 1]);
      assert states[n - 1 + 1] == Perform(states[n - 1], actions[n - 1]);
    }
  }

  lemma StartIsOk(s: System)
    requires Start(s)
    ensures Inv(s)
  {
  }

  /**
   * In every interleaving, every call that returns, whether from the cache or by computing, returns the
   * components of a state of the space that was current at some point between its first lock and its return.
   */
  lemma EveryAnswerWasCurrent(states: seq<System>, actions: seq<Action>, n: nat, c: CallId)
    requires IsExecution(states, actions) && n < |states|
    requires c in states[n].calls && states[n].calls[c].Returned?
    ensures var p := states[n].calls[c];
      p.start <= p.end < |states[n].history| && WasCurrent(states[n].history, p.start, p.end, p.result)
  {
    hide WasCurrent, IsExecution;
    ExecutionKeepsInv(states, actions, n);
    assert CallOk(states[n], states[n].calls[c]);
  }

  /** With no structural change during the call, the answer is the unique clustering of the present. */
  lemma UndisturbedAnswerIsExact(states: seq<System>, actions: seq<Action>, n: nat, c: CallId, clusters: ClusterList)
    requires IsExecution(states, actions) && n < |states|
    requires c in states[n].calls && states[n].calls[c].Returned?
    requires var p := states[n].calls[c]; var h := states[n].history;
      p.start < |h| && p.end < |h| && h[p.start].structureVersion == h[p.end].structureVersion
      && AreComponents(clusters, Shape(h[p.end]))
    ensures states[n].calls[c].result == clusters
  {
    hide IsExecution, AreComponents, Shape;
    EveryAnswerWasCurrent(states, actions, n, c);
    ExecutionKeepsInv(states, actions, n);
    var p, h := states[n].calls[c], states[n].history;
    var w :| p.start <= w <= p.end && w < |h| && AreComponents(p.result, Shape(h[w]));
    StampsIdentifyStates(h, p.start, w);
    StampsIdentifyStates(h, w, p.end);
    ComponentsAreUnique(p.result, clusters, Shape(h[p.end]));
  }
}
