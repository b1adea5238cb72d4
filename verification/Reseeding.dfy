/** Giving a port to every cluster that has none and can get one. */
module Reseeding {
  import opened Prelude
  import opened Geometry
  import opened Topology
  import opened Clusters
  import C = Cylinder

  function VertsOf(tetras: map<Id, Tetra>): TetraVerts {
    map t | t in tetras :: tetras[t].vertexIds
  }

  /** The layer whose zone contains height `z`; the zones are half-open and two units high. */
  function LayerForZ(z: real): (l: Option<C.Layer>)
    ensures l.None? <==> z < 0.0 || z >= 12.0
    ensures forall i: nat :: i < 6 && (2 * i) as real <= z < (2 * i + 2) as real ==> l == Some(C.LayerAt(i))
  {
    if z < 0.0 || z >= 6.0 * C.LAYER_HEIGHT then None
    else Some(C.LayerAt((z / C.LAYER_HEIGHT).Floor))
  }

  ghost predicate Least(tv: TetraVerts, root: Id) {
    root in tv && forall b :: b in ComponentOf(tv, root) ==> root <= b
  }

  ghost predicate HasPort(tv: TetraVerts, ports: seq<C.Port>, root: Id) {
    exists u :: u in ComponentOf(tv, root) && C.OwnsPort(ports, u)
  }

  /** No member of the cluster touches a free port. */
  ghost predicate NoFreeContact(tv: TetraVerts, ports: seq<C.Port>, root: Id) {
    forall u, k :: u in tv && u in ComponentOf(tv, root) && 0 <= k < |ports| && ports[k].id in tv[u] ==>
      !ports[k].IsFree()
  }

  /** The layer of the cluster's oldest member has no free port, or there is no such layer. */
  ghost predicate NoFreeLayerPort(tetras: map<Id, Tetra>, ports: seq<C.Port>, root: Id)
    requires root in tetras
  {
    var l := LayerForZ(tetras[root].core.z);
    l.None? || !C.HasPorts(l.value) || forall k :: 0 <= k < |ports| && ports[k].layer == l.value ==> !ports[k].IsFree()
  }

  /** The cluster has a port, or nothing in reach of it is free. */
  ghost predicate Settled(tetras: map<Id, Tetra>, ports: seq<C.Port>, root: Id)
    requires root in tetras
  {
    var tv := VertsOf(tetras);
    HasPort(tv, ports, root) || (NoFreeContact(tv, ports, root) && NoFreeLayerPort(tetras, ports, root))
  }

  ghost predicate AllSettled(tetras: map<Id, Tetra>, ports: seq<C.Port>) {
    forall root :: root in tetras && Least(VertsOf(tetras), root) ==> Settled(tetras, ports, root)
  }

  /** Ports only change by being given to somebody while free. */
  ghost predicate OnlyAssigned(before: seq<C.Port>, after: seq<C.Port>) {
    && |before| == |after|
    && forall k :: 0 <= k < |before| ==>
         after[k] == before[k]
         || (before[k].IsFree() && after[k].owner.Some? && after[k] == before[k].Assign(after[k].owner.value))
  }

  lemma AssigningKeepsSettled(tetras: map<Id, Tetra>, before: seq<C.Port>, after: seq<C.Port>, root: Id)
    requires root in tetras && Settled(tetras, before, root)
    requires OnlyAssigned(before, after) && C.StatusMatchesOwner(before)
    ensures Settled(tetras, after, root)
  {
    hide ComponentOf, LayerForZ;
    var tv := VertsOf(tetras);
    if HasPort(tv, before, root) {
      var u :| u in ComponentOf(tv, root) && C.OwnsPort(before, u);
      var k :| 0 <= k < |before| && before[k].owner == Some(u);
      assert before[k] in before;
      assert after[k].owner == Some(u);
    }
  }

  // ---- The clusters, oldest member first ---------------------------------------------------

  method ListIds(ids: set<Id>) returns (s: seq<Id>)
    ensures Increasing(s) && Elems(s) == ids
  {
    var remaining := ids;
    var all: seq<Id> := [];
    while remaining != {}
      invariant Elems(all) + remaining == ids && Elems(all) !! remaining && NoDup(all)
      decreases remaining
    {
      var x :| x in remaining;
      assert Elems(all + [x]) == Elems(all) + {x};
      assert x !in Elems(all);
      all := all + [x];
      remaining := remaining - {x};
    }
    SortByIsSorted(all, (x: Id) => x);
    s := SortBy(all, (x: Id) => x);
  }

  /** Each cluster is the component of its first and least member; together they cover everything. */
  ghost predicate ClustersOldestFirst(tv: TetraVerts, clusters: seq<seq<Id>>) {
    && (forall c: seq<Id> :: c in clusters ==> IsComponent(tv, c) && Least(tv, c[0]))
    && (forall i, j :: 0 <= i < j < |clusters| ==> Elems(clusters[i]) !! Elems(clusters[j]))
    && (forall root :: Least(tv, root) ==> exists c: seq<Id> :: c in clusters && FirstOf(c) == root)
    && FirstsIncrease(clusters)
  }

  ghost predicate FirstsIncrease(clusters: seq<seq<Id>>) {
    forall i, j :: 0 <= i < j < |clusters| ==> FirstOf(clusters[i]) < FirstOf(clusters[j])
  }

  lemma FirstsOneMore(clusters: seq<seq<Id>>, ids: seq<Id>, i: nat, c: seq<Id>)
    requires Increasing(ids) && i < |ids| && FirstsIncrease(clusters) && FirstOf(c) == ids[i]
    requires forall d: seq<Id> :: d in clusters ==> FirstOf(d) in ids[..i]
    ensures FirstsIncrease(clusters + [c])
    ensures forall d: seq<Id> :: d in clusters + [c] ==> FirstOf(d) in ids[..i + 1]
  {
    var longer := clusters + [c];
    assert ids[..i + 1] == ids[..i] + [ids[i]];
    forall j | 0 <= j < |clusters| ensures FirstOf(longer[j]) < ids[i] {
      assert clusters[j] in clusters;
    }
  }

  method GatherClusters(tv: TetraVerts, v2t: VertexTetras) returns (clusters: seq<seq<Id>>)
    requires Inverse(tv, v2t)
    ensures ClustersOldestFirst(tv, clusters)
  {
    hide Inverse, ComponentOf, ClosedUnderLinks, Splits, Least, IsComponent, NoDup, Increasing, AllFirstsLeast,
      FirstsIncrease;
    assert FirstsIncrease([]) by { NoFirstsIncrease(); }
    var ids := ListIds(tv.Keys);
    var visited: set<Id> := {};
    clusters := [];
    NothingIsClosed(tv);
    assert Splits(tv, clusters, visited) by { NothingIsSplit(tv); }
    assert AllFirstsLeast(tv, []) by { NoFirsts(tv); }
    var i := 0;
    while i < |ids|
      invariant 0 <= i <= |ids|
      invariant ClosedUnderLinks(tv, visited) && Splits(tv, clusters, visited)
      invariant Elems(ids[..i]) <= visited
      invariant AllFirstsLeast(tv, clusters)
      invariant FirstsIncrease(clusters) && forall d: seq<Id> :: d in clusters ==> FirstOf(d) in ids[..i]
    {
      var id := ids[i];
      assert id in Elems(ids);
      assert Elems(ids[..i + 1]) == Elems(ids[..i]) + {id};
      if id !in visited {
        var cluster, visited' := Component(tv, v2t, id, visited);
        RootIsLeast(tv, ids, i, visited);
        assert IsComponent(tv, cluster) by { ComponentIsComponent(tv, cluster, id); }
        SplitsOneMore(tv, clusters, visited, cluster);
        OneMoreLeast(tv, clusters, cluster);
        FirstsOneMore(clusters, ids, i, cluster);
        clusters := clusters + [cluster];
        visited := visited';
      }
      i := i + 1;
    }
    assert ids[..i] == ids;
    SplitsAreOldestFirst(tv, clusters, visited);
  }

  ghost predicate AllFirstsLeast(tv: TetraVerts, clusters: seq<seq<Id>>) {
    forall c: seq<Id> :: c in clusters ==> |c| > 0 && Least(tv, c[0])
  }

  lemma NoFirstsIncrease()
    ensures FirstsIncrease([])
  {
  }

  lemma NoFirsts(tv: TetraVerts)
    ensures AllFirstsLeast(tv, [])
  {
  }

  lemma ComponentIsComponent(tv: TetraVerts, c: seq<Id>, root: Id)
    requires |c| > 0 && c[0] == root && root in tv && Elems(c) == ComponentOf(tv, root)
    ensures IsComponent(tv, c)
  {
  }

  lemma OneMoreLeast(tv: TetraVerts, clusters: seq<seq<Id>>, c: seq<Id>)
    requires AllFirstsLeast(tv, clusters) && |c| > 0 && Least(tv, c[0])
    ensures AllFirstsLeast(tv, clusters + [c])
  {
    hide Least;
  }

  lemma SplitsAreOldestFirst(tv: TetraVerts, clusters: seq<seq<Id>>, visited: set<Id>)
    requires Splits(tv, clusters, visited) && tv.Keys <= visited && AllFirstsLeast(tv, clusters)
    requires FirstsIncrease(clusters)
    ensures ClustersOldestFirst(tv, clusters)
  {
    hide Splits, IsComponent, NoDup, Least, FirstsIncrease;
    SplitsFacts(tv, clusters, visited);
    forall root | Least(tv, root)
      ensures exists c: seq<Id> :: c in clusters && FirstOf(c) == root
    {
      LeastIsKnown(tv, root);
      var c: seq<Id> :| c in clusters && root in c;
      OneLeastEach(tv, c, root);
    }
  }

  lemma LeastIsKnown(tv: TetraVerts, root: Id)
    requires Least(tv, root)
    ensures root in tv
  {
  }

  lemma RootIsLeast(tv: TetraVerts, ids: seq<Id>, i: nat, visited: set<Id>)
    requires i < |ids| && Increasing(ids) && Elems(ids) == tv.Keys && Elems(ids[..i]) <= visited
    requires ClosedUnderLinks(tv, visited) && ids[i] !in visited
    ensures Least(tv, ids[i])
  {
    var root := ids[i];
    assert root in Elems(ids);
    forall b | b in ComponentOf(tv, root)
      ensures root <= b
    {
      if b < root {
        assert b in Elems(ids);
        var j :| 0 <= j < |ids| && ids[j] == b;
        assert j < i && b in Elems(ids[..i]);
        ConnectedSymmetric(tv, root, b);
        ClosedContainsConnected(tv, visited, b, root);
      }
    }
  }

  lemma OneLeastEach(tv: TetraVerts, c: seq<Id>, root: Id)
    requires IsComponent(tv, c) && Least(tv, c[0]) && Least(tv, root) && root in c
    ensures c[0] == root
  {
    hide Connected;
    assert root in Elems(c);
    ConnectedShareComponent(tv, c[0], root);
    assert c[0] in Elems(c);
  }

  // ---- Contacts ------------------------------------------------------------------------------

  predicate PairBefore(a: (Id, Id), b: (Id, Id)) {
    a.0 < b.0 || (a.0 == b.0 && a.1 < b.1)
  }

  ghost predicate PairsInOrder(s: seq<(Id, Id)>) {
    forall i, j :: 0 <= i < j < |s| ==> !PairBefore(s[j], s[i])
  }

  function InsertPair(s: seq<(Id, Id)>, x: (Id, Id)): (r: seq<(Id, Id)>)
    ensures forall y :: y in r <==> y == x || y in s
    ensures PairsInOrder(s) ==> PairsInOrder(r)
  {
    if s == [] || !PairBefore(s[0], x) then [x] + s
    else
      assert s == [s[0]] + s[1..];
      var rest := InsertPair(s[1..], x);
      assert PairsInOrder(s) ==> forall y :: y in s[1..] ==> !PairBefore(y, s[0]);
      assert PairsInOrder(s) ==> forall y :: y in rest ==> !PairBefore(y, s[0]);
      [s[0]] + rest
  }

  /** The pairs of a port and a member of the cluster that touches it, in order. */
  method Contacts(tv: TetraVerts, portIds: set<Id>, cluster: seq<Id>) returns (contacts: seq<(Id, Id)>)
    requires forall u :: u in cluster ==> u in tv
    ensures forall v, u :: (v, u) in contacts <==> u in cluster && v in tv[u] && v in portIds
    ensures PairsInOrder(contacts)
  {
    hide PairsInOrder;
    assert PairsInOrder([]) by { NoPairs(); }
    contacts := [];
    var i := 0;
    while i < |cluster|
      invariant 0 <= i <= |cluster|
      invariant forall v, u :: (v, u) in contacts <==> u in cluster[..i] && v in tv[u] && v in portIds
      invariant PairsInOrder(contacts)
    {
      var u := cluster[i];
      ghost var before := contacts;
      var vids := tv[u];
      var j := 0;
      while j < |vids|
        invariant 0 <= j <= |vids|
        invariant forall v, w :: (v, w) in contacts <==> (v, w) in before || (w == u && v in vids[..j] && v in portIds)
        invariant PairsInOrder(contacts)
      {
        if vids[j] in portIds {
          contacts := InsertPair(contacts, (vids[j], u));
        }
        j := j + 1;
      }
      assert vids[..j] == vids;
      assert forall w :: w in cluster[..i + 1] <==> w in cluster[..i] || w == u;
      i := i + 1;
    }
    assert cluster[..i] == cluster;
  }

  lemma NoPairs()
    ensures PairsInOrder([])
  {
  }

  // ---- Which port a cluster gets -----------------------------------------------------------------

  /** Member `u` of the cluster touches port `k`, which is free. */
  ghost predicate FreeContact(tv: TetraVerts, ports: seq<C.Port>, root: Id, k: nat, u: Id) {
    u in tv && u in ComponentOf(tv, root) && k < |ports| && ports[k].id in tv[u] && ports[k].IsFree()
  }

  /** Of all free contacts of the cluster the one with the least port, and with the least member that touches it. */
  ghost predicate LeastContact(tv: TetraVerts, ports: seq<C.Port>, root: Id, k: nat, u: Id) {
    && FreeContact(tv, ports, root, k, u)
    && forall j: nat, w :: FreeContact(tv, ports, root, j, w) ==>
      ports[k].id < ports[j].id || (ports[k].id == ports[j].id && u <= w)
  }

  /** The first free port of the layer that holds the core of the oldest member. */
  ghost predicate FirstOfLayer(tetras: map<Id, Tetra>, ports: seq<C.Port>, root: Id, k: nat)
    requires root in tetras
  {
    var l := LayerForZ(tetras[root].core.z);
    && l.Some? && C.HasPorts(l.value)
    && k < |ports| && ports[k].layer == l.value && ports[k].IsFree()
    && forall j :: 0 <= j < k ==> !(ports[j].layer == l.value && ports[j].IsFree())
  }

  /** A port the cluster touches goes to who touches it; only without one its oldest member gets one of its layer. */
  ghost predicate SeededBy(tetras: map<Id, Tetra>, before: seq<C.Port>, after: seq<C.Port>, root: Id)
    requires root in tetras
  {
    var tv := VertsOf(tetras);
    exists k: nat, u: Id ::
      k < |before| && after == before[k := before[k].Assign(u)]
      && if NoFreeContact(tv, before, root) then u == root && FirstOfLayer(tetras, before, root, k)
         else LeastContact(tv, before, root, k, u)
  }

  /** Which port is handed out, and to whom, is determined. */
  lemma SeedingIsUnique(tetras: map<Id, Tetra>, before: seq<C.Port>, a: seq<C.Port>, b: seq<C.Port>, root: Id)
    requires root in tetras && C.DistinctIds(before)
    requires SeededBy(tetras, before, a, root) && SeededBy(tetras, before, b, root)
    ensures a == b
  {
    hide ComponentOf, LayerForZ;
  }

  // ---- Seeding ----------------------------------------------------------------------------------

  /** Exactly one free port was given to a member of the cluster. */
  ghost predicate Seeded(before: seq<C.Port>, after: seq<C.Port>, members: set<Id>) {
    exists k, u :: 0 <= k < |before| && before[k].IsFree() && u in members && after == before[k := before[k].Assign(u)]
  }

  method SeedByContact(cylinder: C.Cylinder, contacts: seq<(Id, Id)>, ghost tv: TetraVerts, cluster: seq<Id>)
    returns (ok: bool)
    requires cylinder.Valid() && IsComponent(tv, cluster)
    requires forall u :: u in cluster ==> u in tv
    requires forall v, u :: (v, u) in contacts <==> u in cluster && v in tv[u] && v in C.PortIds(cylinder.ports)
    requires PairsInOrder(contacts)
    modifies cylinder
    ensures cylinder.Valid()
    ensures ok ==> exists k: nat, u: Id ::
      LeastContact(tv, old(cylinder.ports), cluster[0], k, u)
      && cylinder.ports == old(cylinder.ports)[k := old(cylinder.ports)[k].Assign(u)]
    ensures !ok ==> cylinder.ports == old(cylinder.ports)
    ensures ok <==> !NoFreeContact(tv, old(cylinder.ports), cluster[0])
  {
    hide C.AssignedTo, C.CanAssign, ComponentOf;
    var i := 0;
    while i < |contacts|
      invariant 0 <= i <= |contacts|
      invariant cylinder.Valid() && cylinder.ports == old(cylinder.ports)
      invariant forall j :: 0 <= j < i ==> !C.CanAssign(old(cylinder.ports), contacts[j].0)
    {
      var (v, u) := contacts[i];
      ok := cylinder.AssignSpecificPort(v, u);
      if ok {
        FirstAssignableIsLeast(old(cylinder.ports), contacts, tv, cluster, i);
        return;
      }
      NotAssigned(old(cylinder.ports), v, u);
      i := i + 1;
    }
    ok := false;
    forall u, k | u in tv && u in ComponentOf(tv, cluster[0])
      && 0 <= k < |cylinder.ports| && cylinder.ports[k].id in tv[u]
      ensures !cylinder.ports[k].IsFree()
    {
      assert u in Elems(cluster);
      assert cylinder.ports[k] in cylinder.ports;
      assert (cylinder.ports[k].id, u) in contacts;
      var j :| 0 <= j < |contacts| && contacts[j] == (cylinder.ports[k].id, u);
      CannotAssign(cylinder.ports, k);
    }
  }

  lemma CannotAssign(ports: seq<C.Port>, k: nat)
    requires C.DistinctIds(ports) && k < |ports| && !C.CanAssign(ports, ports[k].id)
    ensures !ports[k].IsFree()
  {
    C.PortsAreFoundById(ports, k);
  }

  /** The contacts are tried in order, so the first that can be assigned is the least of the free ones. */
  lemma FirstAssignableIsLeast(ports: seq<C.Port>, contacts: seq<(Id, Id)>, tv: TetraVerts, cluster: seq<Id>, i: nat)
    requires C.DistinctIds(ports) && IsComponent(tv, cluster) && PairsInOrder(contacts)
    requires forall u :: u in cluster ==> u in tv
    requires forall v, u :: (v, u) in contacts <==> u in cluster && v in tv[u] && v in C.PortIds(ports)
    requires i < |contacts| && C.CanAssign(ports, contacts[i].0)
    requires forall j :: 0 <= j < i ==> !C.CanAssign(ports, contacts[j].0)
    ensures var k := C.IndexOfPort(ports, contacts[i].0);
      && LeastContact(tv, ports, cluster[0], k, contacts[i].1)
      && C.AssignedTo(ports, contacts[i].0, contacts[i].1) == ports[k := ports[k].Assign(contacts[i].1)]
  {
    hide ComponentOf;
    var (v, u) := contacts[i];
    var k := C.IndexOfPort(ports, v);
    assert contacts[i] in contacts && u in Elems(cluster);
    forall j: nat, w | FreeContact(tv, ports, cluster[0], j, w)
      ensures ports[k].id < ports[j].id || (ports[k].id == ports[j].id && u <= w)
    {
      assert w in Elems(cluster) && ports[j] in ports;
      assert (ports[j].id, w) in contacts;
      var m :| 0 <= m < |contacts| && contacts[m] == (ports[j].id, w);
      C.PortsAreFoundById(ports, j);
      assert i <= m;
    }
  }

  lemma NotAssigned(ports: seq<C.Port>, v: Id, u: Id)
    requires !C.CanAssign(ports, v)
    ensures C.AssignedTo(ports, v, u) == ports
  {
  }

  lemma SeededByIsSeeded(tetras: map<Id, Tetra>, before: seq<C.Port>, after: seq<C.Port>, cluster: seq<Id>)
    requires IsComponent(VertsOf(tetras), cluster) && SeededBy(tetras, before, after, cluster[0])
    ensures Seeded(before, after, ComponentOf(VertsOf(tetras), cluster[0]))
  {
    hide ComponentOf, LayerForZ;
    assert cluster[0] in Elems(cluster);
  }

  /** Give one cluster without a port a port it touches, or else a free one of its layer. */
  method SeedCluster(cylinder: C.Cylinder, tetras: map<Id, Tetra>, cluster: seq<Id>) returns (ok: bool)
    requires cylinder.Valid() && IsComponent(VertsOf(tetras), cluster)
    modifies cylinder
    ensures cylinder.Valid()
    ensures ok ==> SeededBy(tetras, old(cylinder.ports), cylinder.ports, cluster[0])
    ensures !ok ==> cylinder.ports == old(cylinder.ports)
    ensures ok
      <==> !(NoFreeContact(VertsOf(tetras), old(cylinder.ports), cluster[0])
             && NoFreeLayerPort(tetras, old(cylinder.ports), cluster[0]))
  {
    hide Connected, LayerForZ;
    var tv := VertsOf(tetras);
    assert forall u :: u in cluster ==> u in Elems(cluster);
    var contacts := Contacts(tv, C.PortIds(cylinder.ports), cluster);
    ok := SeedByContact(cylinder, contacts, tv, cluster);
    if ok {
      return;
    }
    var layer := LayerForZ(tetras[cluster[0]].core.z);
    if layer.None? || !C.HasPorts(layer.value) {
      return;
    }
    ghost var before, i := cylinder.ports, C.IndexOfFree(cylinder.ports, layer.value);
    var port := cylinder.AssignPort(layer.value, cluster[0]);
    ok := port.Some?;
    if ok {
      assert FirstOfLayer(tetras, before, cluster[0], i);
    }
  }

  /** The ports that changed hands. */
  ghost function HandedOut(before: seq<C.Port>, after: seq<C.Port>): set<nat> {
    set k: nat | k < |before| && k < |after| && after[k] != before[k]
  }

  /** The ports that changed hands went to clusters that had none, at most one to each. */
  ghost predicate OneEach(tetras: map<Id, Tetra>, before: seq<C.Port>, after: seq<C.Port>) {
    var tv := VertsOf(tetras);
    && (forall k :: k in HandedOut(before, after) ==>
          after[k].owner.Some? && after[k].owner.value in tetras && !HasPort(tv, before, after[k].owner.value))
    && forall j, k :: j in HandedOut(before, after) && k in HandedOut(before, after) && j != k ==>
         after[j].owner.Some? && after[k].owner.Some? && after[k].owner.value !in ComponentOf(tv, after[j].owner.value)
  }

  /** How far a pass has come: the first `i` clusters are settled, and `n` free ports have been handed out to them. */
  ghost predicate Progress(tetras: map<Id, Tetra>, ports0: seq<C.Port>, ports: seq<C.Port>, clusters: seq<seq<Id>>,
                           i: nat, n: nat)
    requires i <= |clusters| && ClustersOldestFirst(VertsOf(tetras), clusters)
  {
    && OnlyAssigned(ports0, ports)
    && (forall j :: 0 <= j < i ==> clusters[j] in clusters && Settled(tetras, ports, clusters[j][0]))
    && (forall u :: C.OwnsPort(ports, u) ==> C.OwnsPort(ports0, u) || OwnedByEarlier(clusters, i, u))
    && n == |HandedOut(ports0, ports)| && OneEach(tetras, ports0, ports)
    && (AllSettled(tetras, ports0) ==> n == 0)
    && (C.OwnersSound(ports0, tetras.Keys) ==> C.OwnersSound(ports, tetras.Keys))
  }

  ghost predicate OwnedByEarlier(clusters: seq<seq<Id>>, i: nat, u: Id) {
    exists j :: 0 <= j < i && j < |clusters| && u in Elems(clusters[j])
  }

  lemma PassStarts(tetras: map<Id, Tetra>, ports: seq<C.Port>, clusters: seq<seq<Id>>)
    requires ClustersOldestFirst(VertsOf(tetras), clusters)
    ensures Progress(tetras, ports, ports, clusters, 0, 0)
  {
    hide C.OwnersSound, AllSettled, ClustersOldestFirst;
    assert HandedOut(ports, ports) == {};
  }

  /** A cluster that is settled as it is. */
  lemma NextIsSettled(tetras: map<Id, Tetra>, ports0: seq<C.Port>, ports: seq<C.Port>, clusters: seq<seq<Id>>, i: nat,
                      n: nat)
    requires ClustersOldestFirst(VertsOf(tetras), clusters) && i < |clusters| && clusters[i] in clusters
    requires Progress(tetras, ports0, ports, clusters, i, n) && Settled(tetras, ports, clusters[i][0])
    ensures Progress(tetras, ports0, ports, clusters, i + 1, n)
  {
    hide C.OwnersSound, AllSettled, ClustersOldestFirst, Settled, OnlyAssigned, Elems, HandedOut, OneEach;
    forall u | C.OwnsPort(ports, u) ensures C.OwnsPort(ports0, u) || OwnedByEarlier(clusters, i + 1, u) {
      if !C.OwnsPort(ports0, u) {
        var j :| 0 <= j < i && j < |clusters| && u in Elems(clusters[j]);
      }
    }
  }

  /** A cluster that was given a port. */
  lemma NextIsSeeded(tetras: map<Id, Tetra>, ports0: seq<C.Port>, before: seq<C.Port>, after: seq<C.Port>,
                     clusters: seq<seq<Id>>, i: nat, n: nat)
    requires ClustersOldestFirst(VertsOf(tetras), clusters) && i < |clusters|
    requires IsComponent(VertsOf(tetras), clusters[i])
    requires Progress(tetras, ports0, before, clusters, i, n) && C.StatusMatchesOwner(before)
    requires Seeded(before, after, ComponentOf(VertsOf(tetras), clusters[i][0]))
    requires forall u :: u in ComponentOf(VertsOf(tetras), clusters[i][0]) ==> !C.OwnsPort(before, u)
    requires !AllSettled(tetras, ports0) && !HasPort(VertsOf(tetras), ports0, clusters[i][0])
    ensures Progress(tetras, ports0, after, clusters, i + 1, n + 1)
  {
    hide HasPort, OneEach;
    hide C.OwnersSound, AllSettled, ClustersOldestFirst, Settled, OnlyAssigned, IsComponent, ComponentOf, HandedOut,
      Seeded,
      C.StatusMatchesOwner;
    var cluster := clusters[i];
    forall j | 0 <= j < |clusters| ensures clusters[j] in clusters && clusters[j] != [] && clusters[j][0] in tetras {
      MemberIsKnown(tetras, clusters, j);
    }
    SeededEffects(tetras, before, after, cluster);
    OnlyAssignedTransitive(ports0, before, after);
    HandedOutOneMore(ports0, before, after, ComponentOf(VertsOf(tetras), cluster[0]));
    OneEachOneMore(tetras, ports0, before, after, cluster[0]);
    forall j | 0 <= j < i + 1 ensures clusters[j] in clusters && Settled(tetras, after, clusters[j][0]) {
      if j < i {
        AssigningKeepsSettled(tetras, before, after, clusters[j][0]);
      }
    }
    forall u | C.OwnsPort(after, u) ensures C.OwnsPort(ports0, u) || OwnedByEarlier(clusters, i + 1, u) {
      if C.OwnsPort(before, u) && !C.OwnsPort(ports0, u) {
        var j :| 0 <= j < i && j < |clusters| && u in Elems(clusters[j]);
      }
    }
  }

  lemma MemberIsKnown(tetras: map<Id, Tetra>, clusters: seq<seq<Id>>, j: nat)
    requires ClustersOldestFirst(VertsOf(tetras), clusters) && j < |clusters|
    ensures clusters[j] in clusters && clusters[j] != [] && clusters[j][0] in tetras
    ensures IsComponent(VertsOf(tetras), clusters[j]) && Least(VertsOf(tetras), clusters[j][0])
  {
    hide ComponentOf;
    assert clusters[j] in clusters;
  }

  lemma HandedOutOneMore(ports0: seq<C.Port>, before: seq<C.Port>, after: seq<C.Port>, members: set<Id>)
    requires OnlyAssigned(ports0, before) && Seeded(before, after, members)
    ensures |HandedOut(ports0, after)| == |HandedOut(ports0, before)| + 1
  {
    var k: nat, u :| k < |before| && before[k].IsFree() && u in members && after == before[k := before[k].Assign(u)];
    assert before[k] == ports0[k];
    ChangedOneMore(ports0, before, after, k);
  }

  /** The newly seeded cluster had no port, so none of the earlier owners is in it. */
  lemma OneEachOneMore(tetras: map<Id, Tetra>, ports0: seq<C.Port>, before: seq<C.Port>, after: seq<C.Port>, root: Id)
    requires OnlyAssigned(ports0, before) && OneEach(tetras, ports0, before)
    requires Seeded(before, after, ComponentOf(VertsOf(tetras), root)) && !HasPort(VertsOf(tetras), ports0, root)
    requires forall u :: u in ComponentOf(VertsOf(tetras), root) ==> !C.OwnsPort(before, u)
    ensures OneEach(tetras, ports0, after)
  {
    var tv := VertsOf(tetras);
    var k: nat, u :| k < |before| && before[k].IsFree() && u in ComponentOf(tv, root)
      && after == before[k := before[k].Assign(u)];
    SameComponent(tv, root, u);
    SamePorts(tv, ports0, root, u);
    hide ComponentOf, HasPort;
    forall j | j in HandedOut(ports0, after) && j != k ensures j in HandedOut(ports0, before) && after[j] == before[j] {
    }
    forall j | j in HandedOut(ports0, before) && j != k && before[j].owner.Some?
      ensures before[j].owner.value !in ComponentOf(tv, u) && u !in ComponentOf(tv, before[j].owner.value)
    {
      var w := before[j].owner.value;
      assert C.OwnsPort(before, w);
      if u in ComponentOf(tv, w) {
        MembersShare(tv, w, u);
      }
    }
  }

  lemma MembersShare(tv: TetraVerts, a: Id, b: Id)
    requires a in tv && b in ComponentOf(tv, a)
    ensures a in ComponentOf(tv, b)
  {
    hide Connected;
    SameComponent(tv, a, b);
    ConnectedToItself(tv, a);
  }

  lemma SameComponent(tv: TetraVerts, a: Id, b: Id)
    requires b in ComponentOf(tv, a)
    ensures b in tv && ComponentOf(tv, a) == ComponentOf(tv, b)
  {
    hide Connected;
    ConnectedShareComponent(tv, a, b);
  }

  lemma SamePorts(tv: TetraVerts, ports: seq<C.Port>, a: Id, b: Id)
    requires ComponentOf(tv, a) == ComponentOf(tv, b)
    ensures HasPort(tv, ports, a) <==> HasPort(tv, ports, b)
  {
    hide ComponentOf;
  }

  lemma ChangedOneMore(ports0: seq<C.Port>, before: seq<C.Port>, after: seq<C.Port>, k: nat)
    requires k < |before| == |after| == |ports0| && before[k] == ports0[k] && after[k] != ports0[k]
    requires forall j :: 0 <= j < |before| && j != k ==> after[j] == before[j]
    ensures |HandedOut(ports0, after)| == |HandedOut(ports0, before)| + 1
  {
    assert k !in HandedOut(ports0, before);
    assert HandedOut(ports0, after) == HandedOut(ports0, before) + {k};
  }

  // ---- A whole pass, turn by turn --------------------------------------------------------------------

  /** The turn of one cluster: nothing happens if it had a port before the pass or nothing in its reach is free. */
  ghost predicate Turn(tetras: map<Id, Tetra>, ports0: seq<C.Port>, before: seq<C.Port>, after: seq<C.Port>, root: Id)
    requires root in tetras
  {
    var tv := VertsOf(tetras);
    if HasPort(tv, ports0, root) || (NoFreeContact(tv, before, root) && NoFreeLayerPort(tetras, before, root))
    then after == before
    else SeededBy(tetras, before, after, root)
  }

  /** The clusters take their turns in the order of their oldest members. */
  ghost predicate IsPass(tetras: map<Id, Tetra>, roots: seq<Id>, turns: seq<seq<C.Port>>) {
    && |turns| == |roots| + 1
    && Increasing(roots) && (forall r :: r in roots <==> Least(VertsOf(tetras), r))
    && forall i :: 0 <= i < |roots| ==>
       roots[i] in tetras && Turn(tetras, turns[0], turns[i], turns[i + 1], roots[i])
  }

  ghost predicate Passed(tetras: map<Id, Tetra>, before: seq<C.Port>, after: seq<C.Port>) {
    exists roots: seq<Id>, turns: seq<seq<C.Port>> ::
      IsPass(tetras, roots, turns) && turns[0] == before && turns[|roots|] == after
  }

  /** The result of a pass is determined, whatever the order in which anything is iterated. */
  lemma PassIsUnique(tetras: map<Id, Tetra>, before: seq<C.Port>, a: seq<C.Port>, b: seq<C.Port>)
    requires C.DistinctIds(before) && Passed(tetras, before, a) && Passed(tetras, before, b)
    ensures a == b
  {
    hide Turn, Least, C.DistinctIds;
    var roots: seq<Id>, turns: seq<seq<C.Port>> :|
      IsPass(tetras, roots, turns) && turns[0] == before && turns[|roots|] == a;
    var others: seq<Id>, turns': seq<seq<C.Port>> :|
      IsPass(tetras, others, turns') && turns'[0] == before && turns'[|others|] == b;
    assert Elems(roots) == Elems(others) by {
      assert forall r: Id :: r in roots <==> r in others;
    }
    IncreasingIsDeterminedByElems(roots, others);
    SameTurns(tetras, roots, turns, turns', |roots|);
  }

  lemma {:induction false} SameTurns(tetras: map<Id, Tetra>, roots: seq<Id>, a: seq<seq<C.Port>>, b: seq<seq<C.Port>>,
                                     n: nat)
    requires IsPass(tetras, roots, a) && IsPass(tetras, roots, b) && a[0] == b[0] && C.DistinctIds(a[0]) && n <= |roots|
    ensures a[n] == b[n] && C.DistinctIds(a[n])
  {
    hide Turn, Least, C.DistinctIds, Increasing;
    if n > 0 {
      SameTurns(tetras, roots, a, b, n - 1);
      assert Turn(tetras, a[0], a[n - 1], a[n - 1 + 1], roots[n - 1]);
      assert Turn(tetras, b[0], b[n - 1], b[n - 1 + 1], roots[n - 1]);
      TurnIsUnique(tetras, a[0], a[n - 1], a[n], b[n], roots[n - 1]);
    }
  }

  lemma TurnIsUnique(tetras: map<Id, Tetra>, ports0: seq<C.Port>, before: seq<C.Port>, a: seq<C.Port>, b: seq<C.Port>,
                     root: Id)
    requires root in tetras && C.DistinctIds(before)
    requires Turn(tetras, ports0, before, a, root) && Turn(tetras, ports0, before, b, root)
    ensures a == b && C.DistinctIds(a)
  {
    hide NoFreeContact, NoFreeLayerPort, HasPort, SeededBy, C.DistinctIds;
    if SeededBy(tetras, before, a, root) && SeededBy(tetras, before, b, root) {
      SeedingIsUnique(tetras, before, a, b, root);
      SeedingKeepsIds(tetras, before, a, root);
    }
  }

  lemma SeedingKeepsIds(tetras: map<Id, Tetra>, before: seq<C.Port>, after: seq<C.Port>, root: Id)
    requires root in tetras && C.DistinctIds(before) && SeededBy(tetras, before, after, root)
    ensures C.DistinctIds(after)
  {
    hide LeastContact, FirstOfLayer, NoFreeContact;
  }

  /** A port that no member of the cluster touches is handed out only when none that they touch was free at its turn. */
  lemma UntouchedOnlyAsFallback(tetras: map<Id, Tetra>, roots: seq<Id>, turns: seq<seq<C.Port>>, i: nat, k: nat)
    requires IsPass(tetras, roots, turns) && i < |roots| && k < |turns[i]| == |turns[i + 1]|
    requires turns[i + 1][k] != turns[i][k]
    requires forall u :: u in ComponentOf(VertsOf(tetras), roots[i]) && u in tetras ==>
      turns[i][k].id !in tetras[u].vertexIds
    ensures NoFreeContact(VertsOf(tetras), turns[i], roots[i])
    ensures turns[i + 1][k].owner == Some(roots[i]) && FirstOfLayer(tetras, turns[i], roots[i], k)
  {
    hide ComponentOf, LayerForZ, FirstOfLayer, HasPort, NoFreeLayerPort;
    assert Turn(tetras, turns[0], turns[i], turns[i + 1], roots[i]);
  }

  /** The turns of the first `i` clusters. */
  ghost predicate PassSoFar(tetras: map<Id, Tetra>, ports0: seq<C.Port>, clusters: seq<seq<Id>>,
                            turns: seq<seq<C.Port>>, i: nat) {
    && |turns| == i + 1 && i <= |clusters| && turns[0] == ports0
    && forall j :: 0 <= j < i ==>
       FirstOf(clusters[j]) in tetras && Turn(tetras, ports0, turns[j], turns[j + 1], FirstOf(clusters[j]))
  }

  lemma PassBegins(tetras: map<Id, Tetra>, ports0: seq<C.Port>, clusters: seq<seq<Id>>)
    ensures PassSoFar(tetras, ports0, clusters, [ports0], 0)
  {
  }

  lemma TurnTaken(tetras: map<Id, Tetra>, ports0: seq<C.Port>, before: seq<C.Port>, after: seq<C.Port>, root: Id,
                  hasPort: bool, ok: bool)
    requires root in tetras && (hasPort <==> HasPort(VertsOf(tetras), ports0, root))
    requires hasPort ==> !ok
    requires if ok then SeededBy(tetras, before, after, root) else after == before
    requires !hasPort ==>
      (ok <==> !(NoFreeContact(VertsOf(tetras), before, root) && NoFreeLayerPort(tetras, before, root)))
    ensures Turn(tetras, ports0, before, after, root)
  {
  }

  lemma PassOneMore(tetras: map<Id, Tetra>, ports0: seq<C.Port>, clusters: seq<seq<Id>>, turns: seq<seq<C.Port>>,
                    i: nat, after: seq<C.Port>)
    returns (longer: seq<seq<C.Port>>)
    requires PassSoFar(tetras, ports0, clusters, turns, i) && i < |clusters| && clusters[i] != []
    requires clusters[i][0] in tetras
    requires Turn(tetras, ports0, turns[i], after, clusters[i][0])
    ensures longer == turns + [after] && PassSoFar(tetras, ports0, clusters, longer, i + 1)
  {
    hide Turn;
    longer := turns + [after];
  }

  lemma PassIsOver(tetras: map<Id, Tetra>, ports0: seq<C.Port>, clusters: seq<seq<Id>>, turns: seq<seq<C.Port>>)
    requires ClustersOldestFirst(VertsOf(tetras), clusters) && PassSoFar(tetras, ports0, clusters, turns, |clusters|)
    ensures Passed(tetras, ports0, turns[|clusters|])
  {
    hide Turn, Least, IsComponent;
    var roots := seq(|clusters|, i requires 0 <= i < |clusters| => FirstOf(clusters[i]));
    forall r ensures r in roots <==> Least(VertsOf(tetras), r) {
      if r in roots {
        var i :| 0 <= i < |clusters| && FirstOf(clusters[i]) == r;
        MemberIsKnown(tetras, clusters, i);
      }
      if Least(VertsOf(tetras), r) {
        var c: seq<Id> :| c in clusters && FirstOf(c) == r;
        var i :| 0 <= i < |clusters| && clusters[i] == c;
        assert roots[i] == r;
      }
    }
    assert IsPass(tetras, roots, turns);
  }

  /** Seed every cluster that had no port when the pass began. */
  method Reseed(cylinder: C.Cylinder, tetras: map<Id, Tetra>, v2t: VertexTetras) returns (n: nat)
    requires cylinder.Valid() && Inverse(VertsOf(tetras), v2t)
    modifies cylinder
    ensures cylinder.Valid()
    ensures Passed(tetras, old(cylinder.ports), cylinder.ports)
    ensures OnlyAssigned(old(cylinder.ports), cylinder.ports)
    ensures AllSettled(tetras, cylinder.ports)
    ensures n == |HandedOut(old(cylinder.ports), cylinder.ports)|
    ensures OneEach(tetras, old(cylinder.ports), cylinder.ports)
    ensures n == 0 <==> cylinder.ports == old(cylinder.ports)
    ensures AllSettled(tetras, old(cylinder.ports)) ==> n == 0
    ensures C.OwnersSound(old(cylinder.ports), tetras.Keys) ==> C.OwnersSound(cylinder.ports, tetras.Keys)
  {
    hide ComponentOf, C.OwnersSound, C.StatusMatchesOwner, C.DistinctIds, Least, HasPort, NoFreeContact,
      NoFreeLayerPort,
      Seeded, SeededBy, Turn, PassSoFar, Passed, Inverse, OneEach, AllSettled, OnlyAssigned, Progress,
        ClustersOldestFirst, IsComponent, HandedOut, Elems;
    var tv := VertsOf(tetras);
    ghost var ports0 := cylinder.ports;
    var connected := set p | p in cylinder.ports && p.owner.Some? :: p.owner.value;
    var clusters := GatherClusters(tv, v2t);
    n := 0;
    PassStarts(tetras, ports0, clusters);
    ghost var turns := [ports0];
    assert PassSoFar(tetras, ports0, clusters, turns, 0) by { PassBegins(tetras, ports0, clusters); }
    var i := 0;
    while i < |clusters|
      invariant 0 <= i <= |clusters| && cylinder.Valid()
      invariant |turns| == i + 1 && turns[i] == cylinder.ports && PassSoFar(tetras, ports0, clusters, turns, i)
      invariant Progress(tetras, ports0, cylinder.ports, clusters, i, n)
    {
      var cluster := clusters[i];
      ghost var before := cylinder.ports;
      MemberIsKnown(tetras, clusters, i);
      ProgressFacts(tetras, ports0, before, clusters, i, n);
      var hasPort := exists id :: id in cluster && id in connected;
      ConnectedClustersHavePorts(tv, ports0, connected, cluster, hasPort);
      var ok := false;
      if hasPort {
        HasPortIsSettled(tetras, ports0, before, cluster[0]);
      } else {
        PortlessIsUnowned(tetras, ports0, before, clusters, i, n);
        SettledFromTheStart(tetras, ports0, before, cluster[0]);
        ok := SeedCluster(cylinder, tetras, cluster);
      }
      ghost var after := cylinder.ports;
      assert Turn(tetras, ports0, before, after, cluster[0]) by {
        TurnTaken(tetras, ports0, before, after, cluster[0], hasPort, ok);
      }
      turns := PassOneMore(tetras, ports0, clusters, turns, i, after);
      if ok {
        SeededByIsSeeded(tetras, before, after, cluster);
        NextIsSeeded(tetras, ports0, before, cylinder.ports, clusters, i, n);
        n := n + 1;
      } else {
        NextIsSettled(tetras, ports0, before, clusters, i, n);
      }
      i := i + 1;
    }
    PassEnds(tetras, ports0, cylinder.ports, clusters, n);
    PassIsOver(tetras, ports0, clusters, turns);
  }

  lemma ProgressFacts(tetras: map<Id, Tetra>, ports0: seq<C.Port>, ports: seq<C.Port>, clusters: seq<seq<Id>>, i: nat,
                      n: nat)
    requires i <= |clusters| && ClustersOldestFirst(VertsOf(tetras), clusters)
    requires Progress(tetras, ports0, ports, clusters, i, n)
    ensures OnlyAssigned(ports0, ports)
  {
  }

  lemma PortlessIsUnowned(tetras: map<Id, Tetra>, ports0: seq<C.Port>, ports: seq<C.Port>, clusters: seq<seq<Id>>,
                          i: nat, n: nat)
    requires i < |clusters| && ClustersOldestFirst(VertsOf(tetras), clusters)
    requires Progress(tetras, ports0, ports, clusters, i, n)
    requires IsComponent(VertsOf(tetras), clusters[i]) && !HasPort(VertsOf(tetras), ports0, clusters[i][0])
    ensures forall u :: u in ComponentOf(VertsOf(tetras), clusters[i][0]) ==> !C.OwnsPort(ports, u)
  {
    hide IsComponent, HasPort, Settled, OnlyAssigned, AllSettled, C.OwnersSound, HandedOut, OneEach;
    NewOwnersAreElsewhere(VertsOf(tetras), ports0, ports, clusters, i);
  }

  lemma PassEnds(tetras: map<Id, Tetra>, ports0: seq<C.Port>, ports: seq<C.Port>, clusters: seq<seq<Id>>, n: nat)
    requires ClustersOldestFirst(VertsOf(tetras), clusters) && Progress(tetras, ports0, ports, clusters, |clusters|, n)
    ensures OnlyAssigned(ports0, ports) && AllSettled(tetras, ports) && n == |HandedOut(ports0, ports)|
    ensures OneEach(tetras, ports0, ports)
    ensures n == 0 <==> ports == ports0
    ensures AllSettled(tetras, ports0) ==> n == 0
    ensures C.OwnersSound(ports0, tetras.Keys) ==> C.OwnersSound(ports, tetras.Keys)
  {
    hide C.OwnersSound, AllSettled, ClustersOldestFirst, IsComponent, Settled, OneEach;
    forall j | 0 <= j < |clusters| ensures IsComponent(VertsOf(tetras), clusters[j]) {
      MemberIsKnown(tetras, clusters, j);
    }
    SettledClustersAreAll(tetras, ports, clusters);
    if n == 0 {
      assert HandedOut(ports0, ports) == {};
      forall k: nat | k < |ports| ensures ports[k] == ports0[k] {
        assert k !in HandedOut(ports0, ports);
      }
    }
    assert HandedOut(ports0, ports0) == {};
  }

  lemma OnlyAssignedTransitive(a: seq<C.Port>, b: seq<C.Port>, c: seq<C.Port>)
    requires OnlyAssigned(a, b) && OnlyAssigned(b, c)
    ensures OnlyAssigned(a, c)
    ensures a == c ==> a == b
  {
    if a == c {
      assert forall k :: 0 <= k < |a| ==> a[k] == b[k];
    }
  }

  lemma ConnectedClustersHavePorts(tv: TetraVerts, ports: seq<C.Port>, connected: set<Id>, cluster: seq<Id>,
                                   hasPort: bool)
    requires IsComponent(tv, cluster)
    requires connected == set p | p in ports && p.owner.Some? :: p.owner.value
    requires hasPort <==> exists id :: id in cluster && id in connected
    ensures hasPort <==> HasPort(tv, ports, cluster[0])
  {
    hide ComponentOf;
    forall u
      ensures u in connected <==> C.OwnsPort(ports, u)
    {
      if C.OwnsPort(ports, u) {
        var k :| 0 <= k < |ports| && ports[k].owner == Some(u);
        assert ports[k] in ports;
      }
    }
    assert forall u :: u in cluster <==> u in Elems(cluster);
  }

  lemma HasPortIsSettled(tetras: map<Id, Tetra>, ports0: seq<C.Port>, ports: seq<C.Port>, root: Id)
    requires root in tetras && HasPort(VertsOf(tetras), ports0, root)
    requires OnlyAssigned(ports0, ports) && C.StatusMatchesOwner(ports0)
    ensures Settled(tetras, ports, root)
  {
    AssigningKeepsSettled(tetras, ports0, ports, root);
  }

  /** Ports handed out to other clusters do not make this one connected. */
  lemma NewOwnersAreElsewhere(tv: TetraVerts, ports0: seq<C.Port>, ports: seq<C.Port>, clusters: seq<seq<Id>>, i: nat)
    requires i < |clusters| && IsComponent(tv, clusters[i]) && !HasPort(tv, ports0, clusters[i][0])
    requires forall a, b :: 0 <= a < b < |clusters| ==> Elems(clusters[a]) !! Elems(clusters[b])
    requires forall u :: C.OwnsPort(ports, u) ==> C.OwnsPort(ports0, u) || OwnedByEarlier(clusters, i, u)
    ensures forall u :: u in ComponentOf(tv, clusters[i][0]) ==> !C.OwnsPort(ports, u)
  {
    hide ComponentOf;
    forall u | u in ComponentOf(tv, clusters[i][0])
      ensures !C.OwnsPort(ports, u)
    {
      assert u in Elems(clusters[i]);
    }
  }

  lemma SeededEffects(tetras: map<Id, Tetra>, before: seq<C.Port>, after: seq<C.Port>, cluster: seq<Id>)
    requires IsComponent(VertsOf(tetras), cluster) && Seeded(before, after, ComponentOf(VertsOf(tetras), cluster[0]))
    requires forall u :: u in ComponentOf(VertsOf(tetras), cluster[0]) ==> !C.OwnsPort(before, u)
    ensures OnlyAssigned(before, after) && after != before
    ensures Settled(tetras, after, cluster[0])
    ensures forall u :: C.OwnsPort(after, u) ==> C.OwnsPort(before, u) || u in Elems(cluster)
    ensures C.OwnersSound(before, tetras.Keys) ==> C.OwnersSound(after, tetras.Keys)
  {
    hide Connected, NoFreeContact, NoFreeLayerPort;
    var tv := VertsOf(tetras);
    var k, u :| 0 <= k < |before| && before[k].IsFree() && u in ComponentOf(tv, cluster[0])
      && after == before[k := before[k].Assign(u)];
    assert after[k].owner == Some(u) && before[k].owner != Some(u);
    assert C.OwnsPort(after, u);
    if C.OwnersSound(before, tetras.Keys) {
      C.AssigningKeepsOwnersExactly(before, tetras.Keys, k, u);
    }
    forall w: Id | C.OwnsPort(after, w)
      ensures C.OwnsPort(before, w) || w in Elems(cluster)
    {
      var j :| 0 <= j < |after| && after[j].owner == Some(w);
      if j != k {
        assert before[j].owner == Some(w);
      }
    }
  }

  /** If everything was settled when the pass began, a portless cluster has nothing free in reach. */
  lemma SettledFromTheStart(tetras: map<Id, Tetra>, ports0: seq<C.Port>, ports: seq<C.Port>, root: Id)
    requires root in tetras && Least(VertsOf(tetras), root) && !HasPort(VertsOf(tetras), ports0, root)
    requires OnlyAssigned(ports0, ports)
    ensures AllSettled(tetras, ports0) ==>
      NoFreeContact(VertsOf(tetras), ports, root) && NoFreeLayerPort(tetras, ports, root)
  {
    hide ComponentOf, LayerForZ, Least, HasPort;
    if AllSettled(tetras, ports0) {
      assert Settled(tetras, ports0, root);
    }
  }

  lemma SettledClustersAreAll(tetras: map<Id, Tetra>, ports: seq<C.Port>, clusters: seq<seq<Id>>)
    requires ClustersOldestFirst(VertsOf(tetras), clusters)
    requires forall j :: 0 <= j < |clusters| ==>
      IsComponent(VertsOf(tetras), clusters[j]) && Settled(tetras, ports, clusters[j][0])
    ensures AllSettled(tetras, ports)
  {
    hide Settled, Least, IsComponent, Elems, VertsOf;
    forall root | root in tetras && Least(VertsOf(tetras), root)
      ensures Settled(tetras, ports, root)
    {
      var c: seq<Id> :| c in clusters && FirstOf(c) == root;
      var j :| 0 <= j < |clusters| && clusters[j] == c;
      ComponentHasFirst(VertsOf(tetras), clusters[j]);
    }
  }
}
