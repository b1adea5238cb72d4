/** Recovering which tetrahedron holds which port from the corners, after a restart. */
module Anchoring {
  import opened Prelude
  import opened Geometry
  import opened Topology
  import C = Cylinder

  /** The first corner that is a port. */
  function FirstPort(portIds: set<Id>, vids: seq<Id>): (r: Option<Id>)
    ensures r.Some? ==> r.value in portIds
    ensures r.Some? ==>
      exists i :: 0 <= i < |vids| && vids[i] == r.value && forall j :: 0 <= j < i ==> vids[j] !in portIds
    ensures r.None? ==> forall v :: v in vids ==> v !in portIds
  {
    var i := FirstIndex(vids, v => v in portIds);
    if i == |vids| then None else Some(vids[i])
  }

  predicate AnchorsAt(tetras: map<Id, Tetra>, portIds: set<Id>, t: Id, port: Id) {
    t in tetras && FirstPort(portIds, tetras[t].vertexIds) == Some(port)
  }

  /** The ports that are the first port of some tetrahedron. */
  ghost function AnchorPorts(tetras: map<Id, Tetra>, portIds: set<Id>): set<Id> {
    set t, p | t in tetras && p in portIds && AnchorsAt(tetras, portIds, t, p) :: p
  }

  /** Exactly the free ports that are the first port of some tetrahedron are given to one of those. */
  ghost predicate Reanchored(tetras: map<Id, Tetra>, before: seq<C.Port>, after: seq<C.Port>) {
    var portIds := C.PortIds(before);
    && |after| == |before|
    && forall k :: 0 <= k < |before| ==>
         if before[k].IsFree() && before[k].id in AnchorPorts(tetras, portIds)
         then exists t :: AnchorsAt(tetras, portIds, t, before[k].id) && after[k] == before[k].Assign(t)
         else after[k] == before[k]
  }

  /** For each port the tetrahedron that comes first, in an arbitrary order, among those whose first port it is. */
  method ChooseAnchors(portIds: set<Id>, tetras: map<Id, Tetra>) returns (chosen: map<Id, Id>)
    ensures chosen.Keys == AnchorPorts(tetras, portIds)
    ensures forall p :: p in chosen ==> AnchorsAt(tetras, portIds, chosen[p], p)
  {
    hide FirstPort;
    chosen := map[];
    var todo := tetras.Keys;
    while todo != {}
      invariant todo <= tetras.Keys
      invariant forall p :: p in chosen ==> p in portIds && AnchorsAt(tetras, portIds, chosen[p], p)
      invariant forall t, p :: t in tetras && t !in todo && AnchorsAt(tetras, portIds, t, p) ==> p in chosen
      decreases |todo|
    {
      var t :| t in todo;
      var first := FirstPort(portIds, tetras[t].vertexIds);
      if first.Some? && first.value !in chosen {
        FirstPortIsPort(portIds, tetras[t].vertexIds);
        chosen := chosen[first.value := t];
      }
      todo := todo - {t};
    }
  }

  lemma FirstPortIsPort(portIds: set<Id>, vids: seq<Id>)
    requires FirstPort(portIds, vids).Some?
    ensures FirstPort(portIds, vids).value in portIds
  {
  }

  /** Give every free port to the tetrahedron chosen for it; the answer counts the choices, successful or not. */
  method Rebuild(cylinder: C.Cylinder, tetras: map<Id, Tetra>) returns (n: nat)
    requires cylinder.Valid() && C.PORT_RESERVATION_OWNER !in tetras
    modifies cylinder
    ensures cylinder.Valid()
    ensures n == |AnchorPorts(tetras, C.PortIds(cylinder.ports))|
    ensures Reanchored(tetras, old(cylinder.ports), cylinder.ports)
    ensures C.SameGeometry(old(cylinder.ports), cylinder.ports)
    ensures C.OwnersSound(old(cylinder.ports), tetras.Keys) ==>
      (C.OwnersSound(cylinder.ports, tetras.Keys) <==> !GivesASecondPort(old(cylinder.ports), cylinder.ports))
  {
    hide C.OwnersSound, AnchorsAt, AnchorPorts, C.AssignedTo, C.PortIds, Reanchored, GivesASecondPort;
    ghost var before := cylinder.ports;
    var portIds := set p | p in cylinder.ports :: p.id;
    assert portIds == C.PortIds(before) by { PortIdsAre(before, portIds); }
    var chosen := ChooseAnchors(portIds, tetras);
    var todo := chosen.Keys;
    while todo != {}
      invariant todo <= chosen.Keys && cylinder.Valid()
      invariant Given(before, cylinder.ports, chosen, chosen.Keys - todo)
      decreases |todo|
    {
      var p :| p in todo;
      ghost var now := cylinder.ports;
      var _ := cylinder.AssignSpecificPort(p, chosen[p]);
      GivenOneMore(before, now, chosen, chosen.Keys - todo, p);
      assert chosen.Keys - (todo - {p}) == (chosen.Keys - todo) + {p};
      todo := todo - {p};
    }
    assert chosen.Keys - todo == chosen.Keys;
    n := |chosen|;
    assert n == |chosen.Keys|;
    AllGiven(tetras, before, cylinder.ports, chosen);
    C.SameGeometrySameIds(before, cylinder.ports);
    if C.OwnersSound(before, tetras.Keys) {
      ReanchoringKeepsOwnersExactly(tetras, before, cylinder.ports);
    }
  }

  lemma PortIdsAre(ports: seq<C.Port>, ids: set<Id>)
    requires ids == set p | p in ports :: p.id
    ensures ids == C.PortIds(ports)
  {
  }

  /** The free ports among those in `finished` have been given away as chosen. */
  ghost predicate Given(before: seq<C.Port>, ports: seq<C.Port>, chosen: map<Id, Id>, finished: set<Id>) {
    && |ports| == |before|
    && forall k :: 0 <= k < |before| ==>
         ports[k] == if before[k].IsFree() && before[k].id in finished && before[k].id in chosen
                     then before[k].Assign(chosen[before[k].id]) else before[k]
  }

  lemma GivenOneMore(before: seq<C.Port>, ports: seq<C.Port>, chosen: map<Id, Id>, finished: set<Id>, p: Id)
    requires Given(before, ports, chosen, finished) && C.DistinctIds(ports) && p in chosen && p !in finished
    ensures Given(before, C.AssignedTo(ports, p, chosen[p]), chosen, finished + {p})
  {
    forall k | 0 <= k < |ports| && ports[k].id == p ensures C.IndexOfPort(ports, p) == k {
      C.PortsAreFoundById(ports, k);
    }
  }

  lemma AllGiven(tetras: map<Id, Tetra>, before: seq<C.Port>, after: seq<C.Port>, chosen: map<Id, Id>)
    requires Given(before, after, chosen, chosen.Keys) && chosen.Keys == AnchorPorts(tetras, C.PortIds(before))
    requires forall p :: p in chosen ==> AnchorsAt(tetras, C.PortIds(before), chosen[p], p)
    ensures Reanchored(tetras, before, after) && C.SameGeometry(before, after)
  {
    hide AnchorsAt, AnchorPorts, C.PortIds;
  }

  /** A port went to a tetrahedron that owned another one. */
  ghost predicate GivesASecondPort(before: seq<C.Port>, after: seq<C.Port>) {
    exists k ::
      0 <= k < |before| && k < |after| && after[k] != before[k] && after[k].owner.Some?
      && C.OwnsPort(before, after[k].owner.value)
  }

  /** Each tetrahedron has one first port, so only ports owned from before can make a second one. */
  lemma ReanchoringKeepsOwnersExactly(tetras: map<Id, Tetra>, before: seq<C.Port>, after: seq<C.Port>)
    requires C.OwnersSound(before, tetras.Keys) && C.DistinctIds(before) && C.StatusMatchesOwner(before)
    requires C.PORT_RESERVATION_OWNER !in tetras && Reanchored(tetras, before, after)
    ensures C.OwnersSound(after, tetras.Keys) <==> !GivesASecondPort(before, after)
  {
    hide AnchorPorts, C.PortIds;
    var portIds := C.PortIds(before);
    forall k | 0 <= k < |before| && after[k] != before[k]
      ensures before[k].owner == None && after[k].owner.Some?
      ensures AnchorsAt(tetras, portIds, after[k].owner.value, before[k].id)
    {
      assert before[k] in before;
    }
    if GivesASecondPort(before, after) {
      var k :| 0 <= k < |before| && after[k] != before[k] && after[k].owner.Some?
        && C.OwnsPort(before, after[k].owner.value);
      var j :| 0 <= j < |before| && before[j].owner == after[k].owner;
      assert after[j] == before[j];
      assert !C.OwnersSound(after, tetras.Keys);
    }
  }
}
