/** A run in which a reservation is transferred to a tetrahedron that has got another port meanwhile. */
module PortSchedules {
  import opened Prelude
  import opened Geometry
  import opened VertexIds
  import opened Topology
  import opened Clusters
  import opened SpaceStore
  import opened SpaceRuns
  import C = Cylinder
  import Reseeding
  import Placement

  /** A tetrahedron placed with its first corner on the first port. */
  const CORE: Point3 := Point3(C.RADIUS - 0.5, 0.0, 0.5 + Z_OFFSET)
  const PLACED: Tetra := Tetra(0, [], CORE, NO_PAYLOAD, 1.0)

  predicate OwnsTwo(ports: seq<C.Port>, t: Id) {
    exists i, j :: 0 <= i < j < |ports| && ports[i].owner == Some(t) && ports[j].owner == Some(t)
  }

  /**
   * A port is reserved and a tetrahedron placed at it. Before the reservation is transferred, another client reseeds:
   * the cluster has no port yet, the reservation being held by the mark, and is given one. Then the transfer succeeds.
   */
  method TwoPortsForOne() returns (s: Space, t: Id)
    ensures fresh(s) && fresh(s.cylinder) && s.Valid()
    ensures t in s.topo.tetras && OwnsTwo(s.cylinder.ports, t)
  {
    hide WellFormed, C.OwnersSound, Reseeding.AllSettled, Reseeding.OneEach, Reseeding.OnlyAssigned,
      Reseeding.HandedOut,
      C.InitialLayout, C.InitialPort, C.OwnsPort, C.MayTake, C.IndexOfFree, C.IndexOfPort, Inserted, Stamped,
        ComputeVertices,
      ValidateShape, CounterAfter, OwnsTwo, C.DistinctIds, Near, C.Cylinder.Valid;
    C.InitialLayoutIsUsable();
    LayoutStarts();
    s := new Space(C.InitialLayout());
    ghost var before := s.topo;
    RoomForFour(before, C.InitialLayout(), ComputeVertices(CORE));
    var reserved := s.AssignCylinderPort(C.Instinct, C.PORT_RESERVATION_OWNER);
    ghost var marked := s.cylinder.ports;
    ComputedShapeIsValid(CORE);
    var added := s.AddTetrahedron(PLACED, ComputeVertices(CORE));
    t := added.value;
    TouchesFirstPort(before, C.InitialLayout(), s.topo, t);
    var seeded := s.ReseedPorts();
    GivenAPort(s.topo.tetras, marked, s.cylinder.ports, t);
    ReservedStays(C.InitialLayout(), marked, s.cylinder.ports);
    ghost var ports := s.cylinder.ports;
    var done := s.TransferCylinderPortReservation(reserved.value.0, t);
    TransferMakesTwo(ports, t);
  }

  /** An occupied port is not handed out. */
  lemma ReservedStays(layout: seq<C.Port>, marked: seq<C.Port>, seeded: seq<C.Port>)
    requires |layout| > 0 && layout[0].id == C.FIRST_PORT_ID
    requires marked == layout[0 := layout[0].Assign(C.PORT_RESERVATION_OWNER)]
    requires Reseeding.OnlyAssigned(marked, seeded)
    ensures |seeded| > 0 && seeded[0].owner == Some(C.PORT_RESERVATION_OWNER)
    ensures C.IndexOfPort(seeded, C.FIRST_PORT_ID) == 0
  {
  }

  lemma TransferMakesTwo(ports: seq<C.Port>, t: Id)
    requires |ports| > 0 && ports[0].owner == Some(C.PORT_RESERVATION_OWNER) && C.OwnsPort(ports, t)
    requires t != C.PORT_RESERVATION_OWNER
    ensures OwnsTwo(ports[0 := ports[0].Assign(t)], t)
  {
    var after := ports[0 := ports[0].Assign(t)];
    var j :| 0 <= j < |ports| && ports[j].owner == Some(t);
    assert after[0].owner == Some(t) && after[j].owner == Some(t);
  }

  /** Once that tetrahedron is removed, its second port belongs to nobody and is not free. */
  method APortIsLost() returns (s: Space, t: Id)
    ensures fresh(s) && s.Valid()
    ensures t !in s.topo.tetras && C.OwnsPort(s.cylinder.ports, t)
  {
    hide WellFormed, C.OwnersSound, Stamped, C.IndexOfOwner;
    s, t := TwoPortsForOne();
    ghost var i, j :| 0 <= i < j < |s.cylinder.ports|
      && s.cylinder.ports[i].owner == Some(t) && s.cylinder.ports[j].owner == Some(t);
    var removed := s.RemoveTetrahedron(t);
    assert s.cylinder.ports[i].owner == Some(t) || s.cylinder.ports[j].owner == Some(t);
  }

  /** The first two ports, both of the lowest layer. */
  lemma LayoutStarts()
    ensures var l := C.InitialLayout();
      && |l| == 80 && l[0] == C.InitialPort(0) && l[1] == C.InitialPort(1)
      && C.IndexOfFree(l, C.Instinct) == 0 && C.IndexOfPort(l, C.FIRST_PORT_ID) == 0
      && l[0].id == C.FIRST_PORT_ID && l[0].position == ComputeVertices(CORE)[0]
      && l[1].layer == C.Instinct && l[1].IsFree()
      && forall p :: p in l ==> p.id >= C.FIRST_PORT_ID
  {
    var l := C.InitialLayout();
    assert l[0] == C.InitialPort(0);
  }

  /** Among no tetrahedra, the low identifiers are free for vertices. */
  lemma RoomForFour(t: Topo, ports: seq<C.Port>, ps: seq<Point3>)
    requires WellFormed(t, ports) && t.tetras == map[] && |ps| == 4
    requires forall p :: p in ports ==> p.id >= C.FIRST_PORT_ID
    ensures CounterAfter(t.vertices.Keys, 0, Placement.MissingCount(t.vertices, ps)).Some?
  {
    Placement.MissingCountMonotone(t.vertices, ps, 0);
    PartsOfWellFormed(t, ports);
    LowIdsAreFree(t.vertices.Keys, 0, Placement.MissingCount(t.vertices, ps));
  }

  lemma {:induction false} LowIdsAreFree(used: set<Id>, n: Id, k: nat)
    requires n + k <= C.FIRST_PORT_ID && forall v :: v in used ==> v >= C.FIRST_PORT_ID
    ensures CounterAfter(used, n, k) == Some(n + k)
    decreases k
  {
    if k > 0 {
      assert NextFree(used, n) == Some(n);
      LowIdsAreFree(used, n + 1, k - 1);
    }
  }

  /** The first corner lies on the port, and no other vertex is near enough to merge with. */
  lemma TouchesFirstPort(before: Topo, ports: seq<C.Port>, after: Topo, t: Id)
    requires WellFormed(before, ports) && before.tetras == map[]
    requires |ports| > 0 && ports[0].id == C.FIRST_PORT_ID && ports[0].position == ComputeVertices(CORE)[0]
    requires t in after.tetras && after.tetras[t].id == t
    requires Inserted(before, after, after.tetras[t], ComputeVertices(CORE))
    ensures after.tetras == map[t := after.tetras[t]] && C.FIRST_PORT_ID in after.tetras[t].vertexIds
  {
    hide Near, ComputeVertices;
    var x, p := after.tetras[t], ComputeVertices(CORE)[0];
    assert ports[0] in ports;
    assert C.FIRST_PORT_ID in before.vertices && before.vertices[C.FIRST_PORT_ID] == p;
    assert Near(p, p) by { NearItself(p); }
    assert HasNear(before.vertices, p);
    assert Placement.Merged(before.vertices, p, x.vertexIds[0]);
    assert Near(before.vertices[x.vertexIds[0]], before.vertices[C.FIRST_PORT_ID]);
    assert x.vertexIds[0] == C.FIRST_PORT_ID;
  }

  lemma NearItself(p: Point3)
    ensures Near(p, p)
  {
  }

  /** The only cluster has no port before, so reseeding gives it one: a port of its layer was free. */
  lemma GivenAPort(tetras: map<Id, Tetra>, before: seq<C.Port>, after: seq<C.Port>, t: Id)
    requires t in tetras && tetras.Keys == {t} && tetras[t].core == CORE
    requires |before| > 1 && before[1].layer == C.Instinct && before[1].IsFree()
    requires Reseeding.OnlyAssigned(before, after) && Reseeding.OneEach(tetras, before, after)
    requires Reseeding.AllSettled(tetras, after)
    ensures C.OwnsPort(after, t)
  {
    var tv := Reseeding.VertsOf(tetras);
    hide Connected, Reseeding.OneEach;
    assert Reseeding.Least(tv, t);
    assert Reseeding.Settled(tetras, after, t);
    assert Reseeding.LayerForZ(CORE.z) == Some(C.Instinct);
    if !Reseeding.HasPort(tv, after, t) {
      assert !after[1].IsFree();
      assert 1 in Reseeding.HandedOut(before, after);
      OwnerIsKnown(tetras, before, after, 1);
    }
  }

  lemma OwnerIsKnown(tetras: map<Id, Tetra>, before: seq<C.Port>, after: seq<C.Port>, k: nat)
    requires Reseeding.OneEach(tetras, before, after) && k in Reseeding.HandedOut(before, after)
    ensures after[k].owner.Some? && after[k].owner.value in tetras
  {
  }
}
