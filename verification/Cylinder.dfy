/** The ports of the cylinder: fixed vertices that a tetrahedron may own. */
module Cylinder {
  import opened Prelude
  import opened Geometry

  datatype Layer = Instinct | Relation | Cognitive | Service | Cycle | Identity

  function HasPorts(l: Layer): bool {
    l != Identity
  }

  datatype PortStatus = Free | Occupied | Broken

  datatype Port = Port(id: Id, position: Point3, layer: Layer, owner: Option<Id>, status: PortStatus) {
    predicate IsFree() { status == Free }
    function Assign(t: Id): Port { this.(owner := Some(t), status := Occupied) }
    function Release(): Port { this.(owner := None, status := Free) }
  }

  /** The owner recorded for a port that an unfinished placement has reserved. */
  const PORT_RESERVATION_OWNER: Id := U64_MAX

  function PortIds(ports: seq<Port>): set<Id> {
    set p | p in ports :: p.id
  }

  ghost predicate DistinctIds(ports: seq<Port>) {
    forall i, j :: 0 <= i < j < |ports| ==> ports[i].id != ports[j].id
  }

  /** A free port has no owner and an occupied one has. */
  ghost predicate StatusMatchesOwner(ports: seq<Port>) {
    forall p :: p in ports ==> (p.status == Occupied <==> p.owner.Some?)
  }

  /** The same ports with the same geometry; only ownership may differ. */
  ghost predicate SameGeometry(a: seq<Port>, b: seq<Port>) {
    |a| == |b| && forall i :: 0 <= i < |a| ==>
      a[i].id == b[i].id && a[i].position == b[i].position && a[i].layer == b[i].layer
  }

  lemma SameGeometrySameIds(ports: seq<Port>, ports': seq<Port>)
    requires SameGeometry(ports, ports')
    ensures PortIds(ports) == PortIds(ports')
  {
    forall v | v in PortIds(ports)
      ensures v in PortIds(ports')
    {
      var i :| 0 <= i < |ports| && ports[i].id == v;
      assert ports'[i] in ports';
    }
    forall v | v in PortIds(ports')
      ensures v in PortIds(ports)
    {
      var i :| 0 <= i < |ports| && ports'[i].id == v;
      assert ports[i] in ports;
    }
  }

  function IndexOfOwner(ports: seq<Port>, t: Id): (i: nat)
    ensures i <= |ports|
    ensures i < |ports| ==> ports[i].owner == Some(t)
    ensures forall j :: 0 <= j < i ==> ports[j].owner != Some(t)
  {
    FirstIndex(ports, (p: Port) => p.owner == Some(t))
  }

  function IndexOfPort(ports: seq<Port>, id: Id): (i: nat)
    ensures i <= |ports|
    ensures i < |ports| ==> ports[i].id == id
    ensures forall j :: 0 <= j < i ==> ports[j].id != id
  {
    FirstIndex(ports, (p: Port) => p.id == id)
  }

  lemma PortsAreFoundById(ports: seq<Port>, i: nat)
    requires DistinctIds(ports) && i < |ports|
    ensures IndexOfPort(ports, ports[i].id) == i
  {
    var j := IndexOfPort(ports, ports[i].id);
    assert j <= i;
    assert ports[j].id == ports[i].id;
  }

  function IndexOfFree(ports: seq<Port>, l: Layer): (i: nat)
    ensures i <= |ports|
    ensures i < |ports| ==> ports[i].layer == l && ports[i].IsFree()
    ensures forall j :: 0 <= j < i ==> !(ports[j].layer == l && ports[j].IsFree())
  {
    FirstIndex(ports, (p: Port) => p.layer == l && p.IsFree())
  }

  predicate OwnsPort(ports: seq<Port>, t: Id) {
    exists i :: 0 <= i < |ports| && ports[i].owner == Some(t)
  }

  lemma OwnedIsOccupied(ports: seq<Port>, i: nat)
    requires StatusMatchesOwner(ports) && i < |ports| && ports[i].owner.Some?
    ensures forall t :: ports[i].(owner := Some(t)) == ports[i].Assign(t)
  {
    assert ports[i] in ports;
  }

  /** Each tetrahedron owns at most one port, and every owner other than the reservation mark is live. */
  ghost predicate OwnersSound(ports: seq<Port>, live: set<Id>) {
    && (forall i, j :: 0 <= i < j < |ports| && ports[i].owner.Some? && ports[i].owner == ports[j].owner
          ==> ports[i].owner.value == PORT_RESERVATION_OWNER)
    && (forall i :: 0 <= i < |ports| && ports[i].owner.Some?
          ==> ports[i].owner.value in live || ports[i].owner.value == PORT_RESERVATION_OWNER)
  }

  /** The reservation mark may hold any number of ports; a live tetrahedron may take one while it has none. */
  predicate MayTake(ports: seq<Port>, live: set<Id>, t: Id) {
    t == PORT_RESERVATION_OWNER || (t in live && !OwnsPort(ports, t))
  }

  /** The ports after the first one that `t` owns, if any, is freed. */
  function Released(ports: seq<Port>, t: Id): seq<Port> {
    var i := IndexOfOwner(ports, t);
    if i < |ports| then ports[i := ports[i].Release()] else ports
  }

  predicate CanAssign(ports: seq<Port>, id: Id) {
    var i := IndexOfPort(ports, id);
    i < |ports| && ports[i].IsFree()
  }

  /** The ports after port `id`, when it is free, is given to `t`. */
  function AssignedTo(ports: seq<Port>, id: Id, t: Id): seq<Port> {
    var i := IndexOfPort(ports, id);
    if CanAssign(ports, id) then ports[i := ports[i].Assign(t)] else ports
  }

  /**
   * Giving port `i` to `t` keeps the owners sound exactly when `t` is the reservation mark, or live and portless
   * elsewhere.
   */
  lemma AssigningKeepsOwnersExactly(ports: seq<Port>, live: set<Id>, i: nat, t: Id)
    requires OwnersSound(ports, live) && i < |ports|
    ensures OwnersSound(ports[i := ports[i].Assign(t)], live)
       <==> t == PORT_RESERVATION_OWNER
            || (t in live && forall j :: 0 <= j < |ports| && j != i ==> ports[j].owner != Some(t))
  {
    var after := ports[i := ports[i].Assign(t)];
    if OwnersSound(after, live) && t != PORT_RESERVATION_OWNER {
      assert after[i].owner == Some(t);
      forall j | 0 <= j < |ports| && j != i
        ensures ports[j].owner != Some(t)
      {
        assert after[j] == ports[j];
        if j < i {
          assert after[j].owner == after[i].owner ==> false;
        } else {
          assert after[i].owner == after[j].owner ==> false;
        }
      }
    }
  }

  lemma ReleasingKeepsOwners(ports: seq<Port>, live: set<Id>, i: nat)
    requires OwnersSound(ports, live) && i < |ports|
    ensures OwnersSound(ports[i := ports[i].Release()], live)
  {
  }

  // ---- The initial layout ----------------------------------------------------------------

  const FIRST_PORT_ID: nat := 1_000_000
  const PORTS_PER_RING: nat := 8
  const RINGS_PER_LAYER: nat := 2
  const LAYER_HEIGHT: real := 2.0
  const RADIUS: real := 2.0
  /** The radius times the cosine of an eighth of a turn. */
  const DIAGONAL: real := 1.4142135623730951

  function RingX(i: nat): real {
    if i == 0 then RADIUS else if i == 1 || i == 7 then DIAGONAL else if i == 2 || i == 6 then 0.0
    else if i == 3 || i == 5 then -DIAGONAL else -RADIUS
  }

  function RingY(i: nat): real {
    if i == 0 || i == 4 then 0.0 else if i == 1 || i == 3 then DIAGONAL else if i == 2 then RADIUS
    else if i == 6 then -RADIUS else -DIAGONAL
  }

  /** Layers from the bottom; the last one has no ports. */
  function LayerAt(i: nat): Layer {
    if i == 0 then Instinct else if i == 1 then Relation else if i == 2 then Cognitive
    else if i == 3 then Service else if i == 4 then Cycle else Identity
  }

  function InitialPort(k: nat): Port
    requires k < 80
  {
    var ring, i := k / PORTS_PER_RING, k % PORTS_PER_RING;
    Port(FIRST_PORT_ID + k, Point3(RingX(i), RingY(i), ring as real + 0.5), LayerAt(ring / RINGS_PER_LAYER), None, Free)
  }

  /** Ten rings of eight ports, two rings for each layer that has ports. */
  function InitialLayout(): seq<Port> {
    seq(80, k requires 0 <= k < 80 => InitialPort(k))
  }

  lemma RingPortsStayApart(i: nat, j: nat)
    requires i < j < 8
    ensures var dx, dy := RingX(i) - RingX(j), RingY(i) - RingY(j); dx * dx + dy * dy >= 1.0
  {
  }

  /** The ports the space starts with are free, and no two of them can merge. */
  lemma InitialLayoutIsUsable()
    ensures DistinctIds(InitialLayout()) && forall p :: p in InitialLayout() ==> p.owner == None && p.status == Free
    ensures forall i, j :: 0 <= i < j < |InitialLayout()| ==>
      !Near(InitialLayout()[i].position, InitialLayout()[j].position)
  {
    hide RingX, RingY, Near;
    var l := InitialLayout();
    forall i, j | 0 <= i < j < |l|
      ensures !Near(l[i].position, l[j].position)
    {
      InitialPortsStayApart(i, j);
    }
  }

  lemma InitialPortsStayApart(i: nat, j: nat)
    requires i < j < 80
    ensures !Near(InitialPort(i).position, InitialPort(j).position)
  {
    hide RingX, RingY;
    var p, q := InitialPort(i).position, InitialPort(j).position;
    if i / 8 == j / 8 {
      RingPortsStayApart(i % 8, j % 8);
      FarApart(p, q, 0.0);
    } else {
      var d := (j / 8 - i / 8) as real;
      assert p.z - q.z == -d && d >= 1.0;
      assert d * d >= 1.0;
      assert (-d) * (-d) == d * d;
      FarApart(p, q, -d);
    }
  }

  lemma FarApart(p: Point3, q: Point3, dz: real)
    requires p.z - q.z == dz
    requires dz * dz >= 1.0 || (p.x - q.x) * (p.x - q.x) + (p.y - q.y) * (p.y - q.y) >= 1.0
    ensures !Near(p, q)
  {
    SquaresAreNonNegative(p.x - q.x);
    SquaresAreNonNegative(p.y - q.y);
    SquaresAreNonNegative(dz);
  }

  class Cylinder {
    var ports: seq<Port>

    ghost predicate Valid()
      reads this
    {
      DistinctIds(ports) && StatusMatchesOwner(ports)
    }

    constructor (layout: seq<Port>)
      requires DistinctIds(layout) && forall p :: p in layout ==> p.owner == None && p.status == Free
      ensures ports == layout && Valid()
    {
      ports := layout;
    }

    /** The identifier of the first port that `t` owns. */
    function FindPortForTetra(t: Id): (r: Option<Id>)
      reads this
      ensures r.Some? <==> OwnsPort(ports, t)
      ensures r.Some? ==> IndexOfOwner(ports, t) < |ports| && ports[IndexOfOwner(ports, t)].id == r.value
    {
      var i := IndexOfOwner(ports, t);
      if i < |ports| then Some(ports[i].id) else None
    }

    method AssignPort(l: Layer, t: Id) returns (r: Option<Id>)
      requires Valid()
      modifies this
      ensures Valid()
      ensures var i := IndexOfFree(old(ports), l);
        if i < |old(ports)| then
          r == Some(old(ports)[i].id) && ports == old(ports)[i := old(ports)[i].Assign(t)]
        else
          r == None && ports == old(ports)
    {
      var i := IndexOfFree(ports, l);
      if i < |ports| {
        r := Some(ports[i].id);
        ports := ports[i := ports[i].Assign(t)];
      } else {
        r := None;
      }
    }

    /** Free the first port that `t` owns. */
    method ReleasePort(t: Id)
      requires Valid()
      modifies this
      ensures Valid()
      ensures ports == Released(old(ports), t)
    {
      var i := IndexOfOwner(ports, t);
      if i < |ports| {
        ports := ports[i := ports[i].Release()];
      }
    }

    /** Hand the first port of one owner to another. */
    method ReassignPort(oldOwner: Id, newOwner: Id) returns (ok: bool)
      requires Valid()
      modifies this
      ensures Valid()
      ensures ok <==> old(OwnsPort(ports, oldOwner))
      ensures var i := IndexOfOwner(old(ports), oldOwner);
        ports == if ok && i < |old(ports)| then old(ports)[i := old(ports)[i].(owner := Some(newOwner))] else old(ports)
    {
      var i := IndexOfOwner(ports, oldOwner);
      if i < |ports| {
        assert ports[i] in ports;
        ports := ports[i := ports[i].(owner := Some(newOwner))];
        ok := true;
      } else {
        ok := false;
      }
    }

    /** Transfer exactly the port `id`, and only from the expected owner. */
    method ReassignSpecificPort(id: Id, expected: Id, t: Id) returns (ok: bool)
      requires Valid()
      modifies this
      ensures Valid()
      ensures var i := IndexOfPort(old(ports), id);
        && (ok <==> i < |old(ports)| && old(ports)[i].owner == Some(expected))
        && ports == if ok && i < |old(ports)| then old(ports)[i := old(ports)[i].Assign(t)] else old(ports)
    {
      var i := IndexOfPort(ports, id);
      if i == |ports| {
        return false;
      }
      assert ports[i] in ports;
      if ports[i].status != Occupied || ports[i].owner != Some(expected) {
        return false;
      }
      ports := ports[i := ports[i].Assign(t)];
      ok := true;
    }

    /** Release exactly the port `id`, and only for the expected owner. */
    method ReleaseSpecificPort(id: Id, expected: Id) returns (ok: bool)
      requires Valid()
      modifies this
      ensures Valid()
      ensures var i := IndexOfPort(old(ports), id);
        && (ok <==> i < |old(ports)| && old(ports)[i].owner == Some(expected))
        && ports == if ok && i < |old(ports)| then old(ports)[i := old(ports)[i].Release()] else old(ports)
    {
      var i := IndexOfPort(ports, id);
      if i == |ports| {
        return false;
      }
      assert ports[i] in ports;
      if ports[i].status != Occupied || ports[i].owner != Some(expected) {
        return false;
      }
      ports := ports[i := ports[i].Release()];
      ok := true;
    }

    method AssignSpecificPort(id: Id, t: Id) returns (ok: bool)
      requires Valid()
      modifies this
      ensures Valid()
      ensures ports == AssignedTo(old(ports), id, t)
      ensures ok <==> CanAssign(old(ports), id)
    {
      var i := IndexOfPort(ports, id);
      if i == |ports| {
        return false;
      }
      if !ports[i].IsFree() {
        return false;
      }
      ports := ports[i := ports[i].Assign(t)];
      ok := true;
    }
  }
}
