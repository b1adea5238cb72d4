/** Whole runs of the space's operations, from the empty space on. */
module SpaceRuns {
  import opened Prelude
  import opened Geometry
  import opened Topology
  import opened SpaceStore
  import C = Cylinder
  import Ops
  import Reseeding
  import Anchoring

  datatype Command =
    | Add(tetra: Tetra, corners: seq<Point3>)
    | AddWithId(tetra: Tetra, corners: seq<Point3>)
    | Remove(id: Id)
    | Relocate(id: Id, core: Point3)
    | Reseed
    | Rebuild
    | AdjustMass(id: Id, delta: real)
    | ReplacePayload(id: Id, payload: Ops.Payload)
    | MergeLabels(id: Id, base: seq<string>, desired: seq<string>)
    | MergeAliases(id: Id, base: seq<string>, desired: seq<string>)
    | MergePayload(id: Id, seen: Ops.Payload, wanted: Ops.Payload)
    | ApplyOps(id: Id, ops: seq<Ops.MemoryOp>)
    | SetField(id: Id, edit: FieldEdit)
    | SetAliases(id: Id, aliases: seq<string>)
    | Update(id: Id, f: Ops.Payload -> (Ops.Payload, bool))
    | RestoreCounters
    | ReservePort(layer: C.Layer)
    | TakePort(layer: C.Layer, owner: Id)
    | TakeNamedPort(port: Id, owner: Id)
    | TransferReservation(port: Id, owner: Id)
    | ReleaseReservation(port: Id)
    | ReleasePort(owner: Id)
    | PassOnPort(owner: Id, heir: Id)

  /** The closure reports every change of the searched fields. */
  ghost predicate Honest(f: Ops.Payload -> (Ops.Payload, bool)) {
    forall d: Ops.Payload :: f(d).1 || SameSearchable(d, f(d).0)
  }

  ghost predicate WellFormedCommand(c: Command) {
    && (c.Add? || c.AddWithId? ==> |c.corners| == 4)
    && (c.Update? ==> Honest(c.f))
  }

  ghost predicate OwnersSoundIn(s: Snapshot) {
    C.OwnersSound(s.ports, s.topo.tetras.Keys)
  }

  /**
   * The command succeeds in giving a port to somebody who is not live, or who owns a port already. The methods of the
   * space do not check that, and neither do their callers. Rebuilding chooses among several tetrahedra in an arbitrary
   * order, so that what it does shows in the ports `after` it only.
   */
  ghost predicate GoesAstray(s: Snapshot, c: Command, after: seq<C.Port>) {
    var live := s.topo.tetras.Keys;
    match c
    case TakePort(layer, owner) => C.IndexOfFree(s.ports, layer) < |s.ports| && !C.MayTake(s.ports, live, owner)
    case TakeNamedPort(port, owner) => C.CanAssign(s.ports, port) && !C.MayTake(s.ports, live, owner)
    case TransferReservation(port, owner) =>
      var i := C.IndexOfPort(s.ports, port);
      && owner in live && port in s.topo.tetras[owner].vertexIds
      && i < |s.ports| && s.ports[i].owner == Some(C.PORT_RESERVATION_OWNER)
      && C.OwnsPort(s.ports, owner)
    case Rebuild => Anchoring.GivesASecondPort(s.ports, after)
    case PassOnPort(owner, heir) => heir != owner && C.OwnsPort(s.ports, owner) && !C.MayTake(s.ports, live, heir)
    case _ => false
  }

  /** The commands that change the owners of ports only, and the stamp of the structure at most. */
  predicate IsPortCommand(c: Command) {
    || c.Rebuild? || c.ReservePort? || c.TakePort? || c.TakeNamedPort?
    || c.TransferReservation? || c.ReleaseReservation?
    || c.ReleasePort? || c.PassOnPort?
  }

  method ExecuteOnPorts(s: Space, c: Command)
    requires s.Valid() && IsPortCommand(c)
    modifies s, s.cylinder
    ensures s.Valid() && Stamped(old(s.State()), s.State())
    ensures old(s.PortsSound()) ==> (s.PortsSound() <==> !GoesAstray(old(s.State()), c, s.cylinder.ports))
  {
    hide Stamped, WellFormed, C.OwnersSound, C.MayTake, C.OwnsPort, C.CanAssign, C.AssignedTo, C.IndexOfPort,
      C.IndexOfFree,
      C.IndexOfOwner, Anchoring.GivesASecondPort, Anchoring.Reanchored;
    match c {
      case Rebuild => var _ := s.RebuildPortOccupancy();
      case ReservePort(layer) =>
        var _ := s.AssignCylinderPort(layer, C.PORT_RESERVATION_OWNER);
        assert C.MayTake(old(s.cylinder.ports), s.topo.tetras.Keys, C.PORT_RESERVATION_OWNER) by {
          MarkMayTake(old(s.State())); }
        PortsAreUnstamped(old(s.State()), s.State());
      case TakePort(layer, owner) =>
        var _ := s.AssignCylinderPort(layer, owner);
        PortsAreUnstamped(old(s.State()), s.State());
      case TakeNamedPort(port, owner) =>
        var _ := s.AssignSpecificPort(port, owner);
        PortsAreUnstamped(old(s.State()), s.State());
      case TransferReservation(port, owner) =>
        var _ := s.TransferCylinderPortReservation(port, owner);
        PortsAreUnstamped(old(s.State()), s.State());
      case PassOnPort(owner, heir) =>
        var _ := s.ReassignCylinderPort(owner, heir);
        PortsAreUnstamped(old(s.State()), s.State());
      case ReleaseReservation(port) =>
        var _ := s.ReleaseCylinderPortReservation(port);
        PortsAreUnstamped(old(s.State()), s.State());
      case ReleasePort(owner) =>
        s.ReleaseCylinderPort(owner);
        PortsAreUnstamped(old(s.State()), s.State());
    }
  }

  method Execute(s: Space, c: Command)
    requires s.Valid() && WellFormedCommand(c)
    modifies s, s.cylinder
    ensures s.Valid() && Stamped(old(s.State()), s.State())
    ensures old(s.PortsSound()) ==> (s.PortsSound() <==> !GoesAstray(old(s.State()), c, s.cylinder.ports))
  {
    hide Stamped, WellFormed, C.OwnersSound, Honest, C.MayTake, Anchoring.GivesASecondPort;
    match c {
      case Add(tetra, corners) => var _ := s.AddTetrahedron(tetra, corners);
      case AddWithId(tetra, corners) => var _ := s.AddTetrahedronWithId(tetra, corners);
      case Remove(id) => var _ := s.RemoveTetrahedron(id);
      case Relocate(id, core) => var _ := s.RelocateTetrahedron(id, core);
      case Reseed => var _ := s.ReseedPorts();
      case AdjustMass(id, delta) => var _ := s.UpdateMass(id, delta);
      case ReplacePayload(id, payload) => var _ := s.UpdatePayload(id, payload);
      case MergeLabels(id, base, desired) => var _ := s.PatchLabels(id, base, desired);
      case MergeAliases(id, base, desired) => var _ := s.PatchAliases(id, base, desired);
      case MergePayload(id, seen, wanted) => var _ := s.PatchPayload(id, seen, wanted);
      case ApplyOps(id, ops) => var _ := s.ApplyOps(id, ops);
      case SetField(id, edit) => var _ := s.UpdateField(id, edit);
      case SetAliases(id, aliases) => var _ := s.UpdateAliases(id, aliases);
      case Update(id, f) =>
        HonestAt(f, if id in s.topo.tetras then s.topo.tetras[id].data else NO_PAYLOAD);
        var _ := s.WithTetraMut(id, f);
      case RestoreCounters => s.RestoreCounters();
      case _ => ExecuteOnPorts(s, c);
    }
  }

  const NO_PAYLOAD: Ops.Payload :=
    Ops.Payload("", 0, [], 0, [], [], 0.0, false, None, 0, None, None, None, 0, None, None, None, None, None)

  lemma HonestAt(f: Ops.Payload -> (Ops.Payload, bool), d: Ops.Payload)
    requires Honest(f)
    ensures f(d).1 || SameSearchable(d, f(d).0)
  {
  }

  /** Port ownership is not what the stamps stand for. */
  lemma PortsAreUnstamped(a: Snapshot, b: Snapshot)
    requires b == a.(ports := b.ports)
    ensures Stamped(a, b)
  {
  }

  lemma MarkMayTake(s: Snapshot)
    ensures C.MayTake(s.ports, s.topo.tetras.Keys, C.PORT_RESERVATION_OWNER)
  {
  }

  /** All port owners are sound up to state `n` of a run. */
  ghost predicate OwnersSoundUpTo(run: seq<Snapshot>, n: nat)
    requires n < |run|
  {
    forall i :: 0 <= i <= n ==> OwnersSoundIn(run[i])
  }

  /** None of the first `n` commands of a run goes astray. */
  ghost predicate NoneAstray(run: seq<Snapshot>, commands: seq<Command>, n: nat)
    requires n < |run| && n <= |commands|
  {
    forall i :: 0 <= i < n ==> !GoesAstray(run[i], commands[i], run[i + 1].ports)
  }

  lemma OneMoreCommand(run: seq<Snapshot>, commands: seq<Command>, n: nat, s: Snapshot)
    requires |run| == n + 1 && n < |commands|
    requires OwnersSoundUpTo(run, n) <==> NoneAstray(run, commands, n)
    requires OwnersSoundIn(run[n]) ==> (OwnersSoundIn(s) <==> !GoesAstray(run[n], commands[n], s.ports))
    ensures OwnersSoundUpTo(run + [s], n + 1) <==> NoneAstray(run + [s], commands, n + 1)
  {
    hide GoesAstray, OwnersSoundIn;
    var longer := run + [s];
    assert longer[n + 1] == s && forall i :: 0 <= i <= n ==> longer[i] == run[i];
    assert OwnersSoundUpTo(longer, n + 1) <==> OwnersSoundUpTo(run, n) && OwnersSoundIn(s);
    assert NoneAstray(longer, commands, n + 1)
      <==> NoneAstray(run, commands, n) && !GoesAstray(run[n], commands[n], s.ports);
  }

  /**
   * After any commands, every state passed through is well formed and each step is stamped. The owners of the ports
   * are sound throughout exactly when no command gives a port to a tetrahedron that is dead or has one.
   */
  method Run(layout: seq<C.Port>, commands: seq<Command>) returns (s: Space, ghost run: seq<Snapshot>)
    requires C.DistinctIds(layout) && forall p :: p in layout ==> p.owner == None && p.status == C.Free
    requires forall i, j :: 0 <= i < j < |layout| ==> !Near(layout[i].position, layout[j].position)
    requires forall c :: c in commands ==> WellFormedCommand(c)
    ensures IsRun(run) && |run| == |commands| + 1 && run[|commands|] == s.State() && s.Valid()
    ensures forall i :: 0 <= i < |run| ==> WellFormed(run[i].topo, run[i].ports)
    ensures OwnersSoundUpTo(run, |commands|) <==> NoneAstray(run, commands, |commands|)
  {
    hide Stamped, WellFormed, C.OwnersSound, GoesAstray, OwnersSoundUpTo, NoneAstray;
    s := new Space(layout);
    run := [s.State()];
    NothingAstrayYet(run, commands);
    for k := 0 to |commands|
      invariant fresh(s) && fresh(s.cylinder) && s.Valid()
      invariant IsRun(run) && |run| == k + 1 && run[k] == s.State()
      invariant forall i :: 0 <= i < |run| ==> WellFormed(run[i].topo, run[i].ports)
      invariant OwnersSoundUpTo(run, k) <==> NoneAstray(run, commands, k)
    {
      assert commands[k] in commands;
      Execute(s, commands[k]);
      OneMoreCommand(run, commands, k, s.State());
      run := run + [s.State()];
    }
  }

  lemma NothingAstrayYet(run: seq<Snapshot>, commands: seq<Command>)
    requires |run| == 1 && OwnersSoundIn(run[0])
    ensures OwnersSoundUpTo(run, 0) && NoneAstray(run, commands, 0)
  {
    hide OwnersSoundIn;
  }

  /** A second pass of reseeding right after the first gives out nothing and changes nothing. */
  method ReseedTwice(s: Space) returns (first: nat, second: nat)
    requires s.Valid()
    modifies s`structureVersion, s.cylinder
    ensures second == 0
    ensures s.Valid() && s.structureVersion == old(s.structureVersion) + if first > 0 then 1 else 0
    ensures first == 0 <==> s.cylinder.ports == old(s.cylinder.ports)
    ensures Reseeding.OnlyAssigned(old(s.cylinder.ports), s.cylinder.ports)
  {
    hide WellFormed, C.OwnersSound, Reseeding.AllSettled, Reseeding.OnlyAssigned;
    first := s.ReseedPorts();
    second := s.ReseedPorts();
  }
}
