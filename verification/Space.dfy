/** The space: every method is one critical section under the write lock. */
module SpaceStore {
  import opened Prelude
  import opened Geometry
  import opened Index
  import opened Ops
  import opened VertexIds
  import opened Topology
  import opened Placement
  import C = Cylinder
  import Clusters
  import Reseeding
  import Anchoring

  datatype SpaceError = NotRegular | AlreadyExists | NotFound | TetraIdsExhausted | VertexIdsExhausted

  datatype Result<+T> = Ok(value: T) | Err(error: SpaceError)

  /** Everything the space holds, as one value. */
  datatype Snapshot = Snapshot(
    topo: Topo,
    ports: seq<C.Port>,
    nextVertexId: Id,
    nextTetraId: Id,
    structureVersion: nat,
    searchRevision: nat)

  /** What the search caches are built from. */
  ghost function Corpus(s: Snapshot): map<Id, (string, seq<string>)> {
    map t | t in s.topo.tetras :: (s.topo.tetras[t].data.content, s.topo.tetras[t].data.aliases)
  }

  /** What the clusters are built from. */
  ghost function Shape(s: Snapshot): map<Id, seq<Id>> {
    map t | t in s.topo.tetras :: s.topo.tetras[t].vertexIds
  }

  /** One mutation: each stamp either moves forward or vouches that what it stamps is unchanged. */
  ghost predicate Stamped(a: Snapshot, b: Snapshot) {
    && a.searchRevision <= b.searchRevision
    && (a.searchRevision == b.searchRevision ==> Corpus(a) == Corpus(b))
    && a.structureVersion <= b.structureVersion
    && (a.structureVersion == b.structureVersion ==> Shape(a) == Shape(b))
  }

  /** `after` is `before` with tetrahedron `x` added at the corners `ps`. */
  ghost predicate Inserted(before: Topo, after: Topo, x: Tetra, ps: seq<Point3>)
    requires |ps| == 4
  {
    && after.tetras == before.tetras[x.id := x]
    && |x.vertexIds| == 4
    && (forall i :: 0 <= i < 4 ==>
          Merged(before.vertices, ps[i], x.vertexIds[i])
          || IsNewVertex(before.vertices, after.vertices, ps[i], x.vertexIds[i]))
    && (forall v :: v in before.vertices ==> v in after.vertices && after.vertices[v] == before.vertices[v])
  }

  ghost predicate IsNewVertex(before: map<Id, Point3>, after: map<Id, Point3>, p: Point3, v: Id) {
    !HasNear(before, p) && v !in before && v in after && after[v] == p
  }

  /**
   * The port that `t` anchored passes to the first portless tetrahedron that is listed as touching it, or is freed when
   * there is none.
   */
  ghost predicate HandedOver(before: seq<C.Port>, after: seq<C.Port>, tetras: map<Id, Tetra>, v2t: map<Id, seq<Id>>,
                             t: Id) {
    var i := C.IndexOfOwner(before, t);
    && i < |before|
    && ((exists u :: PortlessToucher(before, i, tetras, u) && FirstListed(before, i, tetras, v2t, u)
                     && after == before[i := before[i].Assign(u)])
        || ((forall u :: !PortlessToucher(before, i, tetras, u)) && after == before[i := before[i].Release()]))
  }

  /** No portless tetrahedron is listed under the port before `u`. */
  ghost predicate FirstListed(ports: seq<C.Port>, i: nat, tetras: map<Id, Tetra>, v2t: map<Id, seq<Id>>, u: Id)
    requires i < |ports|
  {
    && ports[i].id in v2t
    && var ids := v2t[ports[i].id];
       exists j :: 0 <= j < |ids| && ids[j] == u && forall k :: 0 <= k < j ==>
         !PortlessToucher(ports, i, tetras, ids[k])
  }

  ghost predicate PortlessToucher(ports: seq<C.Port>, i: nat, tetras: map<Id, Tetra>, u: Id)
    requires i < |ports|
  {
    && u in tetras
    && ports[i].id in tetras[u].vertexIds
    && forall j :: 0 <= j < |ports| && j != i ==> ports[j].owner != Some(u)
  }

  /** The topology once `id` and the vertices only it used are gone. */
  ghost function Without(t: Topo, id: Id, portIds: set<Id>): Topo {
    t.(tetras := t.tetras - {id}, vertices := t.vertices - Orphans(t, id, portIds))
  }

  /** A tetrahedron without a port takes the free port among its corners that comes first, if there is one. */
  ghost predicate Anchored(before: seq<C.Port>, after: seq<C.Port>, vids: seq<Id>, t: Id) {
    if C.OwnsPort(before, t) then after == before
    else
      || (after == before && forall k :: 0 <= k < |before| && before[k].id in vids ==> !before[k].IsFree())
      || exists k: nat :: FirstFreeCorner(before, vids, k) && after == before[k := before[k].Assign(t)]
  }

  /** Port `k` is free, and no earlier corner is a free port. */
  ghost predicate FirstFreeCorner(ports: seq<C.Port>, vids: seq<Id>, k: nat) {
    && k < |ports| && ports[k].IsFree()
    && exists c ::
      0 <= c < |vids| && vids[c] == ports[k].id
      && forall m, d :: 0 <= m < |ports| && 0 <= d < c && ports[m].id == vids[d] ==> !ports[m].IsFree()
  }

  /** The corners of a tetrahedron that are ports. */
  function TouchedPorts(portIds: set<Id>, vids: seq<Id>): seq<Id> {
    Filter(vids, v => v in portIds)
  }

  predicate TouchesAPort(ports: seq<C.Port>, vids: seq<Id>) {
    exists k :: 0 <= k < |ports| && ports[k].id in vids
  }

  /** The anchor of `t` is left behind when `t` departs from it geometrically, or arrives at another port. */
  predicate LeavesItsPort(ports: seq<C.Port>, oldVids: seq<Id>, newVids: seq<Id>, t: Id) {
    var i := C.IndexOfOwner(ports, t);
    i < |ports| && ports[i].id !in newVids && (ports[i].id in oldVids || TouchesAPort(ports, newVids))
  }

  ghost predicate PortsAfterMove(before: seq<C.Port>, after: seq<C.Port>, tetras: map<Id, Tetra>, v2t: map<Id, seq<Id>>,
                                 oldVids: seq<Id>, t: Id)
    requires t in tetras
  {
    var vids := tetras[t].vertexIds;
    if LeavesItsPort(before, oldVids, vids, t) then
      exists mid :: HandedOver(before, mid, tetras, v2t, t) && Anchored(mid, after, vids, t)
    else Anchored(before, after, vids, t)
  }

  datatype FieldEdit =
    | AccessCount(count: nat)
    | Importance(importance: real)
    | LastReviewed(ts: int)
    | Labels(labels: seq<string>)
    | Enforced(enforced: bool)
    | Validity(validTo: Option<int>, now: int)

  function WithField(d: Payload, e: FieldEdit): (r: Payload)
    ensures SameSearchable(d, r)
  {
    match e
    case AccessCount(n) => d.(accessCount := n)
    case Importance(v) => d.(importance := v)
    case LastReviewed(ts) => d.(lastReviewedTs := Some(ts))
    case Labels(l) => d.(labels := l)
    case Enforced(b) => d.(enforced := b)
    case Validity(to, now) =>
      d.(validTo := to, invalidatedAt := if to.Some? && d.invalidatedAt.None? then Some(now) else d.invalidatedAt)
  }

  /** A setter changes its own field; ending a memory also dates its invalidation, once. */
  lemma FieldEditsExactly(d: Payload, e: FieldEdit)
    ensures var r := WithField(d, e);
      && (e.AccessCount? ==> r == d.(accessCount := e.count))
      && (e.Importance? ==> r == d.(importance := e.importance))
      && (e.LastReviewed? ==> r == d.(lastReviewedTs := Some(e.ts)))
      && (e.Labels? ==> r == d.(labels := e.labels))
      && (e.Enforced? ==> r == d.(enforced := e.enforced))
      && (e.Validity? ==>
           && r == d.(validTo := e.validTo, invalidatedAt := r.invalidatedAt)
           && (d.invalidatedAt.Some? ==> r.invalidatedAt == d.invalidatedAt)
           && (d.invalidatedAt.None? ==> r.invalidatedAt == if e.validTo.Some? then Some(e.now) else None))
  {
  }

  /** The tetrahedra among `ids` that exist. */
  function Candidates(tetras: map<Id, Tetra>, ids: set<Id>): map<Id, Tetra> {
    map t | t in ids && t in tetras :: tetras[t]
  }

  predicate SameSearchable(a: Payload, b: Payload) {
    a.content == b.content && a.aliases == b.aliases
  }

  /** The state with one memory's payload and mass replaced and the two stamps advanced. */
  ghost function Edited(s: Snapshot, id: Id, data: Payload, mass: real, structure: nat, search: nat): Snapshot
    requires id in s.topo.tetras
  {
    s.(topo := s.topo.(tetras := s.topo.tetras[id := s.topo.tetras[id].(data := data, mass := mass)]),
       structureVersion := s.structureVersion + structure,
       searchRevision := s.searchRevision + search)
  }

  /** `n` is the successor of the largest of `ids`, saturating, or `default` when there is none. */
  ghost predicate IsSuccessor(ids: set<Id>, default: Id, n: Id) {
    if ids == {} then n == default
    else exists m: Id :: IsLargest(ids, m) && n == if m == U64_MAX then m else m + 1
  }

  function AboveAll(ids: set<Id>, default: Id): (r: Id)
    ensures IsSuccessor(ids, default, r)
    ensures forall t :: t in ids ==> t < r || t == r == U64_MAX
  {
    if ids == {} then default
    else
      var m := Largest(ids);
      if m == U64_MAX then m else m + 1
  }

  ghost predicate IsLargest(ids: set<Id>, m: Id) {
    m in ids && forall t :: t in ids ==> t <= m
  }

  function Largest(ids: set<Id>): (m: Id)
    requires ids != {}
    ensures IsLargest(ids, m)
  {
    LargestExists(ids);
    var m :| m in ids && forall t :: t in ids ==> t <= m;
    m
  }

  lemma LargestExists(ids: set<Id>)
    requires ids != {}
    ensures exists m :: m in ids && forall t :: t in ids ==> t <= m
  {
    var m := FindLargest(ids);
    assert IsLargest(ids, m);
  }

  lemma {:induction false} FindLargest(ids: set<Id>) returns (m: Id)
    requires ids != {}
    ensures IsLargest(ids, m)
  {
    m :| m in ids;
    if ids != {m} {
      var rest := FindLargest(ids - {m});
      LargerOfBoth(ids, m, rest);
      m := if rest > m then rest else m;
    }
  }

  lemma LargerOfBoth(ids: set<Id>, x: Id, rest: Id)
    requires x in ids && IsLargest(ids - {x}, rest)
    ensures IsLargest(ids, if rest > x then rest else x)
  {
    forall t | t in ids ensures t <= rest || t <= x {
      assert t == x || t in ids - {x};
    }
  }

  class Space {
    var topo: Topo
    var nextVertexId: Id
    var nextTetraId: Id
    var structureVersion: nat
    var searchRevision: nat
    const cylinder: C.Cylinder

    ghost function State(): Snapshot
      reads this, cylinder
    {
      Snapshot(topo, cylinder.ports, nextVertexId, nextTetraId, structureVersion, searchRevision)
    }

    ghost predicate Valid()
      reads this, cylinder
    {
      && cylinder.Valid()
      && WellFormed(topo, cylinder.ports)
      && forall t :: t in topo.tetras ==> t < nextTetraId
    }

    ghost predicate PortsSound()
      reads this, cylinder
    {
      C.OwnersSound(cylinder.ports, topo.tetras.Keys)
    }

    constructor (layout: seq<C.Port>)
      requires C.DistinctIds(layout) && forall p :: p in layout ==> p.owner == None && p.status == C.Free
      requires forall i, j :: 0 <= i < j < |layout| ==> !Near(layout[i].position, layout[j].position)
      ensures Valid() && PortsSound() && fresh(cylinder)
      ensures topo.tetras == map[] && cylinder.ports == layout
      ensures structureVersion == searchRevision == nextTetraId == nextVertexId == 0
    {
      hide WellFormed, Exact, Near, VertexCells, IsExtension, FreshIds, C.OwnersSound;
      cylinder := new C.Cylinder(layout);
      var staged: Staged := seq(|layout|, i requires 0 <= i < |layout| => (layout[i].id, layout[i].position));
      assert forall i :: 0 <= i < |layout| ==> staged[i] == (layout[i].id, layout[i].position);
      LayoutIsFresh(layout, staged);
      var vs, grid := StoreVertices(map[], map[], staged);
      topo := Topo(vs, map[], map[], map[], map[], grid, map[]);
      nextVertexId, nextTetraId, structureVersion, searchRevision := 0, 0, 0, 0;
      new;
      EmptySpaceIsWellFormed(layout, staged, vs, grid);
      assert topo.tetras.Keys == {};
      UnownedIsSound(layout);
    }

    // ---- Insertion ---------------------------------------------------------------------

    method InsertTetra(tetra: Tetra, id: Id, ps: seq<Point3>) returns (ok: bool)
      requires Valid() && |ps| == 4 && ValidateShape(ps) && id !in topo.tetras
      modifies this
      ensures WellFormed(topo, cylinder.ports)
      ensures ok
        <==> CounterAfter(old(topo.vertices).Keys, old(nextVertexId), MissingCount(old(topo.vertices), ps)).Some?
      ensures !ok ==> State() == old(State())
      ensures ok ==> id in topo.tetras && topo.tetras[id] == tetra.(id := id, vertexIds := topo.tetras[id].vertexIds)
      ensures ok ==> Inserted(old(topo), topo, topo.tetras[id], ps)
      ensures ok ==>
        topo.vertexToTetras == PushAll(old(topo.vertexToTetras), topo.tetras[id].vertexIds, id)
      ensures ok ==>
        Some(nextVertexId) == CounterAfter(old(topo.vertices).Keys, old(nextVertexId),
                                           MissingCount(old(topo.vertices), ps))
      ensures nextTetraId == old(nextTetraId)
      ensures structureVersion == old(structureVersion) && searchRevision == old(searchRevision)
    {
      hide Exact, WellFormed, Inserted, InUse, Near, ValidateShape, FreshIds, Placed, IsExtension, CounterAfter,
        VertexCells,
        MissingCount, PushAll, Push, EdgeKeys, FaceKeys, C.Cylinder.Valid;
      assert Exact(topo.vertexGrid, VertexCells(topo.vertices)) by { GridIsExact(topo, cylinder.ports); }
      ghost var before := topo;
      var placed := PlaceVertices(topo.vertices, topo.vertexGrid, nextVertexId, ps);
      if placed.None? {
        return false;
      }
      var (vids, staged, next) := placed.value;
      var vs, grid := StoreVertices(topo.vertices, topo.vertexGrid, staged);
      var x := tetra.(id := id, vertexIds := vids);
      var v2t := ListUnder(topo.vertexToTetras, vids, id);
      var edges := ListUnder(topo.edgeTable, EdgeKeys(vids), id);
      var faces := ListUnder(topo.faceTable, FaceKeys(vids), id);
      var cells := Push(topo.tetraGrid, GridKey(x.core), id);
      ghost var after := WithTetra(before, x, vs, grid);
      assert after == Topo(vs, topo.tetras[id := x], edges, faces, v2t, grid, cells);
      InsertionKeepsWellFormed(before, cylinder.ports, x, ps, staged, vs, grid);
      PlacementMeansInserted(before, after, x, ps, staged);
      nextVertexId := next;
      topo := Topo(vs, topo.tetras[id := x], edges, faces, v2t, grid, cells);
      ok := true;
    }

    method AddTetrahedron(tetra: Tetra, ps: seq<Point3>) returns (r: Result<Id>)
      requires Valid() && |ps| == 4
      modifies this
      ensures Valid()
      ensures r ==
        if !ValidateShape(ps) then Err(NotRegular)
        else if old(nextTetraId) == U64_MAX then Err(TetraIdsExhausted)
        else if CounterAfter(old(topo.vertices).Keys, old(nextVertexId), MissingCount(old(topo.vertices), ps)).None?
        then Err(VertexIdsExhausted)
        else Ok(old(nextTetraId))
      ensures r.Err? ==> State() == old(State())
      ensures r.Ok? ==> r.value !in old(topo.tetras) && r.value in topo.tetras
      ensures r.Ok? ==> topo.tetras[r.value] == tetra.(id := r.value, vertexIds := topo.tetras[r.value].vertexIds)
      ensures r.Ok? ==> Inserted(old(topo), topo, topo.tetras[r.value], ps)
      ensures r.Ok? ==>
        topo.vertexToTetras == PushAll(old(topo.vertexToTetras), topo.tetras[r.value].vertexIds, r.value)
      ensures r.Ok? ==>
        && Some(nextVertexId)
           == CounterAfter(old(topo.vertices).Keys, old(nextVertexId), MissingCount(old(topo.vertices), ps))
        && nextTetraId == old(nextTetraId) + 1
        && structureVersion == old(structureVersion) + 1 && searchRevision == old(searchRevision) + 1
      ensures old(PortsSound()) ==> PortsSound()
      ensures Stamped(old(State()), State())
    {
      hide WellFormed, Inserted, ValidateShape, CounterAfter;
      if !ValidateShape(ps) {
        return Err(NotRegular);
      }
      var id := nextTetraId;
      if id == U64_MAX {
        return Err(TetraIdsExhausted);
      }
      var ok := InsertTetra(tetra, id, ps);
      if !ok {
        return Err(VertexIdsExhausted);
      }
      InsertedTetras(old(topo), topo, topo.tetras[id], ps);
      nextTetraId := id + 1;
      structureVersion := structureVersion + 1;
      searchRevision := searchRevision + 1;
      return Ok(id);
    }

    method AddTetrahedronWithId(tetra: Tetra, ps: seq<Point3>) returns (r: Result<Id>)
      requires Valid() && |ps| == 4
      modifies this
      ensures Valid()
      ensures r ==
        if !ValidateShape(ps) then Err(NotRegular)
        else if tetra.id in old(topo.tetras) then Err(AlreadyExists)
        else if tetra.id >= old(nextTetraId) && tetra.id == U64_MAX then Err(TetraIdsExhausted)
        else if CounterAfter(old(topo.vertices).Keys, old(nextVertexId), MissingCount(old(topo.vertices), ps)).None?
        then Err(VertexIdsExhausted)
        else Ok(tetra.id)
      ensures r.Err? ==> State() == old(State())
      ensures r.Ok? ==> tetra.id in topo.tetras
      ensures r.Ok? ==> topo.tetras[tetra.id] == tetra.(vertexIds := topo.tetras[tetra.id].vertexIds)
      ensures r.Ok? ==> Inserted(old(topo), topo, topo.tetras[tetra.id], ps)
      ensures r.Ok? ==>
        topo.vertexToTetras == PushAll(old(topo.vertexToTetras), topo.tetras[tetra.id].vertexIds, tetra.id)
      ensures r.Ok? ==>
        && Some(nextVertexId)
           == CounterAfter(old(topo.vertices).Keys, old(nextVertexId), MissingCount(old(topo.vertices), ps))
        && nextTetraId == (if tetra.id < old(nextTetraId) then old(nextTetraId) else tetra.id + 1)
        && structureVersion == old(structureVersion) + 1 && searchRevision == old(searchRevision) + 1
      ensures old(PortsSound()) ==> PortsSound()
      ensures Stamped(old(State()), State())
    {
      hide WellFormed, Inserted, ValidateShape, CounterAfter;
      if !ValidateShape(ps) {
        return Err(NotRegular);
      }
      if tetra.id in topo.tetras {
        return Err(AlreadyExists);
      }
      var next := nextTetraId;
      if tetra.id >= nextTetraId {
        if tetra.id == U64_MAX {
          return Err(TetraIdsExhausted);
        }
        next := tetra.id + 1;
      }
      var ok := InsertTetra(tetra, tetra.id, ps);
      if !ok {
        return Err(VertexIdsExhausted);
      }
      InsertedTetras(old(topo), topo, topo.tetras[tetra.id], ps);
      nextTetraId := next;
      structureVersion := structureVersion + 1;
      searchRevision := searchRevision + 1;
      return Ok(tetra.id);
    }

    // ---- Removal -------------------------------------------------------------------------

    /** Drop the index entries of `x`, which has just been taken out of the tetrahedra. */
    method RemoveTetraIndexes(x: Tetra)
      requires x.id !in topo.tetras
      requires WellFormed(topo.(tetras := topo.tetras[x.id := x]), cylinder.ports)
      modifies this`topo
      ensures WellFormed(topo, cylinder.ports)
      ensures topo.tetras == old(topo.tetras)
      ensures topo.vertexToTetras == DropAll(old(topo.vertexToTetras), x.vertexIds, x.id)
      ensures topo.vertices == old(topo.vertices)
        - Orphans(old(topo).(tetras := old(topo.tetras)[x.id := x]), x.id, C.PortIds(cylinder.ports))
    {
      hide Exact, WellFormed, InUse, Near, VertexCells, Push, Drop, DropAll, EdgeKeys, FaceKeys, Orphans;
      ghost var before := topo.(tetras := topo.tetras[x.id := x]);
      assert before.tetras - {x.id} == topo.tetras;
      assert TetrasOk(before.tetras) && IndexesExact(before) && VerticesExact(before, C.PortIds(cylinder.ports)) by {
        PartsOfWellFormed(before, cylinder.ports);
      }
      var cells := Drop(topo.tetraGrid, GridKey(x.core), x.id);
      var v2t, vs, grid := ReleaseVertices(topo.vertexToTetras, topo.vertices, topo.vertexGrid, x,
                                           C.PortIds(cylinder.ports), before);
      var edges := UnlistFrom(topo.edgeTable, EdgeKeys(x.vertexIds), x.id);
      var faces := UnlistFrom(topo.faceTable, FaceKeys(x.vertexIds), x.id);
      ghost var after := WithoutTetra(before, x, v2t, vs, grid);
      assert after == Topo(vs, topo.tetras, edges, faces, v2t, grid, cells);
      RemovalKeepsWellFormed(before, cylinder.ports, x, v2t, vs, grid);
      topo := Topo(vs, topo.tetras, edges, faces, v2t, grid, cells);
    }

    /** Free the port that `t` anchors, or hand it to a portless tetrahedron that still touches it. */
    method ReleaseOrReanchorPort(t: Id)
      requires cylinder.Valid()
      requires WellFormed(topo, cylinder.ports)
      modifies cylinder
      ensures cylinder.Valid()
      ensures if C.OwnsPort(old(cylinder.ports), t) then
                HandedOver(old(cylinder.ports), cylinder.ports, topo.tetras, topo.vertexToTetras, t)
              else cylinder.ports == old(cylinder.ports)
    {
      hide WellFormed;
      var anchor := cylinder.FindPortForTetra(t);
      if anchor.None? {
        return;
      }
      ghost var before := cylinder.ports;
      ghost var i := C.IndexOfOwner(before, t);
      var port := anchor.value;
      TouchersAreListed(topo, cylinder.ports, port);
      cylinder.ReleasePort(t);
      var released := cylinder.ports;
      assert released == before[i := before[i].Release()];
      var ids := if port in topo.vertexToTetras then topo.vertexToTetras[port] else [];
      var j := FirstIndex(ids, u => !C.OwnsPort(released, u));
      C.PortsAreFoundById(released, i);
      if j < |ids| {
        var ok := cylinder.AssignSpecificPort(port, ids[j]);
        assert ids[j] in ids;
        assert cylinder.ports == released[i := released[i].Assign(ids[j])];
        forall k | 0 <= k < |before| && k != i
          ensures before[k].owner != Some(ids[j])
        {
          assert released[k] == before[k];
        }
        assert PortlessToucher(before, i, topo.tetras, ids[j]);
        forall k | 0 <= k < j
          ensures !PortlessToucher(before, i, topo.tetras, ids[k])
        {
          OwnsStill(before, i, ids[k]);
        }
        assert FirstListed(before, i, topo.tetras, topo.vertexToTetras, ids[j]);
      } else {
        forall u | u in topo.tetras && port in topo.tetras[u].vertexIds
          ensures !PortlessToucher(before, i, topo.tetras, u)
        {
          assert u in ids;
          var k :| 0 <= k < |released| && released[k].owner == Some(u);
          assert before[k].owner == Some(u) && k != i;
        }
      }
    }

    method RemoveTetrahedron(id: Id) returns (r: Result<Tetra>)
      requires Valid()
      modifies this, cylinder
      ensures Valid()
      ensures r == if id in old(topo.tetras) then Ok(old(topo.tetras)[id]) else Err(NotFound)
      ensures r.Err? ==> State() == old(State())
      ensures r.Ok? ==> topo.tetras == old(topo.tetras) - {id}
      ensures r.Ok? ==>
        topo.vertexToTetras == DropAll(old(topo.vertexToTetras), old(topo.tetras)[id].vertexIds, id)
      ensures r.Ok? ==> topo.vertices == old(topo.vertices) - Orphans(old(topo), id, C.PortIds(old(cylinder.ports)))
      ensures r.Ok? ==>
        if C.OwnsPort(old(cylinder.ports), id) then
          HandedOver(old(cylinder.ports), cylinder.ports, topo.tetras, topo.vertexToTetras, id)
        else cylinder.ports == old(cylinder.ports)
      ensures nextVertexId == old(nextVertexId) && nextTetraId == old(nextTetraId)
      ensures r.Ok? ==>
        structureVersion == old(structureVersion) + 1 && searchRevision == old(searchRevision) + 1
      ensures old(PortsSound()) ==> PortsSound()
      ensures Stamped(old(State()), State())
    {
      hide WellFormed, Orphans;
      if id !in topo.tetras {
        return Err(NotFound);
      }
      var x := topo.tetras[id];
      assert x.id == id by { PartsOfWellFormed(topo, cylinder.ports); }
      topo := topo.(tetras := topo.tetras - {id});
      assert topo.(tetras := topo.tetras[id := x]) == old(topo) by {
        assert topo.tetras[id := x] == old(topo.tetras);
      }
      RemoveTetraIndexes(x);
      ReleaseOrReanchorPort(id);
      structureVersion := structureVersion + 1;
      searchRevision := searchRevision + 1;
      WellFormedUnderSameGeometry(topo, old(cylinder.ports), cylinder.ports);
      DepartureKeepsOwners(old(cylinder.ports), cylinder.ports, old(topo.tetras), topo.tetras, topo.vertexToTetras, id);
      return Ok(x);
    }

    /**
     * Move a tetrahedron to a new core. Capacity for four new vertices is checked before anything is
     * removed, so a failure leaves the space as it was.
     */
    method RelocateTetrahedron(id: Id, newCore: Point3) returns (r: Result<Id>)
      requires Valid()
      modifies this, cylinder
      ensures Valid()
      ensures r ==
        if id !in old(topo.tetras) then Err(NotFound)
        else if CounterAfter(old(topo.vertices).Keys, old(nextVertexId), 4).None? then Err(VertexIdsExhausted)
        else Ok(id)
      ensures r.Err? ==> State() == old(State())
      ensures r.Ok? ==> id in topo.tetras
      ensures r.Ok? ==>
        topo.tetras[id] == old(topo.tetras)[id].(core := newCore, vertexIds := topo.tetras[id].vertexIds)
      ensures r.Ok? ==>
        Inserted(Without(old(topo), id, C.PortIds(old(cylinder.ports))), topo, topo.tetras[id],
                 ComputeVertices(newCore))
      ensures r.Ok? ==>
        PortsAfterMove(old(cylinder.ports), cylinder.ports, topo.tetras, topo.vertexToTetras,
                       old(topo.tetras)[id].vertexIds, id)
      ensures r.Ok? ==>
        topo.vertexToTetras
        == PushAll(DropAll(old(topo.vertexToTetras), old(topo.tetras)[id].vertexIds, id), topo.tetras[id].vertexIds, id)
      ensures nextTetraId == old(nextTetraId) && searchRevision == old(searchRevision)
      ensures r.Ok? ==>
        && structureVersion == old(structureVersion) + 1
        && var rest := Without(old(topo), id, C.PortIds(old(cylinder.ports))).vertices;
           Some(nextVertexId) == CounterAfter(rest.Keys, old(nextVertexId),
                                              MissingCount(rest, ComputeVertices(newCore)))
      ensures old(PortsSound()) ==> PortsSound()
      ensures Stamped(old(State()), State())
    {
      hide WellFormed, Orphans, HasNear, ValidateShape, CounterAfter, Near, GridKey, Inserted, PortsAfterMove,
        C.OwnersSound, ComputeVertices,
        Stamped;
      UnchangedIsStamped(State());
      if id !in topo.tetras {
        return Err(NotFound);
      }
      var ps := ComputeVertices(newCore);
      ComputedShapeIsValid(newCore);
      if !ValidateShape(ps) {
        return Err(NotRegular);
      }
      var enough := EnsureVertexIdCapacity(4);
      if !enough {
        return Err(VertexIdsExhausted);
      }
      var oldPort := cylinder.FindPortForTetra(id);
      var wasGeometric := oldPort.Some? && oldPort.value in topo.tetras[id].vertexIds;
      ghost var oldVids := topo.tetras[id].vertexIds;
      Reinsert(id, newCore, ps);
      assert topo.tetras == old(topo.tetras)[id := topo.tetras[id]];
      assert topo.tetras.Keys == old(topo.tetras).Keys;
      ReconcilePort(id, oldPort, wasGeometric, oldVids);
      structureVersion := structureVersion + 1;
      MoveIsStamped(old(State()), State(), id);
      return Ok(id);
    }

    /** Take a tetrahedron out and put it back at its new corners; there is room for four new vertices. */
    method Reinsert(id: Id, newCore: Point3, ps: seq<Point3>)
      requires Valid() && id in topo.tetras
      requires |ps| == 4 && ValidateShape(ps)
      requires CounterAfter(topo.vertices.Keys, nextVertexId, 4).Some?
      modifies this
      ensures WellFormed(topo, cylinder.ports) && id in topo.tetras
      ensures topo.tetras == old(topo.tetras)[id := topo.tetras[id]]
      ensures topo.tetras[id] == old(topo.tetras)[id].(core := newCore, vertexIds := topo.tetras[id].vertexIds)
      ensures Inserted(Without(old(topo), id, C.PortIds(cylinder.ports)), topo, topo.tetras[id], ps)
      ensures var rest := Without(old(topo), id, C.PortIds(cylinder.ports)).vertices;
        Some(nextVertexId) == CounterAfter(rest.Keys, old(nextVertexId), MissingCount(rest, ps))
      ensures topo.vertexToTetras
        == PushAll(DropAll(old(topo.vertexToTetras), old(topo.tetras)[id].vertexIds, id), topo.tetras[id].vertexIds, id)
      ensures nextTetraId == old(nextTetraId)
      ensures structureVersion == old(structureVersion) && searchRevision == old(searchRevision)
    {
      hide WellFormed, Orphans, HasNear, ValidateShape, CounterAfter, Near, GridKey, Inserted;
      var removed := topo.tetras[id];
      assert removed.id == id by { PartsOfWellFormed(topo, cylinder.ports); }
      topo := topo.(tetras := topo.tetras - {id});
      assert topo.(tetras := topo.tetras[id := removed]) == old(topo) by {
        assert topo.tetras[id := removed] == old(topo.tetras);
      }
      RemoveTetraIndexes(removed);
      ghost var emptied := topo;
      RemovalLeavesCapacity(old(topo.vertices), topo.vertices, nextVertexId, ps);
      var moved := removed.(core := newCore, vertexIds := [0, 0, 0, 0]);
      var inserted := InsertTetra(moved, id, ps);
      assert inserted;
      InsertedTetras(emptied, topo, topo.tetras[id], ps);
      assert emptied.tetras == old(topo.tetras) - {id};
      InsertedOnto(emptied, Without(old(topo), id, C.PortIds(cylinder.ports)), topo, topo.tetras[id], ps);
    }

    /** A moved anchor must not keep a port it no longer touches, and takes a free one it now touches. */
    method ReconcilePort(id: Id, oldPort: Option<Id>, wasGeometric: bool, ghost oldVids: seq<Id>)
      requires cylinder.Valid() && WellFormed(topo, cylinder.ports)
      requires id in topo.tetras && id != C.PORT_RESERVATION_OWNER
      requires oldPort == cylinder.FindPortForTetra(id)
      requires wasGeometric <==> oldPort.Some? && oldPort.value in oldVids
      modifies cylinder
      ensures cylinder.Valid() && WellFormed(topo, cylinder.ports)
      ensures PortsAfterMove(old(cylinder.ports), cylinder.ports, topo.tetras, topo.vertexToTetras, oldVids, id)
      ensures old(PortsSound()) ==> PortsSound()
    {
      hide WellFormed, C.OwnersSound, C.AssignedTo, C.CanAssign, PortsAfterMove, HandedOver, Anchored, TouchedPorts;
      ghost var before := cylinder.ports;
      var vids := topo.tetras[id].vertexIds;
      var newPorts := TouchedPorts(C.PortIds(cylinder.ports), vids);
      NewPortsAreTheTouchedOnes(cylinder.ports, vids, newPorts);
      var leaves := oldPort.Some? && oldPort.value !in newPorts && (wasGeometric || newPorts != []);
      assert leaves <==> LeavesItsPort(before, oldVids, vids, id);
      if leaves {
        ReleaseOrReanchorPort(id);
      }
      ghost var mid := cylinder.ports;
      DepartureKeepsOwners(before, mid, topo.tetras, topo.tetras, topo.vertexToTetras, id);
      C.SameGeometrySameIds(before, mid);
      WellFormedUnderSameGeometry(topo, before, mid);
      var current := cylinder.FindPortForTetra(id);
      if current.None? {
        AnchorAtFirstFree(vids, newPorts, id);
      } else {
        AlreadyAnchored(mid, vids, id);
      }
      WellFormedUnderSameGeometry(topo, mid, cylinder.ports);
      MoveAccounted(before, mid, cylinder.ports, topo.tetras, topo.vertexToTetras, oldVids, id);
    }

    method AnchorAtFirstFree(ghost vids: seq<Id>, newPorts: seq<Id>, id: Id)
      requires cylinder.Valid() && !C.OwnsPort(cylinder.ports, id) && id in topo.tetras
      requires newPorts == TouchedPorts(C.PortIds(cylinder.ports), vids)
      modifies cylinder
      ensures cylinder.Valid() && C.SameGeometry(old(cylinder.ports), cylinder.ports)
      ensures Anchored(old(cylinder.ports), cylinder.ports, vids, id)
      ensures old(PortsSound()) ==> PortsSound()
    {
      hide C.OwnersSound, C.AssignedTo, C.CanAssign, Anchored;
      ghost var before := cylinder.ports;
      var k := 0;
      while k < |newPorts|
        invariant 0 <= k <= |newPorts|
        invariant cylinder.Valid() && cylinder.ports == before
        invariant forall j :: 0 <= j < k ==> !C.CanAssign(before, newPorts[j])
      {
        var done := cylinder.AssignSpecificPort(newPorts[k], id);
        if done {
          AnchoredByAssigning(before, vids, newPorts, k, id, topo.tetras.Keys);
          return;
        }
        NothingAssigned(before, newPorts[k], id);
        k := k + 1;
      }
      NotAnchored(before, vids, newPorts, id);
    }

    /** Whether `count` new vertices could be allocated right now. */
    method EnsureVertexIdCapacity(count: nat) returns (ok: bool)
      ensures ok <==> CounterAfter(topo.vertices.Keys, nextVertexId, count).Some?
    {
      var next := nextVertexId;
      var i := 0;
      while i < count
        invariant 0 <= i <= count
        invariant CounterAfter(topo.vertices.Keys, nextVertexId, count)
          == CounterAfter(topo.vertices.Keys, next, count - i)
      {
        var r := NextFreeVertexId(topo.vertices.Keys, next);
        if r.None? {
          return false;
        }
        next := r.value.1;
        i := i + 1;
      }
      ok := true;
    }

    // ---- Ports --------------------------------------------------------------------------------

    /**
     * Give a port to each cluster that has none and can get one. Afterwards every cluster has a port or
     * nothing in its reach is free, so a second pass finds nothing to do.
     */
    method ReseedPorts() returns (n: nat)
      requires Valid()
      modifies this`structureVersion, cylinder
      ensures Valid()
      ensures Reseeding.OnlyAssigned(old(cylinder.ports), cylinder.ports)
      ensures Reseeding.AllSettled(topo.tetras, cylinder.ports)
      ensures Reseeding.AllSettled(topo.tetras, old(cylinder.ports)) ==> n == 0
      ensures n == |Reseeding.HandedOut(old(cylinder.ports), cylinder.ports)|
      ensures Reseeding.OneEach(topo.tetras, old(cylinder.ports), cylinder.ports)
      ensures Reseeding.Passed(topo.tetras, old(cylinder.ports), cylinder.ports)
      ensures n == 0 <==> cylinder.ports == old(cylinder.ports)
      ensures structureVersion == old(structureVersion) + if n > 0 then 1 else 0
      ensures old(PortsSound()) ==> PortsSound()
      ensures Stamped(old(State()), State())
    {
      hide WellFormed, Reseeding.OnlyAssigned, Reseeding.AllSettled, Reseeding.OneEach, Reseeding.Passed,
        C.OwnersSound;
      VertexIndexIsInverse(topo, cylinder.ports);
      n := Reseeding.Reseed(cylinder, topo.tetras, topo.vertexToTetras);
      AssignedSameGeometry(old(cylinder.ports), cylinder.ports);
      WellFormedUnderSameGeometry(topo, old(cylinder.ports), cylinder.ports);
      if n > 0 {
        structureVersion := structureVersion + 1;
      }
    }

    /** After a restart, give each free port to a tetrahedron whose first port it is, if there is one. */
    method RebuildPortOccupancy() returns (n: nat)
      requires Valid()
      modifies this`structureVersion, cylinder
      ensures Valid()
      ensures n == |Anchoring.AnchorPorts(topo.tetras, C.PortIds(cylinder.ports))|
      ensures Anchoring.Reanchored(topo.tetras, old(cylinder.ports), cylinder.ports)
      ensures structureVersion == old(structureVersion) + 1
      ensures old(PortsSound()) ==>
        (PortsSound() <==> !Anchoring.GivesASecondPort(old(cylinder.ports), cylinder.ports))
      ensures Stamped(old(State()), State())
    {
      hide WellFormed, Anchoring.Reanchored, Anchoring.GivesASecondPort, Anchoring.AnchorPorts, C.OwnersSound;
      n := Anchoring.Rebuild(cylinder, topo.tetras);
      WellFormedUnderSameGeometry(topo, old(cylinder.ports), cylinder.ports);
      structureVersion := structureVersion + 1;
    }

    /** Reserve or take a free port of a layer. */
    method AssignCylinderPort(l: C.Layer, t: Id) returns (r: Option<(Id, Point3)>)
      requires Valid()
      modifies cylinder
      ensures Valid()
      ensures var i := C.IndexOfFree(old(cylinder.ports), l);
        if i < |old(cylinder.ports)| then
          && r == Some((old(cylinder.ports)[i].id, old(cylinder.ports)[i].position))
          && cylinder.ports == old(cylinder.ports)[i := old(cylinder.ports)[i].Assign(t)]
        else r == None && cylinder.ports == old(cylinder.ports)
      ensures old(PortsSound()) ==>
        (PortsSound() <==> (r.Some? ==> C.MayTake(old(cylinder.ports), topo.tetras.Keys, t)))
    {
      hide WellFormed, C.OwnersSound;
      var port := cylinder.AssignPort(l, t);
      WellFormedUnderSameGeometry(topo, old(cylinder.ports), cylinder.ports);
      if port.None? {
        return None;
      }
      ghost var i := C.IndexOfFree(old(cylinder.ports), l);
      FreeIsUnowned(old(cylinder.ports), i);
      if old(PortsSound()) {
        C.AssigningKeepsOwnersExactly(old(cylinder.ports), topo.tetras.Keys, i, t);
      }
      C.PortsAreFoundById(cylinder.ports, i);
      return Some((port.value, cylinder.ports[C.IndexOfPort(cylinder.ports, port.value)].position));
    }

    /** Take exactly the named port while it is free. */
    method AssignSpecificPort(port: Id, t: Id) returns (ok: bool)
      requires Valid()
      modifies cylinder
      ensures Valid()
      ensures ok <==> C.CanAssign(old(cylinder.ports), port)
      ensures cylinder.ports == C.AssignedTo(old(cylinder.ports), port, t)
      ensures old(PortsSound()) ==>
        (PortsSound() <==> (ok ==> C.MayTake(old(cylinder.ports), topo.tetras.Keys, t)))
    {
      hide WellFormed, C.OwnersSound;
      ok := cylinder.AssignSpecificPort(port, t);
      WellFormedUnderSameGeometry(topo, old(cylinder.ports), cylinder.ports);
      if ok && old(PortsSound()) {
        ghost var i := C.IndexOfPort(old(cylinder.ports), port);
        FreeIsUnowned(old(cylinder.ports), i);
        C.AssigningKeepsOwnersExactly(old(cylinder.ports), topo.tetras.Keys, i, t);
      }
    }

    /** Complete a placement: the reserved port passes to a tetrahedron that really touches it. */
    method TransferCylinderPortReservation(port: Id, t: Id) returns (ok: bool)
      requires Valid()
      modifies cylinder
      ensures Valid()
      ensures var i := C.IndexOfPort(old(cylinder.ports), port);
        && (ok <==> && t in topo.tetras && port in topo.tetras[t].vertexIds
                    && i < |old(cylinder.ports)| && old(cylinder.ports)[i].owner == Some(C.PORT_RESERVATION_OWNER))
      ensures !ok ==> cylinder.ports == old(cylinder.ports)
      ensures ok ==>
        var i := C.IndexOfPort(old(cylinder.ports), port);
        cylinder.ports == old(cylinder.ports)[i := old(cylinder.ports)[i].Assign(t)]
      ensures old(PortsSound()) ==> (PortsSound() <==> !ok || !C.OwnsPort(old(cylinder.ports), t))
    {
      hide WellFormed, C.OwnersSound;
      if t !in topo.tetras || port !in topo.tetras[t].vertexIds {
        return false;
      }
      ok := cylinder.ReassignSpecificPort(port, C.PORT_RESERVATION_OWNER, t);
      WellFormedUnderSameGeometry(topo, old(cylinder.ports), cylinder.ports);
      if ok && old(PortsSound()) {
        C.AssigningKeepsOwnersExactly(old(cylinder.ports), topo.tetras.Keys, C.IndexOfPort(old(cylinder.ports), port),
                                      t);
      }
    }

    /** Free the port of a tetrahedron. */
    method ReleaseCylinderPort(t: Id)
      requires Valid()
      modifies cylinder
      ensures Valid()
      ensures cylinder.ports == C.Released(old(cylinder.ports), t)
      ensures old(PortsSound()) ==> PortsSound()
    {
      hide WellFormed, C.OwnersSound;
      cylinder.ReleasePort(t);
      WellFormedUnderSameGeometry(topo, old(cylinder.ports), cylinder.ports);
      ghost var i := C.IndexOfOwner(old(cylinder.ports), t);
      if old(PortsSound()) && i < |old(cylinder.ports)| {
        C.ReleasingKeepsOwners(old(cylinder.ports), topo.tetras.Keys, i);
      }
    }

    /** Hand the port of one owner to another; nothing checks whether the new one is live and portless. */
    method ReassignCylinderPort(oldOwner: Id, newOwner: Id) returns (ok: bool)
      requires Valid()
      modifies cylinder
      ensures Valid()
      ensures ok <==> C.OwnsPort(old(cylinder.ports), oldOwner)
      ensures var i := C.IndexOfOwner(old(cylinder.ports), oldOwner);
        cylinder.ports == if ok && i < |old(cylinder.ports)|
          then old(cylinder.ports)[i := old(cylinder.ports)[i].Assign(newOwner)] else old(cylinder.ports)
      ensures newOwner == oldOwner ==> cylinder.ports == old(cylinder.ports)
      ensures old(PortsSound()) && newOwner != oldOwner ==>
        (PortsSound() <==> (ok ==> C.MayTake(old(cylinder.ports), topo.tetras.Keys, newOwner)))
    {
      hide WellFormed, C.OwnersSound;
      ok := cylinder.ReassignPort(oldOwner, newOwner);
      ghost var before, i := old(cylinder.ports), C.IndexOfOwner(old(cylinder.ports), oldOwner);
      if ok {
        C.OwnedIsOccupied(before, i);
      }
      WellFormedUnderSameGeometry(topo, before, cylinder.ports);
      if ok && old(PortsSound()) {
        C.AssigningKeepsOwnersExactly(before, topo.tetras.Keys, i, newOwner);
      }
    }

    /** Give up exactly the named reservation. */
    method ReleaseCylinderPortReservation(port: Id) returns (ok: bool)
      requires Valid()
      modifies cylinder
      ensures Valid()
      ensures var i := C.IndexOfPort(old(cylinder.ports), port);
        && (ok <==> i < |old(cylinder.ports)| && old(cylinder.ports)[i].owner == Some(C.PORT_RESERVATION_OWNER))
        && cylinder.ports == if ok && i < |old(cylinder.ports)|
          then old(cylinder.ports)[i := old(cylinder.ports)[i].Release()] else old(cylinder.ports)
      ensures old(PortsSound()) ==> PortsSound()
    {
      hide WellFormed, C.OwnersSound;
      ok := cylinder.ReleaseSpecificPort(port, C.PORT_RESERVATION_OWNER);
      WellFormedUnderSameGeometry(topo, old(cylinder.ports), cylinder.ports);
      if ok && old(PortsSound()) {
        C.ReleasingKeepsOwners(old(cylinder.ports), topo.tetras.Keys, C.IndexOfPort(old(cylinder.ports), port));
      }
    }

    // ---- Edits of one memory ---------------------------------------------------------------

    /** Store an edited payload and mass; the geometry of the tetrahedron stays. */
    method StoreEdit(id: Id, data: Payload, mass: real)
      requires Valid() && id in topo.tetras
      modifies this`topo
      ensures Valid()
      ensures topo == old(topo).(tetras := old(topo.tetras)[id := old(topo.tetras)[id].(data := data, mass := mass)])
      ensures old(PortsSound()) ==> PortsSound()
    {
      hide WellFormed, C.OwnersSound;
      assert topo.tetras[id].id == id by { PartsOfWellFormed(topo, cylinder.ports); }
      var x := topo.tetras[id].(data := data, mass := mass);
      EditKeepsWellFormed(topo, cylinder.ports, id, x);
      assert topo.tetras[id := x].Keys == topo.tetras.Keys;
      topo := topo.(tetras := topo.tetras[id := x]);
    }

    method UpdateMass(id: Id, delta: real) returns (r: Result<()>)
      requires Valid()
      modifies this`topo
      ensures Valid() && (old(PortsSound()) ==> PortsSound())
      ensures r == if id in old(topo.tetras) then Ok(()) else Err(NotFound)
      ensures r.Err? ==> State() == old(State())
      ensures r.Ok? ==> State() == Edited(old(State()), id, old(topo.tetras)[id].data,
                                          Clamp(old(topo.tetras)[id].mass + delta, MASS_MIN, MASS_MAX), 0, 0)
      ensures Stamped(old(State()), State())
    {
      hide WellFormed, Stamped, C.OwnersSound;
      UnchangedIsStamped(State());
      if id !in topo.tetras {
        return Err(NotFound);
      }
      StoreEdit(id, topo.tetras[id].data, Clamp(topo.tetras[id].mass + delta, MASS_MIN, MASS_MAX));
      EditIsStamped(old(State()), id, topo.tetras[id].data, topo.tetras[id].mass, 0, 0);
      return Ok(());
    }

    /** The setters that touch nothing searchable and no vertex. */
    method UpdateField(id: Id, edit: FieldEdit) returns (r: Result<()>)
      requires Valid()
      modifies this`topo
      ensures Valid() && (old(PortsSound()) ==> PortsSound())
      ensures r == if id in old(topo.tetras) then Ok(()) else Err(NotFound)
      ensures r.Err? ==> State() == old(State())
      ensures r.Ok? ==>
        State() == Edited(old(State()), id, WithField(old(topo.tetras)[id].data, edit), old(topo.tetras)[id].mass, 0, 0)
      ensures Stamped(old(State()), State())
    {
      hide WellFormed, Stamped, C.OwnersSound;
      UnchangedIsStamped(State());
      if id !in topo.tetras {
        return Err(NotFound);
      }
      StoreEdit(id, WithField(topo.tetras[id].data, edit), topo.tetras[id].mass);
      EditIsStamped(old(State()), id, topo.tetras[id].data, topo.tetras[id].mass, 0, 0);
      return Ok(());
    }

    method UpdateAliases(id: Id, aliases: seq<string>) returns (r: Result<()>)
      requires Valid()
      modifies this
      ensures Valid() && (old(PortsSound()) ==> PortsSound())
      ensures r == if id in old(topo.tetras) then Ok(()) else Err(NotFound)
      ensures r.Err? ==> State() == old(State())
      ensures r.Ok? ==>
        State() == Edited(old(State()), id, old(topo.tetras)[id].data.(aliases := aliases), old(topo.tetras)[id].mass,
                          0,
                                          if old(topo.tetras)[id].data.aliases == aliases then 0 else 1)
      ensures Stamped(old(State()), State())
    {
      hide WellFormed, Stamped, C.OwnersSound;
      UnchangedIsStamped(State());
      if id !in topo.tetras {
        return Err(NotFound);
      }
      var x := topo.tetras[id];
      var changed := x.data.aliases != aliases;
      StoreEdit(id, x.data.(aliases := aliases), x.mass);
      if changed {
        searchRevision := searchRevision + 1;
      }
      EditIsStamped(old(State()), id, x.data.(aliases := aliases), x.mass, 0, if changed then 1 else 0);
      return Ok(());
    }

    method UpdatePayload(id: Id, payload: Payload) returns (r: Result<()>)
      requires Valid()
      modifies this
      ensures Valid() && (old(PortsSound()) ==> PortsSound())
      ensures r == if id in old(topo.tetras) then Ok(()) else Err(NotFound)
      ensures r.Err? ==> State() == old(State())
      ensures r.Ok? ==> State() == Edited(old(State()), id, payload, old(topo.tetras)[id].mass, 0,
                                          if SameSearchable(old(topo.tetras)[id].data, payload) then 0 else 1)
      ensures Stamped(old(State()), State())
    {
      hide WellFormed, Stamped, C.OwnersSound;
      UnchangedIsStamped(State());
      if id !in topo.tetras {
        return Err(NotFound);
      }
      var x := topo.tetras[id];
      var changed := x.data.content != payload.content || x.data.aliases != payload.aliases;
      StoreEdit(id, payload, x.mass);
      if changed {
        searchRevision := searchRevision + 1;
      }
      EditIsStamped(old(State()), id, payload, x.mass, 0, if changed then 1 else 0);
      return Ok(());
    }

    method PatchLabels(id: Id, base: seq<string>, desired: seq<string>) returns (r: Result<seq<string>>)
      requires Valid()
      modifies this
      ensures Valid() && (old(PortsSound()) ==> PortsSound())
      ensures r == if id in old(topo.tetras) then Ok(MergeSet(old(topo.tetras)[id].data.labels, base, desired))
        else Err(NotFound)
      ensures r.Err? ==> State() == old(State())
      ensures r.Ok? ==>
        var x := old(topo.tetras)[id];
        var bump := if r.value == x.data.labels then 0 else 1;
        State() == Edited(old(State()), id, x.data.(labels := r.value), x.mass, bump, bump)
      ensures Stamped(old(State()), State())
    {
      hide WellFormed, Stamped, C.OwnersSound;
      UnchangedIsStamped(State());
      if id !in topo.tetras {
        return Err(NotFound);
      }
      var x := topo.tetras[id];
      var labels, changed := MergeSetInPlace(x.data.labels, base, desired);
      StoreEdit(id, x.data.(labels := labels), x.mass);
      if changed {
        structureVersion := structureVersion + 1;
        searchRevision := searchRevision + 1;
      }
      var bump := if changed then 1 else 0;
      EditIsStamped(old(State()), id, x.data.(labels := labels), x.mass, bump, bump);
      return Ok(labels);
    }

    method PatchAliases(id: Id, base: seq<string>, desired: seq<string>) returns (r: Result<seq<string>>)
      requires Valid()
      modifies this
      ensures Valid() && (old(PortsSound()) ==> PortsSound())
      ensures r == if id in old(topo.tetras) then Ok(MergeSet(old(topo.tetras)[id].data.aliases, base, desired))
        else Err(NotFound)
      ensures r.Err? ==> State() == old(State())
      ensures r.Ok? ==>
        var x := old(topo.tetras)[id];
        State() == Edited(old(State()), id, x.data.(aliases := r.value), x.mass, 0,
                          if r.value == x.data.aliases then 0 else 1)
      ensures Stamped(old(State()), State())
    {
      hide WellFormed, Stamped, C.OwnersSound;
      UnchangedIsStamped(State());
      if id !in topo.tetras {
        return Err(NotFound);
      }
      var x := topo.tetras[id];
      var aliases, changed := MergeSetInPlace(x.data.aliases, base, desired);
      StoreEdit(id, x.data.(aliases := aliases), x.mass);
      if changed {
        searchRevision := searchRevision + 1;
      }
      EditIsStamped(old(State()), id, x.data.(aliases := aliases), x.mass, 0, if changed then 1 else 0);
      return Ok(aliases);
    }

    method PatchPayload(id: Id, base: Payload, desired: Payload) returns (r: Result<bool>)
      requires Valid()
      modifies this
      ensures Valid() && (old(PortsSound()) ==> PortsSound())
      ensures r.Ok? <==> id in old(topo.tetras)
      ensures r.Err? ==> r.error == NotFound && State() == old(State())
      ensures r.Ok? ==>
        var x := old(topo.tetras)[id];
        var p := Ops.PatchPayload(x.data, base, desired);
        && r.value == (p.data != x.data)
        && State() == Edited(old(State()), id, p.data, x.mass, if p.labels then 1 else 0,
                               if p.searchable || p.labels then 1 else 0)
      ensures Stamped(old(State()), State())
    {
      hide WellFormed, Stamped, C.OwnersSound, Ops.PatchPayload;
      UnchangedIsStamped(State());
      if id !in topo.tetras {
        return Err(NotFound);
      }
      var x := topo.tetras[id];
      var cell := new Memory(x.data, x.mass);
      var changed, searchable, labels := cell.Patch(base, desired);
      PatchFlagsAndIdempotence(x.data, base, desired);
      StoreEdit(id, cell.data, x.mass);
      if labels {
        structureVersion := structureVersion + 1;
      }
      if searchable || labels {
        searchRevision := searchRevision + 1;
      }
      EditIsStamped(old(State()), id, cell.data, x.mass, if labels then 1 else 0,
                    if searchable || labels then 1 else 0);
      return Ok(changed);
    }

    /** Apply a batch of operations under one lock; the caches are invalidated when the labels changed. */
    method ApplyOps(id: Id, ops: seq<MemoryOp>) returns (r: Result<bool>)
      requires Valid()
      modifies this
      ensures Valid() && (old(PortsSound()) ==> PortsSound())
      ensures r.Ok? <==> id in old(topo.tetras)
      ensures r.Err? ==> r.error == NotFound && State() == old(State())
      ensures r.Ok? ==>
        var x := old(topo.tetras)[id];
        var a := ApplyAll(x.data, x.mass, ops);
        var bump := if a.data.labels == x.data.labels then 0 else 1;
        r.value == a.changed && State() == Edited(old(State()), id, a.data, a.mass, bump, bump)
      ensures Stamped(old(State()), State())
    {
      hide WellFormed, Stamped, C.OwnersSound, Apply;
      UnchangedIsStamped(State());
      if id !in topo.tetras {
        return Err(NotFound);
      }
      var x := topo.tetras[id];
      var cell := new Memory(x.data, x.mass);
      var changed := false;
      var i := 0;
      while i < |ops|
        invariant 0 <= i <= |ops|
        invariant Applied(cell.data, cell.mass, changed) == ApplyAll(x.data, x.mass, ops[..i])
        modifies cell
      {
        assert ops[..i + 1][..i] == ops[..i];
        var c := cell.ApplyOp(ops[i]);
        changed := changed || c;
        i := i + 1;
      }
      assert ops[..i] == ops;
      BatchesOnlyMoveForward(x.data, x.mass, ops);
      StoreEdit(id, cell.data, cell.mass);
      var labelsChanged := |cell.data.labels| != |x.data.labels|;
      if labelsChanged {
        structureVersion := structureVersion + 1;
        searchRevision := searchRevision + 1;
      }
      var bump := if labelsChanged then 1 else 0;
      EditIsStamped(old(State()), id, cell.data, cell.mass, bump, bump);
      return Ok(changed);
    }

    /** Read, modify and write in one lock; the closure itself reports whether it changed anything. */
    method WithTetraMut(id: Id, f: Payload -> (Payload, bool)) returns (r: Result<()>)
      requires Valid()
      modifies this
      ensures Valid() && (old(PortsSound()) ==> PortsSound())
      ensures r == if id in old(topo.tetras) then Ok(()) else Err(NotFound)
      ensures r.Err? ==> State() == old(State())
      ensures r.Ok? ==>
        var x := old(topo.tetras)[id];
        var bump := if f(x.data).1 then 1 else 0;
        State() == Edited(old(State()), id, f(x.data).0, x.mass, bump, bump)
      ensures Stamped(old(State()), State())
         <==> (r.Ok? ==>
            f(old(topo.tetras)[id].data).1 || SameSearchable(old(topo.tetras)[id].data, f(old(topo.tetras)[id].data).0))
    {
      hide WellFormed, Stamped, C.OwnersSound;
      UnchangedIsStamped(State());
      if id !in topo.tetras {
        return Err(NotFound);
      }
      var x := topo.tetras[id];
      var (data, changed) := f(x.data);
      StoreEdit(id, data, x.mass);
      if changed {
        structureVersion := structureVersion + 1;
        searchRevision := searchRevision + 1;
      }
      var bump := if changed then 1 else 0;
      EditIsStamped(old(State()), id, data, x.mass, bump, bump);
      return Ok(());
    }

    /** The candidates as they are now, but only if the corpus still has this revision. */
    method GetTetrahedronsByIdsAtSearchRevision(ids: set<Id>, revision: nat) returns (r: Option<map<Id, Tetra>>)
      ensures r == if revision != searchRevision then None else Some(Candidates(topo.tetras, ids))
    {
      if searchRevision != revision {
        return None;
      }
      return Some(Candidates(topo.tetras, ids));
    }

    /** After a restart: continue above the identifiers in use. */
    method RestoreCounters()
      requires Valid()
      modifies this`nextVertexId, this`nextTetraId
      ensures Valid() && (old(PortsSound()) ==> PortsSound())
      ensures IsSuccessor(topo.tetras.Keys, 1, nextTetraId)
      ensures IsSuccessor(topo.vertices.Keys - C.PortIds(cylinder.ports), 0, nextVertexId)
      ensures forall t :: t in topo.tetras ==> t < nextTetraId
      ensures Stamped(old(State()), State())
    {
      hide WellFormed, C.OwnersSound, Largest;
      nextTetraId := AboveAll(topo.tetras.Keys, 1);
      nextVertexId := AboveAll(topo.vertices.Keys - C.PortIds(cylinder.ports), 0);
    }
  }

  lemma LayoutIsFresh(layout: seq<C.Port>, staged: Staged)
    requires C.DistinctIds(layout) && |staged| == |layout|
    requires forall i :: 0 <= i < |layout| ==> staged[i] == (layout[i].id, layout[i].position)
    ensures FreshIds(map[], staged) && Exact(map[], VertexCells(map[]))
  {
  }

  lemma UnownedIsSound(layout: seq<C.Port>)
    requires forall p :: p in layout ==> p.owner == None
    ensures C.OwnersSound(layout, {})
  {
    assert forall i :: 0 <= i < |layout| ==> layout[i] in layout;
  }

  lemma EmptySpaceIsWellFormed(layout: seq<C.Port>, staged: Staged, vs: map<Id, Point3>, grid: map<Cell, seq<Id>>)
    requires C.DistinctIds(layout) && |staged| == |layout|
    requires forall i :: 0 <= i < |layout| ==> staged[i] == (layout[i].id, layout[i].position)
    requires forall i, j :: 0 <= i < j < |layout| ==> !Near(layout[i].position, layout[j].position)
    requires IsExtension(map[], staged, vs) && Exact(grid, VertexCells(vs))
    ensures WellFormed(Topo(vs, map[], map[], map[], map[], grid, map[]), layout)
  {
    LayoutIsSeparated(layout, staged, vs);
    LayoutIsStored(layout, staged, vs);
    hide Near, IsExtension, Separated, PortsPlaced, C.PortIds, VertexCells;
    NoTetrasNoEntries();
  }

  lemma LayoutIsSeparated(layout: seq<C.Port>, staged: Staged, vs: map<Id, Point3>)
    requires |staged| == |layout| && IsExtension(map[], staged, vs)
    requires forall i :: 0 <= i < |layout| ==> staged[i] == (layout[i].id, layout[i].position)
    requires forall i, j :: 0 <= i < j < |layout| ==> !Near(layout[i].position, layout[j].position)
    ensures Separated(vs)
  {
    hide Near;
    forall u, v | u in vs && v in vs && u != v
      ensures !Near(vs[u], vs[v])
    {
      var i :| 0 <= i < |staged| && staged[i].0 == u;
      var j :| 0 <= j < |staged| && staged[j].0 == v;
      NearSymmetric(layout[i].position, layout[j].position);
    }
  }

  lemma LayoutIsStored(layout: seq<C.Port>, staged: Staged, vs: map<Id, Point3>)
    requires |staged| == |layout| && IsExtension(map[], staged, vs)
    requires forall i :: 0 <= i < |layout| ==> staged[i] == (layout[i].id, layout[i].position)
    ensures forall v: Id :: v in vs <==> v in C.PortIds(layout)
    ensures PortsPlaced(vs, layout)
  {
    forall v: Id
      ensures v in vs <==> v in C.PortIds(layout)
    {
      if v in vs {
        var i :| 0 <= i < |staged| && staged[i].0 == v;
        assert layout[i] in layout && layout[i].id == v;
      }
      if v in C.PortIds(layout) {
        var p :| p in layout && p.id == v;
        var i :| 0 <= i < |layout| && layout[i] == p;
        assert staged[i].0 == v;
      }
    }
    forall p | p in layout
      ensures p.id in vs && vs[p.id] == p.position
    {
      var i :| 0 <= i < |layout| && layout[i] == p;
      assert staged[i] == (p.id, p.position);
    }
  }

  lemma NoTetrasNoEntries()
    ensures Exact(map[], VertexUses(map[])) && Exact(map[], EdgeUses(map[])) && Exact(map[], FaceUses(map[]))
    ensures Exact(map[], CoreCells(map[]))
  {
  }

  lemma PartsOfWellFormed(t: Topo, ports: seq<C.Port>)
    requires WellFormed(t, ports)
    ensures TetrasOk(t.tetras) && IndexesExact(t) && VerticesExact(t, C.PortIds(ports))
  {
  }

  lemma WellFormedUnderSameGeometry(t: Topo, ports: seq<C.Port>, ports': seq<C.Port>)
    requires WellFormed(t, ports) && C.SameGeometry(ports, ports')
    ensures WellFormed(t, ports')
  {
    hide Exact, Separated, InUse;
    C.SameGeometrySameIds(ports, ports');
    forall p | p in ports'
      ensures p.id in t.vertices && t.vertices[p.id] == p.position
    {
      var i :| 0 <= i < |ports'| && ports'[i] == p;
      assert ports[i] in ports;
    }
  }

  /** When `t` departs and its port is handed over, ownership stays sound for those that remain. */
  lemma DepartureKeepsOwners(before: seq<C.Port>, after: seq<C.Port>, tetras: map<Id, Tetra>, tetras': map<Id, Tetra>,
                             v2t: map<Id, seq<Id>>, t: Id)
    requires tetras'.Keys == tetras.Keys || tetras'.Keys == tetras.Keys - {t}
    requires t != C.PORT_RESERVATION_OWNER
    requires if C.OwnsPort(before, t)
             then HandedOver(before, after, tetras', v2t, t) || (after == before && t in tetras')
             else after == before
    ensures C.SameGeometry(before, after)
    ensures C.OwnersSound(before, tetras.Keys) ==> C.OwnersSound(after, tetras'.Keys)
  {
    if C.OwnersSound(before, tetras.Keys) {
      if HandedOver(before, after, tetras', v2t, t) {
        var i := C.IndexOfOwner(before, t);
        var released := before[i := before[i].Release()];
        C.ReleasingKeepsOwners(before, tetras.Keys, i);
        forall j | 0 <= j < |before|
          ensures released[j].owner != Some(t)
        {
        }
        assert C.OwnersSound(released, tetras'.Keys);
        if u :| PortlessToucher(before, i, tetras', u) && after == before[i := before[i].Assign(u)] {
          assert after == released[i := released[i].Assign(u)];
          C.AssigningKeepsOwnersExactly(released, tetras'.Keys, i, u);
        }
      }
    }
  }

  lemma RemovalLeavesCapacity(vertices: map<Id, Point3>, vertices': map<Id, Point3>, n: Id, ps: seq<Point3>)
    requires vertices'.Keys <= vertices.Keys && |ps| == 4
    requires CounterAfter(vertices.Keys, n, 4).Some?
    ensures CounterAfter(vertices'.Keys, n, MissingCount(vertices', ps)).Some?
  {
    MissingCountMonotone(vertices', ps, 4);
    AllocationIsMonotone(vertices.Keys, n, 4, vertices'.Keys, n, MissingCount(vertices', ps));
  }

  lemma InsertedOnto(base: Topo, base': Topo, after: Topo, x: Tetra, ps: seq<Point3>)
    requires |ps| == 4 && Inserted(base, after, x, ps)
    requires base.tetras == base'.tetras && base.vertices == base'.vertices
    ensures Inserted(base', after, x, ps)
  {
  }

  /** The ports among the corners are tried in order, so the first that can be assigned is the first free one. */
  lemma AnchoredByAssigning(ports: seq<C.Port>, vids: seq<Id>, newPorts: seq<Id>, n: nat, t: Id, live: set<Id>)
    requires C.DistinctIds(ports) && newPorts == TouchedPorts(C.PortIds(ports), vids) && n < |newPorts|
    requires C.CanAssign(ports, newPorts[n]) && forall j :: 0 <= j < n ==> !C.CanAssign(ports, newPorts[j])
    requires !C.OwnsPort(ports, t) && t in live
    ensures Anchored(ports, C.AssignedTo(ports, newPorts[n], t), vids, t)
    ensures C.SameGeometry(ports, C.AssignedTo(ports, newPorts[n], t))
    ensures C.OwnersSound(ports, live) ==> C.OwnersSound(C.AssignedTo(ports, newPorts[n], t), live)
  {
    var portIds := C.PortIds(ports);
    var k := C.IndexOfPort(ports, newPorts[n]);
    if C.OwnersSound(ports, live) {
      C.AssigningKeepsOwnersExactly(ports, live, k, t);
    }
    var c := FilterInOrder(vids, v => v in portIds, n);
    forall m, d | 0 <= m < |ports| && 0 <= d < c && ports[m].id == vids[d]
      ensures !ports[m].IsFree()
    {
      assert ports[m] in ports && vids[d] in portIds;
      var e :| 0 <= e < n && newPorts[e] == vids[d];
      C.PortsAreFoundById(ports, m);
    }
    assert FirstFreeCorner(ports, vids, k);
  }

  lemma OwnsStill(before: seq<C.Port>, i: nat, u: Id)
    requires i < |before| && C.OwnsPort(before[i := before[i].Release()], u)
    ensures exists k :: 0 <= k < |before| && k != i && before[k].owner == Some(u)
  {
    var released := before[i := before[i].Release()];
    var k :| 0 <= k < |released| && released[k].owner == Some(u);
    assert before[k] == released[k];
  }

  lemma AlreadyAnchored(ports: seq<C.Port>, vids: seq<Id>, t: Id)
    requires C.OwnsPort(ports, t)
    ensures Anchored(ports, ports, vids, t) && C.SameGeometry(ports, ports)
  {
  }

  lemma MoveAccounted(before: seq<C.Port>, mid: seq<C.Port>, after: seq<C.Port>, tetras: map<Id, Tetra>,
                      v2t: map<Id, seq<Id>>, oldVids: seq<Id>, t: Id)
    requires t in tetras && Anchored(mid, after, tetras[t].vertexIds, t)
    requires if LeavesItsPort(before, oldVids, tetras[t].vertexIds, t) then HandedOver(before, mid, tetras, v2t, t)
      else mid == before
    ensures PortsAfterMove(before, after, tetras, v2t, oldVids, t)
  {
    hide HandedOver, Anchored, LeavesItsPort;
  }

  lemma UnchangedIsStamped(a: Snapshot)
    ensures Stamped(a, a)
  {
  }

  lemma EditKeepsWellFormed(t: Topo, ports: seq<C.Port>, id: Id, x: Tetra)
    requires WellFormed(t, ports) && id in t.tetras
    requires x.id == id && x.vertexIds == t.tetras[id].vertexIds && x.core == t.tetras[id].core
    ensures WellFormed(t.(tetras := t.tetras[id := x]), ports)
  {
    hide Exact, Elems, EdgeKeys, FaceKeys, GridKey, NoDup, Separated;
    var tetras' := t.tetras[id := x];
    assert VertexUses(tetras') == VertexUses(t.tetras);
    assert EdgeUses(tetras') == EdgeUses(t.tetras);
    assert FaceUses(tetras') == FaceUses(t.tetras);
    assert CoreCells(tetras') == CoreCells(t.tetras);
    forall v: Id
      ensures InUse(tetras', v) <==> InUse(t.tetras, v)
    {
      if InUse(t.tetras, v) {
        var a :| a in t.tetras && v in t.tetras[a].vertexIds;
        assert a in tetras' && v in tetras'[a].vertexIds;
      }
    }
  }

  /** An edit respects the stamps exactly when it advances the search revision or leaves the searched fields alone. */
  lemma EditIsStamped(a: Snapshot, id: Id, data: Payload, mass: real, structure: nat, search: nat)
    requires id in a.topo.tetras
    ensures Stamped(a, Edited(a, id, data, mass, structure, search))
       <==> search > 0 || SameSearchable(a.topo.tetras[id].data, data)
  {
    var b := Edited(a, id, data, mass, structure, search);
    assert Shape(a) == Shape(b);
    if SameSearchable(a.topo.tetras[id].data, data) {
      assert Corpus(a) == Corpus(b);
    } else {
      assert Corpus(a)[id] != Corpus(b)[id];
    }
  }

  /** A run of mutations, each respecting the stamps. */
  ghost predicate IsRun(run: seq<Snapshot>) {
    forall i :: 0 <= i < |run| - 1 ==> Stamped(run[i], run[i + 1])
  }

  /** Within a run, states with equal stamps agree on everything the stamp stands for. */
  lemma {:induction false} StampsIdentifyStates(run: seq<Snapshot>, i: nat, j: nat)
    requires IsRun(run) && i <= j < |run|
    ensures run[i].searchRevision <= run[j].searchRevision && run[i].structureVersion <= run[j].structureVersion
    ensures run[i].searchRevision == run[j].searchRevision ==> Corpus(run[i]) == Corpus(run[j])
    ensures run[i].structureVersion == run[j].structureVersion ==> Shape(run[i]) == Shape(run[j])
    decreases j
  {
    hide Corpus, Shape;
    if i < j {
      StampsIdentifyStates(run, i, j - 1);
      assert Stamped(run[j - 1], run[j - 1 + 1]);
    }
  }

  /**
   * A cache built from the corpus at one point of a run, and candidates read at a later point under the
   * revision of that cache, describe the same texts: the two corpora never mix.
   */
  lemma CandidatesMatchTheCache(run: seq<Snapshot>, i: nat, j: nat, ids: set<Id>)
    requires IsRun(run) && i <= j < |run|
    requires run[i].searchRevision == run[j].searchRevision
    ensures forall t :: t in ids ==> (t in run[j].topo.tetras <==> t in Corpus(run[i]))
    ensures forall t :: t in ids && t in run[j].topo.tetras ==>
      Corpus(run[i])[t] == (run[j].topo.tetras[t].data.content, run[j].topo.tetras[t].data.aliases)
  {
    StampsIdentifyStates(run, i, j);
    assert forall t :: t in run[j].topo.tetras <==> t in Corpus(run[j]);
  }

  lemma MoveIsStamped(a: Snapshot, b: Snapshot, id: Id)
    requires id in a.topo.tetras && id in b.topo.tetras
    requires b.topo.tetras == a.topo.tetras[id := b.topo.tetras[id]] && b.topo.tetras[id].data == a.topo.tetras[id].data
    requires b.searchRevision == a.searchRevision && b.structureVersion == a.structureVersion + 1
    ensures Stamped(a, b)
  {
  }

  lemma NothingAssigned(ports: seq<C.Port>, port: Id, t: Id)
    requires !C.CanAssign(ports, port)
    ensures C.AssignedTo(ports, port, t) == ports
  {
  }

  lemma NewPortsAreTheTouchedOnes(ports: seq<C.Port>, vids: seq<Id>, newPorts: seq<Id>)
    requires newPorts == TouchedPorts(C.PortIds(ports), vids)
    ensures newPorts != [] <==> TouchesAPort(ports, vids)
    ensures forall k :: 0 <= k < |ports| ==> (ports[k].id in newPorts <==> ports[k].id in vids)
  {
    forall k | 0 <= k < |ports|
      ensures ports[k].id in newPorts <==> ports[k].id in vids
    {
      assert ports[k] in ports;
    }
    if newPorts != [] {
      assert newPorts[0] in newPorts;
      var p :| p in ports && p.id == newPorts[0];
      var k :| 0 <= k < |ports| && ports[k] == p;
    }
  }

  lemma NotAnchored(ports: seq<C.Port>, vids: seq<Id>, newPorts: seq<Id>, t: Id)
    requires C.DistinctIds(ports) && newPorts == TouchedPorts(C.PortIds(ports), vids)
    requires forall j :: 0 <= j < |newPorts| ==> !C.CanAssign(ports, newPorts[j])
    ensures Anchored(ports, ports, vids, t)
  {
    forall k | 0 <= k < |ports| && ports[k].id in vids
      ensures !ports[k].IsFree()
    {
      assert ports[k] in ports;
      assert ports[k].id in newPorts;
      C.PortsAreFoundById(ports, k);
    }
  }

  lemma TouchersAreListed(t: Topo, ports: seq<C.Port>, v: Id)
    requires WellFormed(t, ports)
    ensures forall u ::
      u in t.tetras && v in t.tetras[u].vertexIds <==> v in t.vertexToTetras && u in t.vertexToTetras[v]
  {
    assert Exact(t.vertexToTetras, VertexUses(t.tetras));
    ExactVertexIndex(t.vertexToTetras, t.tetras, v);
  }

  lemma ExactVertexIndex(v2t: map<Id, seq<Id>>, tetras: map<Id, Tetra>, v: Id)
    requires Exact(v2t, VertexUses(tetras))
    ensures forall u :: u in tetras && v in tetras[u].vertexIds <==> v in v2t && u in v2t[v]
  {
    var uses := VertexUses(tetras);
    forall u
      ensures u in tetras && v in tetras[u].vertexIds <==> v in v2t && u in v2t[v]
    {
      if u in tetras && v in tetras[u].vertexIds {
        assert u in uses && v in uses[u];
      }
      if v in v2t && u in v2t[v] {
        assert u in uses && v in uses[u];
      }
    }
  }

  lemma FreeIsUnowned(ports: seq<C.Port>, i: nat)
    requires C.StatusMatchesOwner(ports) && i < |ports| && ports[i].IsFree()
    ensures ports[i].owner == None
  {
    assert ports[i] in ports;
  }

  lemma AssignedSameGeometry(before: seq<C.Port>, after: seq<C.Port>)
    requires Reseeding.OnlyAssigned(before, after)
    ensures C.SameGeometry(before, after)
  {
  }

  /** A well-formed space provides what the search for clusters needs. */
  lemma VertexIndexIsInverse(t: Topo, ports: seq<C.Port>)
    requires WellFormed(t, ports)
    ensures Clusters.Inverse(Reseeding.VertsOf(t.tetras), t.vertexToTetras)
  {
    hide WellFormed;
    var tv := Reseeding.VertsOf(t.tetras);
    forall v, u
      ensures u in tv && v in tv[u] <==> v in t.vertexToTetras && u in t.vertexToTetras[v]
    {
      TouchersAreListed(t, ports, v);
    }
  }

  lemma NearSymmetric(p: Point3, q: Point3)
    ensures Near(p, q) == Near(q, p)
  {
    DistanceSymmetric(p, q);
  }

  lemma PlacementMeansInserted(before: Topo, after: Topo, x: Tetra, ps: seq<Point3>, staged: Staged)
    requires |ps| == 4 && Placed(before.vertices, ps, x.vertexIds, staged) && FreshIds(before.vertices, staged)
    requires IsExtension(before.vertices, staged, after.vertices) && after.tetras == before.tetras[x.id := x]
    ensures Inserted(before, after, x, ps)
  {
    forall i | 0 <= i < 4 && !Merged(before.vertices, ps[i], x.vertexIds[i])
      ensures IsNewVertex(before.vertices, after.vertices, ps[i], x.vertexIds[i])
    {
      var k :| 0 <= k < |staged| && staged[k] == (x.vertexIds[i], ps[i]);
    }
  }

  lemma InsertedTetras(before: Topo, after: Topo, x: Tetra, ps: seq<Point3>)
    requires |ps| == 4 && Inserted(before, after, x, ps)
    ensures after.tetras == before.tetras[x.id := x]
  {
  }
}
