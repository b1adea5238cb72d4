/** The topology held by the space: vertices, tetrahedra and the indexes over them, with their invariant. */
module Topology {
  import opened Prelude
  import opened Geometry
  import opened Index
  import opened Ops
  import C = Cylinder

  datatype Tetra = Tetra(id: Id, vertexIds: seq<Id>, core: Point3, data: Payload, mass: real)

  datatype Topo = Topo(
    vertices: map<Id, Point3>,
    tetras: map<Id, Tetra>,
    edgeTable: map<(Id, Id), seq<Id>>,
    faceTable: map<(Id, Id, Id), seq<Id>>,
    vertexToTetras: map<Id, seq<Id>>,
    vertexGrid: map<Cell, seq<Id>>,
    tetraGrid: map<Cell, seq<Id>>)

  function OrderedPair(a: Id, b: Id): (Id, Id) {
    if a < b then (a, b) else (b, a)
  }

  function Sort3(a: Id, b: Id, c: Id): (Id, Id, Id) {
    var (a, b) := OrderedPair(a, b);
    var (b, c) := OrderedPair(b, c);
    var (a, b) := OrderedPair(a, b);
    (a, b, c)
  }

  /** The six edges of a tetrahedron, each as an ordered pair. */
  function EdgeKeys(v: seq<Id>): seq<(Id, Id)> {
    if |v| != 4 then []
    else
      [ OrderedPair(v[0], v[1]), OrderedPair(v[0], v[2]), OrderedPair(v[0], v[3]),
        OrderedPair(v[1], v[2]), OrderedPair(v[1], v[3]), OrderedPair(v[2], v[3]) ]
  }

  /** The four faces of a tetrahedron, each as a sorted triple. */
  function FaceKeys(v: seq<Id>): seq<(Id, Id, Id)> {
    if |v| != 4 then []
    else [ Sort3(v[0], v[2], v[1]), Sort3(v[0], v[1], v[3]), Sort3(v[0], v[3], v[2]), Sort3(v[1], v[2], v[3]) ]
  }

  lemma Sort3Elems(a: Id, b: Id, c: Id)
    ensures var (x, y, z) := Sort3(a, b, c); x <= y <= z && {x, y, z} == {a, b, c}
  {
  }

  lemma KeysAreDistinct(v: seq<Id>)
    requires |v| == 4 && NoDup(v)
    ensures NoDup(EdgeKeys(v)) && NoDup(FaceKeys(v))
  {
    Sort3Elems(v[0], v[2], v[1]);
    Sort3Elems(v[0], v[1], v[3]);
    Sort3Elems(v[0], v[3], v[2]);
    Sort3Elems(v[1], v[2], v[3]);
    assert v[3] !in {v[0], v[2], v[1]} && v[2] !in {v[0], v[1], v[3]};
    assert v[1] !in {v[0], v[3], v[2]} && v[0] !in {v[1], v[2], v[3]};
  }

  // ---- What each index has to list -------------------------------------------------

  ghost function VertexUses(tetras: map<Id, Tetra>): map<Id, set<Id>> {
    map t | t in tetras :: Elems(tetras[t].vertexIds)
  }

  ghost function EdgeUses(tetras: map<Id, Tetra>): map<Id, set<(Id, Id)>> {
    map t | t in tetras :: Elems(EdgeKeys(tetras[t].vertexIds))
  }

  ghost function FaceUses(tetras: map<Id, Tetra>): map<Id, set<(Id, Id, Id)>> {
    map t | t in tetras :: Elems(FaceKeys(tetras[t].vertexIds))
  }

  ghost function CoreCells(tetras: map<Id, Tetra>): map<Id, set<Cell>> {
    map t | t in tetras :: {GridKey(tetras[t].core)}
  }

  ghost function VertexCells(vertices: map<Id, Point3>): map<Id, set<Cell>> {
    map v | v in vertices :: {GridKey(vertices[v])}
  }

  ghost predicate InUse(tetras: map<Id, Tetra>, v: Id) {
    exists t :: t in tetras && v in tetras[t].vertexIds
  }

  ghost predicate TetrasOk(tetras: map<Id, Tetra>) {
    forall t :: t in tetras ==> tetras[t].id == t && |tetras[t].vertexIds| == 4 && NoDup(tetras[t].vertexIds)
  }

  /** All five indexes list each owner exactly once under precisely its keys, and hold no empty entry. */
  ghost predicate IndexesExact(t: Topo) {
    && Exact(t.vertexToTetras, VertexUses(t.tetras))
    && Exact(t.edgeTable, EdgeUses(t.tetras))
    && Exact(t.faceTable, FaceUses(t.tetras))
    && Exact(t.tetraGrid, CoreCells(t.tetras))
    && Exact(t.vertexGrid, VertexCells(t.vertices))
  }

  /** The stored vertices are the ports and the vertices that some tetrahedron uses: no orphans, none missing. */
  ghost predicate VerticesExact(t: Topo, portIds: set<Id>) {
    forall v: Id :: v in t.vertices <==> v in portIds || InUse(t.tetras, v)
  }

  /** No two stored vertices are within the merge distance. */
  ghost predicate Separated(vertices: map<Id, Point3>) {
    forall u, v :: u in vertices && v in vertices && u != v ==> !Near(vertices[u], vertices[v])
  }

  ghost predicate PortsPlaced(vertices: map<Id, Point3>, ports: seq<C.Port>) {
    forall p :: p in ports ==> p.id in vertices && vertices[p.id] == p.position
  }

  ghost predicate WellFormed(t: Topo, ports: seq<C.Port>) {
    && TetrasOk(t.tetras)
    && IndexesExact(t)
    && VerticesExact(t, C.PortIds(ports))
    && Separated(t.vertices)
    && PortsPlaced(t.vertices, ports)
  }

  // ---- Finding a vertex ---------------------------------------------------------------

  ghost predicate HasNear(vertices: map<Id, Point3>, p: Point3) {
    exists v :: v in vertices && Near(vertices[v], p)
  }

  /** Search the 27 cells around `p`, in order, for a vertex within the merge distance. */
  method FindVertex(vertices: map<Id, Point3>, vertexGrid: map<Cell, seq<Id>>, p: Point3) returns (found: Option<Id>)
    requires Exact(vertexGrid, VertexCells(vertices))
    ensures found.Some? ==> found.value in vertices && Near(vertices[found.value], p)
    ensures found.Some? <==> HasNear(vertices, p)
  {
    var keys := NearbyKeys(GridKey(p));
    found := None;
    var i := 0;
    while i < |keys|
      invariant 0 <= i <= |keys|
      invariant forall k, v :: k in keys[..i] && k in vertexGrid && v in vertexGrid[k] && v in vertices
                          ==> !Near(vertices[v], p)
    {
      if keys[i] in vertexGrid {
        var vids := vertexGrid[keys[i]];
        var j := 0;
        while j < |vids|
          invariant 0 <= j <= |vids|
          invariant forall v :: v in vids[..j] && v in vertices ==> !Near(vertices[v], p)
        {
          if vids[j] in vertices && Near(vertices[vids[j]], p) {
            return Some(vids[j]);
          }
          j := j + 1;
        }
        assert vids[..j] == vids;
      }
      i := i + 1;
    }
    assert keys[..i] == keys;
    forall v | v in vertices
      ensures !Near(vertices[v], p)
    {
      if Near(vertices[v], p) {
        NearIsInTheBlock(vertices, vertexGrid, v, p);
      }
    }
  }

  /** The block around a point lists every vertex within the merge distance of it, wherever it is stored. */
  lemma NearIsInTheBlock(vertices: map<Id, Point3>, vertexGrid: map<Cell, seq<Id>>, v: Id, p: Point3)
    requires Exact(vertexGrid, VertexCells(vertices))
    requires v in vertices && Near(vertices[v], p)
    ensures var k := GridKey(vertices[v]); k in NearbyKeys(GridKey(p)) && k in vertexGrid && v in vertexGrid[k]
  {
    var k := GridKey(vertices[v]);
    assert VertexCells(vertices)[v] == {k};
    DistanceSymmetric(vertices[v], p);
    CloserThanACellIsAdjacent(p, vertices[v]);
    NearbyKeysAreTheAdjacentCells(GridKey(p), k);
  }

  // ---- Storing new vertices -------------------------------------------------------------

  type Staged = seq<(Id, Point3)>

  ghost predicate FreshIds(vertices: map<Id, Point3>, staged: Staged) {
    && (forall i :: 0 <= i < |staged| ==> staged[i].0 !in vertices)
    && (forall i, j :: 0 <= i < j < |staged| ==> staged[i].0 != staged[j].0)
  }

  ghost predicate IsExtension(vertices: map<Id, Point3>, staged: Staged, vertices': map<Id, Point3>) {
    && (forall v :: v in vertices ==> v in vertices' && vertices'[v] == vertices[v])
    && (forall i :: 0 <= i < |staged| ==> staged[i].0 in vertices' && vertices'[staged[i].0] == staged[i].1)
    && (forall v :: v in vertices' ==> v in vertices || exists i :: 0 <= i < |staged| && staged[i].0 == v)
  }

  lemma CellsOfExtension(vertices: map<Id, Point3>, v: Id, p: Point3)
    requires v !in vertices
    ensures VertexCells(vertices[v := p]) == VertexCells(vertices)[v := {} + {GridKey(p)}]
  {
    var a, b := VertexCells(vertices[v := p]), VertexCells(vertices)[v := {} + {GridKey(p)}];
    assert {} + {GridKey(p)} == {GridKey(p)};
    assert a.Keys == b.Keys;
    assert forall u :: u in a ==> a[u] == b[u];
  }

  method StoreVertices(vertices0: map<Id, Point3>, grid0: map<Cell, seq<Id>>, staged: Staged)
    returns (vertices: map<Id, Point3>, grid: map<Cell, seq<Id>>)
    requires Exact(grid0, VertexCells(vertices0)) && FreshIds(vertices0, staged)
    ensures IsExtension(vertices0, staged, vertices)
    ensures Exact(grid, VertexCells(vertices))
  {
    hide Exact, VertexCells, GridKey, IsExtension, FreshIds, Push;
    vertices, grid := vertices0, grid0;
    NothingStored(vertices0);
    var i := 0;
    assert staged[..0] == [];
    while i < |staged|
      invariant 0 <= i <= |staged|
      invariant IsExtension(vertices0, staged[..i], vertices)
      invariant Exact(grid, VertexCells(vertices))
    {
      var (v, p) := staged[i];
      StoredOneMore(vertices0, staged, i, vertices);
      NewVertexIsListed(grid, vertices, v, p);
      vertices := vertices[v := p];
      grid := Push(grid, GridKey(p), v);
      i := i + 1;
    }
    assert staged[..i] == staged;
  }

  lemma NothingStored(vertices: map<Id, Point3>)
    ensures IsExtension(vertices, [], vertices)
  {
  }

  lemma StoredOneMore(vertices0: map<Id, Point3>, staged: Staged, i: nat, vertices: map<Id, Point3>)
    requires FreshIds(vertices0, staged) && i < |staged| && IsExtension(vertices0, staged[..i], vertices)
    ensures staged[i].0 !in vertices
    ensures IsExtension(vertices0, staged[..i + 1], vertices[staged[i].0 := staged[i].1])
  {
    var next, vertices' := staged[..i + 1], vertices[staged[i].0 := staged[i].1];
    assert forall j :: 0 <= j < i ==> staged[..i][j] == staged[j] == next[j];
    assert next[i] == staged[i];
    forall v | v in vertices' && v !in vertices0 ensures exists j :: 0 <= j < |next| && next[j].0 == v {
      if v != staged[i].0 {
        var j :| 0 <= j < i && staged[..i][j].0 == v;
        assert next[j].0 == v;
      } else {
        assert next[i].0 == v;
      }
    }
  }

  lemma NewVertexIsListed(grid: map<Cell, seq<Id>>, vertices: map<Id, Point3>, v: Id, p: Point3)
    requires Exact(grid, VertexCells(vertices)) && v !in vertices
    ensures Exact(Push(grid, GridKey(p), v), VertexCells(vertices[v := p]))
  {
    hide GridKey;
    assert v !in VertexCells(vertices);
    hide Exact, VertexCells, Push;
    PushExact(grid, VertexCells(vertices), GridKey(p), v);
    CellsOfExtension(vertices, v, p);
  }
}
