/** How an inserted tetrahedron finds its vertices, and why the topology invariant survives insertion and removal. */
module Placement {
  import opened Prelude
  import opened Geometry
  import opened Index
  import opened VertexIds
  import opened Topology
  import C = Cylinder

  // ---- Choosing the vertices ---------------------------------------------------------

  /** How many corners have no stored vertex within the merge distance. */
  ghost function MissingCount(vertices: map<Id, Point3>, ps: seq<Point3>): nat {
    if ps == [] then 0
    else MissingCount(vertices, ps[..|ps| - 1]) + (if HasNear(vertices, ps[|ps| - 1]) then 0 else 1)
  }

  lemma {:induction false} MissingCountMonotone(vertices: map<Id, Point3>, ps: seq<Point3>, n: nat)
    requires n <= |ps|
    ensures MissingCount(vertices, ps[..n]) <= MissingCount(vertices, ps) <= |ps|
    decreases |ps|
  {
    if n < |ps| {
      assert ps[..|ps| - 1][..n] == ps[..n];
      MissingCountMonotone(vertices, ps[..|ps| - 1], n);
    } else {
      assert ps[..n] == ps;
      if ps != [] {
        MissingCountMonotone(vertices, ps[..|ps| - 1], 0);
      }
    }
  }

  /** Corner `p` got vertex `v`: a stored one it merges with, or a new one at `p` when none is near. */
  ghost predicate Merged(vertices: map<Id, Point3>, p: Point3, v: Id) {
    v in vertices && Near(vertices[v], p)
  }

  ghost predicate Placed(vertices: map<Id, Point3>, ps: seq<Point3>, vids: seq<Id>, staged: Staged) {
    && |vids| == |ps|
    && (forall i :: 0 <= i < |ps| ==>
          Merged(vertices, ps[i], vids[i]) || (!HasNear(vertices, ps[i]) && (vids[i], ps[i]) in staged))
    && (forall s :: s in staged ==>
          exists i :: 0 <= i < |ps| && vids[i] == s.0 && ps[i] == s.1 && !HasNear(vertices, ps[i]))
  }

  method PlaceVertices(vertices: map<Id, Point3>, vertexGrid: map<Cell, seq<Id>>, next0: Id, ps: seq<Point3>)
    returns (r: Option<(seq<Id>, Staged, Id)>)
    requires Exact(vertexGrid, VertexCells(vertices))
    ensures r.Some? <==> CounterAfter(vertices.Keys, next0, MissingCount(vertices, ps)).Some?
    ensures r.Some? ==> Placed(vertices, ps, r.value.0, r.value.1) && FreshIds(vertices, r.value.1)
    ensures r.Some? ==> Some(r.value.2) == CounterAfter(vertices.Keys, next0, MissingCount(vertices, ps))
  {
    hide Exact, HasNear, Placed, CounterAfter, NextFree, VertexCells;
    var vids: seq<Id>, staged: Staged, next := [], [], next0;
    NothingPlaced(vertices, next0);
    var i := 0;
    while i < |ps|
      invariant 0 <= i <= |ps|
      invariant Placed(vertices, ps[..i], vids, staged) && FreshIds(vertices, staged)
      invariant |staged| == MissingCount(vertices, ps[..i])
      invariant CounterAfter(vertices.Keys, next0, |staged|) == Some(next)
      invariant forall j :: 0 <= j < |staged| ==> staged[j].0 < next
    {
      assert ps[..i + 1][..i] == ps[..i] && ps[..i] + [ps[i]] == ps[..i + 1];
      var found := FindVertex(vertices, vertexGrid, ps[i]);
      match found {
      case Some(v) =>
        PlacedOneMore(vertices, ps[..i], vids, staged, ps[i], v, staged);
        vids := vids + [v];
      case None =>
        AllocateOneMore(vertices.Keys, next0, |staged|, next);
        var alloc := NextFreeVertexId(vertices.Keys, next);
        if alloc.None? {
          NoCapacity(vertices, next0, ps, i);
          return None;
        }
        var (v, next') := alloc.value;
        PlacedOneMore(vertices, ps[..i], vids, staged, ps[i], v, staged + [(v, ps[i])]);
        vids := vids + [v];
        staged := staged + [(v, ps[i])];
        next := next';
      }
      i := i + 1;
    }
    assert ps[..i] == ps;
    return Some((vids, staged, next));
  }

  lemma NothingPlaced(vertices: map<Id, Point3>, n: Id)
    ensures Placed(vertices, [], [], []) && CounterAfter(vertices.Keys, n, 0) == Some(n)
  {
  }

  /** One more allocation, read off the counter. */
  lemma AllocateOneMore(used: set<Id>, n: Id, k: nat, m: Id)
    requires CounterAfter(used, n, k) == Some(m)
    ensures NextFree(used, m).None? ==> CounterAfter(used, n, k + 1).None?
    ensures NextFree(used, m).Some? ==>
      var v := NextFree(used, m).value; v !in used && m <= v < U64_MAX && CounterAfter(used, n, k + 1) == Some(v + 1)
  {
    CounterAfterOneMore(used, n, k);
    assert CounterAfter(used, m, 1)
      == match NextFree(used, m) case None => None case Some(v) => CounterAfter(used, v + 1, 0);
  }

  lemma NoCapacity(vertices: map<Id, Point3>, n: Id, ps: seq<Point3>, i: nat)
    requires i < |ps|
    requires CounterAfter(vertices.Keys, n, MissingCount(vertices, ps[..i + 1])).None?
    ensures CounterAfter(vertices.Keys, n, MissingCount(vertices, ps)).None?
  {
    MissingCountMonotone(vertices, ps, i + 1);
    var all, some := MissingCount(vertices, ps), MissingCount(vertices, ps[..i + 1]);
    if CounterAfter(vertices.Keys, n, all).Some? {
      AllocationIsMonotone(vertices.Keys, n, all, vertices.Keys, n, some);
    }
  }

  lemma PlacedOneMore(vertices: map<Id, Point3>, ps: seq<Point3>, vids: seq<Id>, staged: Staged,
                      p: Point3, v: Id, staged': Staged)
    requires Placed(vertices, ps, vids, staged)
    requires (Merged(vertices, p, v) && staged' == staged) || (!HasNear(vertices, p) && staged' == staged + [(v, p)])
    ensures Placed(vertices, ps + [p], vids + [v], staged')
  {
    var ps', vids' := ps + [p], vids + [v];
    forall i | 0 <= i < |ps'|
      ensures Merged(vertices, ps'[i], vids'[i]) || (!HasNear(vertices, ps'[i]) && (vids'[i], ps'[i]) in staged')
    {
      if i < |ps| {
        assert ps'[i] == ps[i] && vids'[i] == vids[i];
      }
    }
    forall s | s in staged'
      ensures exists i :: 0 <= i < |ps'| && vids'[i] == s.0 && ps'[i] == s.1 && !HasNear(vertices, ps'[i])
    {
      if s in staged {
        var i :| 0 <= i < |ps| && vids[i] == s.0 && ps[i] == s.1 && !HasNear(vertices, ps[i]);
        assert vids'[i] == s.0 && ps'[i] == s.1;
      } else {
        assert vids'[|ps|] == s.0 && ps'[|ps|] == s.1;
      }
    }
  }

  // ---- What insertion leaves ----------------------------------------------------------

  lemma NearItself(p: Point3)
    ensures Near(p, p)
  {
  }

  /** The four corners of a valid shape always get four different vertices. */
  lemma PlacedVerticesAreDistinct(vertices: map<Id, Point3>, ps: seq<Point3>, vids: seq<Id>, staged: Staged)
    requires |ps| == 4 && ValidateShape(ps)
    requires Placed(vertices, ps, vids, staged) && FreshIds(vertices, staged)
    ensures NoDup(vids)
  {
    forall i, j | 0 <= i < j < 4
      ensures vids[i] != vids[j]
    {
      CornersStayApart(ps, i, j);
      NearItself(ps[i]);
    }
  }

  lemma ExtensionStaysSeparated(vertices: map<Id, Point3>, ps: seq<Point3>, vids: seq<Id>, staged: Staged,
                                vertices': map<Id, Point3>)
    requires |ps| == 4 && ValidateShape(ps) && Separated(vertices)
    requires Placed(vertices, ps, vids, staged) && FreshIds(vertices, staged)
    requires IsExtension(vertices, staged, vertices')
    ensures Separated(vertices')
  {
    forall u, v | u in vertices' && v in vertices' && u != v
      ensures !Near(vertices'[u], vertices'[v])
    {
      DistanceSymmetric(vertices'[u], vertices'[v]);
      if u in vertices && v in vertices {
      } else if u in vertices {
        var i := CornerOf(vertices, ps, vids, staged, vertices', v);
        assert !Near(vertices[u], ps[i]);
      } else if v in vertices {
        var i := CornerOf(vertices, ps, vids, staged, vertices', u);
        assert !Near(vertices[v], ps[i]);
      } else {
        var i := CornerOf(vertices, ps, vids, staged, vertices', u);
        var j := CornerOf(vertices, ps, vids, staged, vertices', v);
        CornersStayApart(ps, i, j);
      }
    }
  }

  lemma CornerOf(vertices: map<Id, Point3>, ps: seq<Point3>, vids: seq<Id>, staged: Staged,
                 vertices': map<Id, Point3>, v: Id)
    returns (i: nat)
    requires |ps| == 4 && Placed(vertices, ps, vids, staged)
    requires IsExtension(vertices, staged, vertices') && v in vertices' && v !in vertices
    ensures i < 4 && vids[i] == v && vertices'[v] == ps[i] && !HasNear(vertices, ps[i])
  {
    var k :| 0 <= k < |staged| && staged[k].0 == v;
    assert staged[k] in staged;
    i :| 0 <= i < |ps| && vids[i] == staged[k].0 && ps[i] == staged[k].1 && !HasNear(vertices, ps[i]);
  }

  /** The topology with tetrahedron `x` listed under its keys. */
  function WithTetra(t: Topo, x: Tetra, vertices: map<Id, Point3>, grid: map<Cell, seq<Id>>): Topo {
    Topo(vertices,
         t.tetras[x.id := x],
         PushAll(t.edgeTable, EdgeKeys(x.vertexIds), x.id),
         PushAll(t.faceTable, FaceKeys(x.vertexIds), x.id),
         PushAll(t.vertexToTetras, x.vertexIds, x.id),
         grid,
         Push(t.tetraGrid, GridKey(x.core), x.id))
  }

  lemma UsesWithTetra(tetras: map<Id, Tetra>, x: Tetra)
    ensures var tetras' := tetras[x.id := x];
      && VertexUses(tetras') == VertexUses(tetras)[x.id := Elems(x.vertexIds)]
      && EdgeUses(tetras') == EdgeUses(tetras)[x.id := Elems(EdgeKeys(x.vertexIds))]
      && FaceUses(tetras') == FaceUses(tetras)[x.id := Elems(FaceKeys(x.vertexIds))]
      && CoreCells(tetras') == CoreCells(tetras)[x.id := {} + {GridKey(x.core)}]
  {
    hide Elems, EdgeKeys, FaceKeys, GridKey;
    assert {} + {GridKey(x.core)} == {GridKey(x.core)};
  }

  lemma UsesWithoutTetra(tetras: map<Id, Tetra>, id: Id)
    ensures var tetras' := tetras - {id};
      && VertexUses(tetras') == VertexUses(tetras) - {id}
      && EdgeUses(tetras') == EdgeUses(tetras) - {id}
      && FaceUses(tetras') == FaceUses(tetras) - {id}
      && CoreCells(tetras') == CoreCells(tetras) - {id}
  {
    hide Elems, EdgeKeys, FaceKeys, GridKey;
  }

  lemma ListingIsExact(t: Topo, x: Tetra, vertices: map<Id, Point3>, grid: map<Cell, seq<Id>>)
    requires IndexesExact(t) && x.id !in t.tetras && |x.vertexIds| == 4 && NoDup(x.vertexIds)
    requires Exact(grid, VertexCells(vertices))
    ensures IndexesExact(WithTetra(t, x, vertices, grid))
  {
    hide Exact, Elems, EdgeKeys, FaceKeys, GridKey, NoDup, PushAll, Push;
    KeysAreDistinct(x.vertexIds);
    UsesWithTetra(t.tetras, x);
    PushAllExact(t.vertexToTetras, VertexUses(t.tetras), x.vertexIds, x.id);
    PushAllExact(t.edgeTable, EdgeUses(t.tetras), EdgeKeys(x.vertexIds), x.id);
    PushAllExact(t.faceTable, FaceUses(t.tetras), FaceKeys(x.vertexIds), x.id);
    PushExact(t.tetraGrid, CoreCells(t.tetras), GridKey(x.core), x.id);
  }

  lemma InsertionKeepsWellFormed(t: Topo, ports: seq<C.Port>, x: Tetra, ps: seq<Point3>, staged: Staged,
                                 vertices: map<Id, Point3>, grid: map<Cell, seq<Id>>)
    requires WellFormed(t, ports) && x.id !in t.tetras
    requires |ps| == 4 && ValidateShape(ps)
    requires Placed(t.vertices, ps, x.vertexIds, staged) && FreshIds(t.vertices, staged)
    requires IsExtension(t.vertices, staged, vertices) && Exact(grid, VertexCells(vertices))
    ensures WellFormed(WithTetra(t, x, vertices, grid), ports)
  {
    hide Exact, Elems, GridKey, NoDup, PushAll, Push, Placed, FreshIds, IsExtension, Separated, InUse, IndexesExact,
      ValidateShape;
    PlacedLength(t.vertices, ps, x.vertexIds, staged);
    PlacedVerticesAreDistinct(t.vertices, ps, x.vertexIds, staged);
    ExtensionStaysSeparated(t.vertices, ps, x.vertexIds, staged, vertices);
    ListingIsExact(t, x, vertices, grid);
    InsertionKeepsVerticesExact(t, C.PortIds(ports), x, ps, staged, vertices);
    ExtensionKeepsPorts(t.vertices, staged, vertices, ports);
  }

  // ---- That an insertion is possible ---------------------------------------------------------------

  lemma {:induction false} SomePlacement(vertices: map<Id, Point3>, n: Id, ps: seq<Point3>)
    returns (vids: seq<Id>, staged: Staged, next: Id)
    requires CounterAfter(vertices.Keys, n, MissingCount(vertices, ps)).Some?
    ensures Placed(vertices, ps, vids, staged) && FreshIds(vertices, staged) && |staged| == MissingCount(vertices, ps)
    ensures CounterAfter(vertices.Keys, n, |staged|) == Some(next) && forall j :: 0 <= j < |staged| ==>
      staged[j].0 < next
    decreases |ps|
  {
    hide HasNear, Placed, CounterAfter, NextFree, MissingCount, FreshIds;
    MissingLast(vertices, ps);
    if ps == [] {
      NothingPlaced(vertices, n);
      NothingStaged(vertices);
      return [], [], n;
    }
    var front, p := ps[..|ps| - 1], ps[|ps| - 1];
    assert front + [p] == ps;
    AllocationIsMonotone(vertices.Keys, n, MissingCount(vertices, ps), vertices.Keys, n, MissingCount(vertices, front));
    vids, staged, next := SomePlacement(vertices, n, front);
    var v: Id, staged' := *, staged;
    if HasNear(vertices, p) {
      v := SomeNear(vertices, p);
    } else {
      AllocateOneMore(vertices.Keys, n, |staged|, next);
      v := NextFree(vertices.Keys, next).value;
      FreshOneMore(vertices, staged, v, p);
      staged', next := staged + [(v, p)], v + 1;
    }
    PlacedOneMore(vertices, front, vids, staged, p, v, staged');
    vids, staged := vids + [v], staged';
  }

  lemma MissingLast(vertices: map<Id, Point3>, ps: seq<Point3>)
    ensures ps == [] ==> MissingCount(vertices, ps) == 0
    ensures ps != [] ==>
      MissingCount(vertices, ps)
      == MissingCount(vertices, ps[..|ps| - 1]) + (if HasNear(vertices, ps[|ps| - 1]) then 0 else 1)
  {
  }

  lemma NothingStaged(vertices: map<Id, Point3>)
    ensures FreshIds(vertices, [])
  {
  }

  lemma FreshOneMore(vertices: map<Id, Point3>, staged: Staged, v: Id, p: Point3)
    requires FreshIds(vertices, staged) && v !in vertices && forall j :: 0 <= j < |staged| ==> staged[j].0 < v
    ensures FreshIds(vertices, staged + [(v, p)])
  {
  }

  lemma SomeNear(vertices: map<Id, Point3>, p: Point3) returns (v: Id)
    requires HasNear(vertices, p)
    ensures Merged(vertices, p, v)
  {
    v :| v in vertices && Near(vertices[v], p);
  }

  lemma {:induction false} SomeStorage(vertices0: map<Id, Point3>, grid0: map<Cell, seq<Id>>, staged: Staged, n: nat)
    returns (vertices: map<Id, Point3>, grid: map<Cell, seq<Id>>)
    requires Exact(grid0, VertexCells(vertices0)) && FreshIds(vertices0, staged) && n <= |staged|
    ensures IsExtension(vertices0, staged[..n], vertices) && Exact(grid, VertexCells(vertices))
  {
    hide Exact, VertexCells, GridKey, IsExtension, FreshIds, Push;
    if n == 0 {
      NothingStored(vertices0);
      return vertices0, grid0;
    }
    vertices, grid := SomeStorage(vertices0, grid0, staged, n - 1);
    var (v, p) := staged[n - 1];
    StoredOneMore(vertices0, staged, n - 1, vertices);
    NewVertexIsListed(grid, vertices, v, p);
    vertices, grid := vertices[v := p], Push(grid, GridKey(p), v);
  }

  /** With room for four more vertices, a tetrahedron of any valid shape can be added. */
  lemma SomeInsertion(t: Topo, ports: seq<C.Port>, x: Tetra, ps: seq<Point3>, n: Id) returns (after: Topo)
    requires WellFormed(t, ports) && x.id !in t.tetras && |ps| == 4 && ValidateShape(ps)
    requires CounterAfter(t.vertices.Keys, n, 4).Some?
    ensures WellFormed(after, ports)
    ensures x.id in after.tetras && after.tetras == t.tetras[x.id := x.(vertexIds := after.tetras[x.id].vertexIds)]
  {
    hide WellFormed, Placed, FreshIds, IsExtension, CounterAfter, Exact, VertexCells, ValidateShape, PushAll, Push;
    MissingCountMonotone(t.vertices, ps, 0);
    AllocationIsMonotone(t.vertices.Keys, n, 4, t.vertices.Keys, n, MissingCount(t.vertices, ps));
    var vids, staged, next := SomePlacement(t.vertices, n, ps);
    assert Exact(t.vertexGrid, VertexCells(t.vertices)) by { GridIsExact(t, ports); }
    var vertices, grid := SomeStorage(t.vertices, t.vertexGrid, staged, |staged|);
    assert staged[..|staged|] == staged;
    var x' := x.(vertexIds := vids);
    InsertionKeepsWellFormed(t, ports, x', ps, staged, vertices, grid);
    after := WithTetra(t, x', vertices, grid);
  }

  lemma GridIsExact(t: Topo, ports: seq<C.Port>)
    requires WellFormed(t, ports)
    ensures Exact(t.vertexGrid, VertexCells(t.vertices))
  {
  }

  lemma PlacedLength(vertices: map<Id, Point3>, ps: seq<Point3>, vids: seq<Id>, staged: Staged)
    requires Placed(vertices, ps, vids, staged)
    ensures |vids| == |ps|
  {
  }

  lemma ExtensionKeepsPorts(vertices: map<Id, Point3>, staged: Staged, vertices': map<Id, Point3>, ports: seq<C.Port>)
    requires IsExtension(vertices, staged, vertices') && PortsPlaced(vertices, ports)
    ensures PortsPlaced(vertices', ports)
  {
  }

  lemma InUseWithTetra(tetras: map<Id, Tetra>, x: Tetra, v: Id)
    requires x.id !in tetras
    ensures InUse(tetras[x.id := x], v) <==> v in x.vertexIds || InUse(tetras, v)
  {
    var tetras' := tetras[x.id := x];
    if InUse(tetras, v) {
      var a :| a in tetras && v in tetras[a].vertexIds;
      assert a in tetras' && tetras'[a] == tetras[a];
    }
    if v in x.vertexIds {
      assert tetras'[x.id] == x;
    }
  }

  lemma PlacedVerticesAreStored(vertices: map<Id, Point3>, ps: seq<Point3>, vids: seq<Id>, staged: Staged,
                                vertices': map<Id, Point3>)
    requires Placed(vertices, ps, vids, staged) && IsExtension(vertices, staged, vertices')
    ensures forall v :: v in vids ==> v in vertices'
    ensures forall v :: v in vertices' && v !in vertices ==> v in vids
  {
    forall v | v in vids
      ensures v in vertices'
    {
      var i :| 0 <= i < |ps| && vids[i] == v;
      if v !in vertices {
        assert (v, ps[i]) in staged;
        var k :| 0 <= k < |staged| && staged[k] == (v, ps[i]);
      }
    }
    forall v | v in vertices' && v !in vertices
      ensures v in vids
    {
      var k :| 0 <= k < |staged| && staged[k].0 == v;
      assert staged[k] in staged;
    }
  }

  lemma InsertionKeepsVerticesExact(t: Topo, portIds: set<Id>, x: Tetra, ps: seq<Point3>, staged: Staged,
                                    vertices: map<Id, Point3>)
    requires VerticesExact(t, portIds) && x.id !in t.tetras
    requires Placed(t.vertices, ps, x.vertexIds, staged) && IsExtension(t.vertices, staged, vertices)
    ensures forall v: Id :: v in vertices <==> v in portIds || InUse(t.tetras[x.id := x], v)
  {
    hide Placed, InUse;
    PlacedVerticesAreStored(t.vertices, ps, x.vertexIds, staged, vertices);
    forall v: Id
      ensures v in vertices <==> v in portIds || InUse(t.tetras[x.id := x], v)
    {
      InUseWithTetra(t.tetras, x, v);
    }
  }

  // ---- Removal ---------------------------------------------------------------------------

  /** The vertices that only tetrahedron `id` uses and that are not ports. */
  ghost function Orphans(t: Topo, id: Id, portIds: set<Id>): set<Id> {
    set v | v in t.vertices && v !in portIds && !InUse(t.tetras - {id}, v)
  }

  lemma InUseWithoutTetra(tetras: map<Id, Tetra>, x: Tetra, v: Id)
    requires x.id in tetras && tetras[x.id] == x
    ensures InUse(tetras, v) <==> v in x.vertexIds || InUse(tetras - {x.id}, v)
  {
    InUseWithTetra(tetras - {x.id}, x, v);
    assert (tetras - {x.id})[x.id := x] == tetras;
  }

  /** Dropping `x` from a vertex empties its entry exactly when no other tetrahedron uses the vertex. */
  lemma UnlistedWhenUnused(v2t: map<Id, seq<Id>>, tetras: map<Id, Tetra>, x: Tetra, v: Id)
    requires Exact(v2t, VertexUses(tetras))
    requires x.id in tetras && tetras[x.id] == x && v in x.vertexIds
    ensures v in v2t
    ensures v in Drop(v2t, v, x.id) <==> InUse(tetras - {x.id}, v)
  {
    DropExact(v2t, VertexUses(tetras), v, x.id);
    assert v in VertexUses(tetras)[x.id];
    var uses := VertexUses(tetras)[x.id := VertexUses(tetras)[x.id] - {v}];
    var rest := Drop(v2t, v, x.id);
    if InUse(tetras - {x.id}, v) {
      var a :| a in tetras - {x.id} && v in (tetras - {x.id})[a].vertexIds;
      assert v in uses[a];
    }
    if v in rest {
      assert rest[v][0] in rest[v];
      var a := rest[v][0];
      assert v in uses[a];
      assert a in tetras - {x.id} && (tetras - {x.id})[a] == tetras[a];
    }
  }

  lemma DropDependsOnlyOnTheEntry<K, V>(table: map<K, seq<V>>, other: map<K, seq<V>>, k: K, v: V)
    requires k in table && k in other && table[k] == other[k]
    ensures k in Drop(table, k, v) <==> k in Drop(other, k, v)
  {
  }

  lemma ForgetVertexInGrid(grid: map<Cell, seq<Id>>, vertices: map<Id, Point3>, v: Id)
    requires Exact(grid, VertexCells(vertices)) && v in vertices
    ensures Exact(Drop(grid, GridKey(vertices[v]), v), VertexCells(vertices - {v}))
  {
    var cell := GridKey(vertices[v]);
    assert VertexCells(vertices)[v] == {cell};
    DropOnlyKey(grid, VertexCells(vertices), cell, v);
    assert VertexCells(vertices - {v}) == VertexCells(vertices) - {v};
  }

  lemma DropOnlyKey<K, V>(table: map<K, seq<V>>, uses: map<V, set<K>>, k: K, v: V)
    requires Exact(table, uses) && v in uses && uses[v] == {k}
    ensures Exact(Drop(table, k, v), uses - {v})
  {
    DropAllExact(table, uses, [k], v);
    assert [k][..0] == [];
    assert DropAll(table, [k], v) == Drop(DropAll(table, [], v), k, v);
  }

  /** Unlist `x` from its vertices; a vertex that nothing else uses goes, unless it is a port. */
  method ReleaseVertices(v2t0: map<Id, seq<Id>>, vertices0: map<Id, Point3>, grid0: map<Cell, seq<Id>>,
                         x: Tetra, portIds: set<Id>, ghost t: Topo)
    returns (v2t: map<Id, seq<Id>>, vertices: map<Id, Point3>, grid: map<Cell, seq<Id>>)
    requires v2t0 == t.vertexToTetras && vertices0 == t.vertices && grid0 == t.vertexGrid
    requires TetrasOk(t.tetras) && IndexesExact(t) && VerticesExact(t, portIds)
    requires x.id in t.tetras && t.tetras[x.id] == x
    ensures v2t == DropAll(t.vertexToTetras, x.vertexIds, x.id)
    ensures vertices == t.vertices - Orphans(t, x.id, portIds)
    ensures Exact(grid, VertexCells(vertices))
  {
    hide Exact, DropAll, Drop, InUse, GridKey;
    v2t, vertices, grid := v2t0, vertices0, grid0;
    var vids := x.vertexIds;
    ghost var orphans := Orphans(t, x.id, portIds);
    assert DropAll(v2t, vids[..0], x.id) == v2t by { DropNothing(v2t, x.id); }
    var i := 0;
    while i < |vids|
      invariant 0 <= i <= |vids|
      invariant v2t == DropAll(t.vertexToTetras, vids[..i], x.id)
      invariant vertices == t.vertices - (orphans * Elems(vids[..i]))
      invariant Exact(grid, VertexCells(vertices))
    {
      var v := vids[i];
      assert v in x.vertexIds && v !in vids[..i];
      DropAllElsewhere(t.vertexToTetras, vids[..i], x.id, v);
      UnlistedWhenUnused(t.vertexToTetras, t.tetras, x, v);
      InUseWithoutTetra(t.tetras, x, v);
      DropDependsOnlyOnTheEntry(v2t, t.vertexToTetras, v, x.id);
      DropOneMore(t.vertexToTetras, vids, i, x.id);
      v2t := Drop(v2t, v, x.id);
      assert v !in v2t && v !in portIds <==> v in orphans;
      assert Elems(vids[..i + 1]) == Elems(vids[..i]) + {v};
      if v !in v2t && v !in portIds && v in vertices {
        ForgetVertexInGrid(grid, vertices, v);
        grid := Drop(grid, GridKey(vertices[v]), v);
        vertices := vertices - {v};
        assert orphans * Elems(vids[..i + 1]) == orphans * Elems(vids[..i]) + {v};
      } else {
        assert orphans * Elems(vids[..i + 1]) == orphans * Elems(vids[..i]);
      }
      i := i + 1;
    }
    assert vids[..i] == vids;
    forall v | v in orphans
      ensures v in Elems(vids)
    {
      InUseWithoutTetra(t.tetras, x, v);
    }
    assert orphans * Elems(vids) == orphans;
  }

  lemma DropNothing<K, V>(table: map<K, seq<V>>, v: V)
    ensures DropAll(table, [], v) == table
  {
  }

  lemma DropOneMore<K, V>(table: map<K, seq<V>>, keys: seq<K>, i: nat, v: V)
    requires i < |keys|
    ensures DropAll(table, keys[..i + 1], v) == Drop(DropAll(table, keys[..i], v), keys[i], v)
  {
    assert keys[..i + 1][..i] == keys[..i];
  }

  function WithoutTetra(t: Topo, x: Tetra, v2t: map<Id, seq<Id>>, vertices: map<Id, Point3>,
                        grid: map<Cell, seq<Id>>): Topo
  {
    Topo(vertices,
         t.tetras - {x.id},
         DropAll(t.edgeTable, EdgeKeys(x.vertexIds), x.id),
         DropAll(t.faceTable, FaceKeys(x.vertexIds), x.id),
         v2t,
         grid,
         Drop(t.tetraGrid, GridKey(x.core), x.id))
  }

  lemma UnlistingIsExact(t: Topo, x: Tetra, v2t: map<Id, seq<Id>>, vertices: map<Id, Point3>, grid: map<Cell, seq<Id>>)
    requires IndexesExact(t) && x.id in t.tetras && t.tetras[x.id] == x
    requires v2t == DropAll(t.vertexToTetras, x.vertexIds, x.id)
    requires Exact(grid, VertexCells(vertices))
    ensures IndexesExact(WithoutTetra(t, x, v2t, vertices, grid))
  {
    hide Exact, Elems, EdgeKeys, FaceKeys, GridKey, DropAll, Drop;
    UsesWithoutTetra(t.tetras, x.id);
    DropAllExact(t.vertexToTetras, VertexUses(t.tetras), x.vertexIds, x.id);
    DropAllExact(t.edgeTable, EdgeUses(t.tetras), EdgeKeys(x.vertexIds), x.id);
    DropAllExact(t.faceTable, FaceUses(t.tetras), FaceKeys(x.vertexIds), x.id);
    DropOnlyKey(t.tetraGrid, CoreCells(t.tetras), GridKey(x.core), x.id);
  }

  lemma RemovalKeepsWellFormed(t: Topo, ports: seq<C.Port>, x: Tetra, v2t: map<Id, seq<Id>>,
                               vertices: map<Id, Point3>, grid: map<Cell, seq<Id>>)
    requires WellFormed(t, ports) && x.id in t.tetras && t.tetras[x.id] == x
    requires v2t == DropAll(t.vertexToTetras, x.vertexIds, x.id)
    requires vertices == t.vertices - Orphans(t, x.id, C.PortIds(ports))
    requires Exact(grid, VertexCells(vertices))
    ensures WellFormed(WithoutTetra(t, x, v2t, vertices, grid), ports)
  {
    hide IndexesExact, DropAll, Drop, NoDup, InUse, Near;
    UnlistingIsExact(t, x, v2t, vertices, grid);
    var portIds := C.PortIds(ports);
    forall v: Id
      ensures v in vertices <==> v in portIds || InUse(t.tetras - {x.id}, v)
    {
      InUseWithoutTetra(t.tetras, x, v);
    }
    forall p | p in ports
      ensures p.id in vertices && vertices[p.id] == p.position
    {
      assert p.id in portIds;
    }
  }
}
