/** The grid-accelerated search for the tetrahedron nearest to a point; distances are squared. */
module Nearest {
  import opened Prelude
  import opened Geometry
  import opened Index
  import opened VertexIds
  import opened Topology
  import opened Placement
  import C = Cylinder

  ghost predicate InBlock(tetras: map<Id, Tetra>, p: Point3, t: Id) {
    t in tetras && Adjacent(GridKey(p), GridKey(tetras[t].core))
  }

  /** `best` is a tetrahedron among `ids`, its distance is right, and none of `ids` is nearer. */
  ghost predicate IsNearest(tetras: map<Id, Tetra>, p: Point3, best: (Id, real), ids: iset<Id>) {
    && best.0 in tetras && best.0 in ids
    && best.1 == DistanceSq(tetras[best.0].core, p)
    && forall t :: t in ids && t in tetras ==> best.1 <= DistanceSq(tetras[t].core, p)
  }

  ghost function Block(tetras: map<Id, Tetra>, p: Point3): iset<Id> {
    iset t | InBlock(tetras, p, t)
  }

  ghost function Everywhere(tetras: map<Id, Tetra>): iset<Id> {
    iset t | t in tetras
  }

  /** What the search promises: nearest in the block, or in the whole space when the block is empty. */
  ghost predicate IsAnswer(tetras: map<Id, Tetra>, p: Point3, best: (Id, real)) {
    IsNearest(tetras, p, best, if exists t :: InBlock(tetras, p, t) then Block(tetras, p) else Everywhere(tetras))
  }

  /** The best so far among the tetrahedra that were looked at. */
  ghost predicate BestOf(tetras: map<Id, Tetra>, p: Point3, best: Option<(Id, real)>, seen: set<Id>) {
    match best
    case None => forall t :: t in seen ==> t !in tetras
    case Some(b) => IsNearest(tetras, p, b, iset t | t in seen)
  }

  function Better(tetras: map<Id, Tetra>, p: Point3, best: Option<(Id, real)>, t: Id): Option<(Id, real)> {
    if t !in tetras then best
    else
      var d := DistanceSq(tetras[t].core, p);
      if best.None? || d < best.value.1 then Some((t, d)) else best
  }

  lemma BetterIsBest(tetras: map<Id, Tetra>, p: Point3, best: Option<(Id, real)>, seen: set<Id>, t: Id)
    requires BestOf(tetras, p, best, seen)
    ensures BestOf(tetras, p, Better(tetras, p, best, t), seen + {t})
  {
    hide DistanceSq;
  }

  /** Look through the 27 cells around `p`. */
  method NearestInBlock(tetras: map<Id, Tetra>, tetraGrid: map<Cell, seq<Id>>, p: Point3)
    returns (best: Option<(Id, real)>)
    requires Exact(tetraGrid, CoreCells(tetras))
    ensures match best
      case None => forall t :: !InBlock(tetras, p, t)
      case Some(b) => IsNearest(tetras, p, b, Block(tetras, p))
  {
    hide Exact, BestOf, Better, CoreCells, InBlock;
    var keys := NearbyKeys(GridKey(p));
    best := None;
    ghost var seen: set<Id> := {};
    assert BestOf(tetras, p, best, seen) by { NothingSeen(tetras, p); }
    var i := 0;
    while i < |keys|
      invariant 0 <= i <= |keys|
      invariant BestOf(tetras, p, best, seen)
      invariant forall t :: t in seen <==> exists k :: k in keys[..i] && k in tetraGrid && t in tetraGrid[k]
    {
      ghost var before := seen;
      if keys[i] in tetraGrid {
        var ids := tetraGrid[keys[i]];
        var j := 0;
        while j < |ids|
          invariant 0 <= j <= |ids|
          invariant BestOf(tetras, p, best, seen)
          invariant seen == before + Elems(ids[..j])
        {
          BetterIsBest(tetras, p, best, seen, ids[j]);
          assert Elems(ids[..j + 1]) == Elems(ids[..j]) + {ids[j]};
          best := Better(tetras, p, best, ids[j]);
          seen := seen + {ids[j]};
          j := j + 1;
        }
        assert ids[..j] == ids;
      }
      assert keys[..i + 1] == keys[..i] + [keys[i]];
      i := i + 1;
    }
    assert keys[..i] == keys;
    forall t
      ensures t in seen <==> InBlock(tetras, p, t)
    {
      ListedInTheBlock(tetras, tetraGrid, p, t);
    }
    BestIsNearest(tetras, p, best, seen);
  }

  lemma NothingSeen(tetras: map<Id, Tetra>, p: Point3)
    ensures BestOf(tetras, p, None, {})
  {
  }

  lemma BestIsNearest(tetras: map<Id, Tetra>, p: Point3, best: Option<(Id, real)>, seen: set<Id>)
    requires BestOf(tetras, p, best, seen) && forall t :: t in seen <==> InBlock(tetras, p, t)
    ensures match best
      case None => forall t :: !InBlock(tetras, p, t)
      case Some(b) => IsNearest(tetras, p, b, Block(tetras, p))
  {
  }

  /** The cells of the block list exactly the tetrahedra whose core lies in the block. */
  lemma ListedInTheBlock(tetras: map<Id, Tetra>, tetraGrid: map<Cell, seq<Id>>, p: Point3, t: Id)
    requires Exact(tetraGrid, CoreCells(tetras))
    ensures InBlock(tetras, p, t) <==> exists k :: k in NearbyKeys(GridKey(p)) && k in tetraGrid && t in tetraGrid[k]
  {
    var uses := CoreCells(tetras);
    if InBlock(tetras, p, t) {
      var k := GridKey(tetras[t].core);
      assert k in uses[t];
      NearbyKeysAreTheAdjacentCells(GridKey(p), k);
      assert k in NearbyKeys(GridKey(p)) && k in tetraGrid && t in tetraGrid[k];
    }
    if k :| k in NearbyKeys(GridKey(p)) && k in tetraGrid && t in tetraGrid[k] {
      assert t in uses && k in uses[t];
      NearbyKeysAreTheAdjacentCells(GridKey(p), k);
    }
  }

  /** The nearest tetrahedron of the block, or of the whole space when the block is empty. */
  method NearestTetrahedronTo(tetras: map<Id, Tetra>, tetraGrid: map<Cell, seq<Id>>, p: Point3)
    returns (best: Option<(Id, real)>)
    requires Exact(tetraGrid, CoreCells(tetras))
    ensures best.None? <==> tetras == map[]
    ensures best.Some? ==> IsAnswer(tetras, p, best.value)
  {
    hide Exact, BestOf, Better, InBlock;
    best := NearestInBlock(tetras, tetraGrid, p);
    if best.Some? {
      assert InBlock(tetras, p, best.value.0);
      return;
    }
    ghost var seen: set<Id> := {};
    var remaining := tetras.Keys;
    assert BestOf(tetras, p, best, seen) by { NothingSeen(tetras, p); }
    while remaining != {}
      invariant BestOf(tetras, p, best, seen)
      invariant seen + remaining == tetras.Keys
      decreases remaining
    {
      var t :| t in remaining;
      BetterIsBest(tetras, p, best, seen, t);
      best := Better(tetras, p, best, t);
      seen := seen + {t};
      remaining := remaining - {t};
    }
    BestOfAll(tetras, p, best);
  }

  lemma BestOfAll(tetras: map<Id, Tetra>, p: Point3, best: Option<(Id, real)>)
    requires BestOf(tetras, p, best, tetras.Keys)
    ensures best.None? <==> tetras == map[]
    ensures best.Some? ==> IsNearest(tetras, p, best.value, Everywhere(tetras))
  {
    if best.None? {
      assert tetras.Keys == {};
    }
  }

  /** An answer no farther than one cell is the nearest tetrahedron of the whole space. */
  lemma WithinACellIsGlobal(tetras: map<Id, Tetra>, p: Point3, best: (Id, real))
    requires IsNearest(tetras, p, best, Block(tetras, p))
    requires best.1 <= GRID_CELL * GRID_CELL
    ensures IsNearest(tetras, p, best, Everywhere(tetras))
  {
    hide DistanceSq;
    forall t | t in tetras
      ensures best.1 <= DistanceSq(tetras[t].core, p)
    {
      DistanceSymmetric(tetras[t].core, p);
      if DistanceSq(p, tetras[t].core) < GRID_CELL * GRID_CELL {
        CloserThanACellIsAdjacent(p, tetras[t].core);
        assert InBlock(tetras, p, t);
      }
    }
  }

  /** Farther than that the answer can miss: the block may hold only a tetrahedron farther than one just outside it. */
  lemma BeyondACellCanMiss(far: Tetra, near: Tetra)
    requires far.core == Point3(-0.5, 0.0, 0.0) && near.core == Point3(2.0, 0.0, 0.0)
    ensures var tetras, p := map[0 := far, 1 := near], Point3(0.9, 0.0, 0.0);
      && IsNearest(tetras, p, (0, 1.96), Block(tetras, p))
      && !IsNearest(tetras, p, (0, 1.96), Everywhere(tetras))
  {
    var tetras, p := map[0 := far, 1 := near], Point3(0.9, 0.0, 0.0);
    assert GridKey(p) == Cell(0, 0, 0) && GridKey(far.core) == Cell(-1, 0, 0) && GridKey(near.core) == Cell(2, 0, 0);
    assert DistanceSq(far.core, p) == 1.96;
    assert DistanceSq(near.core, p) == 1.21;
    assert InBlock(tetras, p, 0) && !InBlock(tetras, p, 1);
    assert 1 in Everywhere(tetras);
  }

  // ---- How far the block reaches --------------------------------------------------------------------

  /** The distance from a coordinate to the nearer end of the three cells around it. */
  function AxisMargin(x: real): (m: real)
    ensures 1.0 <= m <= 1.5
  {
    var fraction := x - x.Floor as real;
    if fraction <= 0.5 then 1.0 + fraction else 2.0 - fraction
  }

  /** The distance from a point to the nearest face of its block. */
  function Margin(p: Point3): (m: real)
    ensures 1.0 <= m <= 1.5
  {
    var x, y, z := AxisMargin(p.x), AxisMargin(p.y), AxisMargin(p.z);
    if x <= y && x <= z then x else if y <= z then y else z
  }

  lemma SquareAtLeast(d: real, m: real)
    requires m >= 0.0 && (d >= m || d <= -m)
    ensures d * d >= m * m
  {
    if d >= m {
      assert d * d >= m * d >= m * m;
    } else {
      var e := -d;
      assert e * e >= m * e >= m * m;
      assert e * e == d * d;
    }
  }

  lemma AxisIsFar(x: real, y: real)
    requires !(-1 <= y.Floor - x.Floor <= 1)
    ensures y - x >= AxisMargin(x) || y - x <= -AxisMargin(x)
  {
  }

  lemma CellsAreFloors(p: Point3)
    ensures GridKey(p) == Cell(p.x.Floor, p.y.Floor, p.z.Floor)
  {
    assert p.x / GRID_CELL == p.x && p.y / GRID_CELL == p.y && p.z / GRID_CELL == p.z;
  }

  lemma MarginIsLeast(p: Point3)
    ensures Margin(p) <= AxisMargin(p.x) && Margin(p) <= AxisMargin(p.y) && Margin(p) <= AxisMargin(p.z)
    ensures Margin(p) == AxisMargin(p.x) || Margin(p) == AxisMargin(p.y) || Margin(p) == AxisMargin(p.z)
  {
  }

  /** No single coordinate contributes more than the whole distance. */
  lemma DistanceCoversAxes(p: Point3, q: Point3, least: real)
    requires
      || (q.x - p.x) * (q.x - p.x) >= least
      || (q.y - p.y) * (q.y - p.y) >= least
      || (q.z - p.z) * (q.z - p.z) >= least
    ensures DistanceSq(q, p) >= least
  {
    SquaresAreNonNegative(q.x - p.x);
    SquaresAreNonNegative(q.y - p.y);
    SquaresAreNonNegative(q.z - p.z);
  }

  lemma FarAlongAxis(x: real, y: real, m: real)
    requires !(-1 <= y.Floor - x.Floor <= 1) && 0.0 <= m <= AxisMargin(x)
    ensures (y - x) * (y - x) >= m * m
  {
    AxisIsFar(x, y);
    hide AxisMargin;
    SquareAtLeast(y - x, m);
  }

  /** Whatever lies outside the block is at least the margin away. */
  lemma OutsideIsFar(p: Point3, q: Point3)
    requires !Adjacent(GridKey(p), GridKey(q))
    ensures DistanceSq(q, p) >= Margin(p) * Margin(p)
  {
    hide DistanceSq, Margin, AxisMargin;
    CellsAreFloors(p);
    CellsAreFloors(q);
    MarginIsLeast(p);
    var m := Margin(p);
    if !(-1 <= q.x.Floor - p.x.Floor <= 1) {
      FarAlongAxis(p.x, q.x, m);
    } else if !(-1 <= q.y.Floor - p.y.Floor <= 1) {
      FarAlongAxis(p.y, q.y, m);
    } else {
      FarAlongAxis(p.z, q.z, m);
    }
    DistanceCoversAxes(p, q, m * m);
  }

  /** A step past the nearer end of the three cells around a coordinate. */
  function PastTheEnd(x: real, step: real): real {
    if x - x.Floor as real <= 0.5 then x - AxisMargin(x) - step else x + AxisMargin(x) + step
  }

  lemma PastTheEndIsOutside(x: real, step: real)
    requires 0.0 < step <= 1.0
    ensures !(-1 <= PastTheEnd(x, step).Floor - x.Floor <= 1)
    ensures var d := PastTheEnd(x, step) - x; d == AxisMargin(x) + step || d == -(AxisMargin(x) + step)
  {
  }

  lemma SquareOfStep(d: real, m: real, step: real)
    requires d == m + step || d == -(m + step)
    ensures d * d == m * m + step * (2.0 * m + step)
  {
  }

  lemma StepPast(x: real, step: real)
    requires 0.0 < step <= 1.0
    ensures var y, m := PastTheEnd(x, step), AxisMargin(x);
      !(-1 <= y.Floor - x.Floor <= 1) && (y - x) * (y - x) == m * m + step * (2.0 * m + step)
  {
    PastTheEndIsOutside(x, step);
    hide PastTheEnd, AxisMargin;
    SquareOfStep(PastTheEnd(x, step) - x, AxisMargin(x), step);
  }

  lemma AlongOneAxis(p: Point3, q: Point3)
    ensures q == p.(x := q.x) ==> DistanceSq(q, p) == (q.x - p.x) * (q.x - p.x)
    ensures q == p.(y := q.y) ==> DistanceSq(q, p) == (q.y - p.y) * (q.y - p.y)
    ensures q == p.(z := q.z) ==> DistanceSq(q, p) == (q.z - p.z) * (q.z - p.z)
  {
  }

  /** Every distance beyond the margin leaves room for a point outside the block that is nearer. */
  lemma JustPastTheFace(p: Point3, limit: real) returns (q: Point3)
    requires limit > Margin(p) * Margin(p)
    ensures !Adjacent(GridKey(p), GridKey(q)) && DistanceSq(q, p) < limit
  {
    hide DistanceSq, Margin, AxisMargin, PastTheEnd;
    MarginIsLeast(p);
    var m := Margin(p);
    var gap := limit - m * m;
    var step := if gap >= 8.0 then 1.0 else gap / 8.0;
    StepFits(m, step, gap);
    if m == AxisMargin(p.x) {
      StepPast(p.x, step);
      q := p.(x := PastTheEnd(p.x, step));
    } else if m == AxisMargin(p.y) {
      StepPast(p.y, step);
      q := p.(y := PastTheEnd(p.y, step));
    } else {
      StepPast(p.z, step);
      q := p.(z := PastTheEnd(p.z, step));
    }
    AlongOneAxis(p, q);
    CellsAreFloors(p);
    CellsAreFloors(q);
  }

  lemma StepFits(m: real, step: real, gap: real)
    requires 1.0 <= m <= 1.5 && gap > 0.0 && step == if gap >= 8.0 then 1.0 else gap / 8.0
    ensures 0.0 < step <= 1.0 && step * (2.0 * m + step) < gap
  {
    assert step * (2.0 * m + step) <= step * 4.0;
  }

  /** The two spaces hold the same tetrahedra in the block around `p`; outside of it anything may differ. */
  ghost predicate SameInBlock(a: map<Id, Tetra>, b: map<Id, Tetra>, p: Point3) {
    forall t :: InBlock(a, p, t) || InBlock(b, p, t) ==> t in a && t in b && a[t] == b[t]
  }

  /** Identifiers as the space gives them out: the last one is never used. */
  predicate IdsInRange(tetras: map<Id, Tetra>) {
    forall t :: t in tetras ==> t < U64_MAX
  }

  /** The search finds the nearest of all in every well-formed space that holds the same tetrahedra in the block. */
  ghost predicate AlwaysGlobal(t: Topo, ports: seq<C.Port>, p: Point3) {
    forall other: Topo, best :: WellFormed(other, ports) && FindsOnlyInBlock(t.tetras, other.tetras, p, best)
      ==> IsNearest(other.tetras, p, best, Everywhere(other.tetras))
  }

  ghost predicate FindsOnlyInBlock(tetras: map<Id, Tetra>, other: map<Id, Tetra>, p: Point3, best: (Id, real)) {
    IdsInRange(other) && SameInBlock(tetras, other, p) && IsAnswer(other, p, best)
  }

  /** The block holds a core no farther than its nearest face. */
  ghost predicate HoldsWithinMargin(tetras: map<Id, Tetra>, p: Point3) {
    exists t :: InBlock(tetras, p, t) && DistanceSq(tetras[t].core, p) <= Margin(p) * Margin(p)
  }

  /**
   * The answer is the nearest tetrahedron of the whole space, whatever lies outside the block, exactly when the block
   * is empty or holds a core no farther than its nearest face. The space has room for one more tetrahedron.
   */
  lemma GlobalExactly(t: Topo, ports: seq<C.Port>, p: Point3, id: Id, n: Id)
    requires WellFormed(t, ports) && IdsInRange(t.tetras)
    requires id < U64_MAX && id !in t.tetras && CounterAfter(t.vertices.Keys, n, 4).Some?
    ensures AlwaysGlobal(t, ports, p) <==> (forall k :: !InBlock(t.tetras, p, k)) || HoldsWithinMargin(t.tetras, p)
  {
    hide IsNearest, Margin, WellFormed, CounterAfter, IdsInRange;
    if forall k :: !InBlock(t.tetras, p, k) {
      forall other: Topo, best | WellFormed(other, ports) && FindsOnlyInBlock(t.tetras, other.tetras, p, best)
        ensures IsNearest(other.tetras, p, best, Everywhere(other.tetras))
      {
        forall k ensures !InBlock(other.tetras, p, k) {
          SameMembers(t.tetras, other.tetras, p, k);
        }
      }
    } else if HoldsWithinMargin(t.tetras, p) {
      forall other: Topo, best | WellFormed(other, ports) && FindsOnlyInBlock(t.tetras, other.tetras, p, best)
        ensures IsNearest(other.tetras, p, best, Everywhere(other.tetras))
      {
        WithinMarginIsGlobal(t.tetras, other.tetras, p, best);
      }
    } else {
      BeyondMarginCanMiss(t, ports, p, id, n);
    }
  }

  lemma WithinMarginIsGlobal(tetras: map<Id, Tetra>, other: map<Id, Tetra>, p: Point3, best: (Id, real))
    requires HoldsWithinMargin(tetras, p) && SameInBlock(tetras, other, p) && IsAnswer(other, p, best)
    ensures IsNearest(other, p, best, Everywhere(other))
  {
    hide DistanceSq, Margin, Adjacent;
    var near :| InBlock(tetras, p, near) && DistanceSq(tetras[near].core, p) <= Margin(p) * Margin(p);
    assert InBlock(other, p, near);
    forall t | t in other
      ensures best.1 <= DistanceSq(other[t].core, p)
    {
      if !InBlock(other, p, t) {
        OutsideIsFar(p, other[t].core);
      }
    }
  }

  lemma SameMembers(a: map<Id, Tetra>, b: map<Id, Tetra>, p: Point3, t: Id)
    requires SameInBlock(a, b, p)
    ensures InBlock(a, p, t) <==> InBlock(b, p, t)
  {
  }

  /** The same space with one more tetrahedron, just outside the block. */
  lemma BeyondMarginCanMiss(t: Topo, ports: seq<C.Port>, p: Point3, id: Id, n: Id)
    requires WellFormed(t, ports) && IdsInRange(t.tetras)
    requires id < U64_MAX && id !in t.tetras && CounterAfter(t.vertices.Keys, n, 4).Some?
    requires (exists k :: InBlock(t.tetras, p, k)) && !HoldsWithinMargin(t.tetras, p)
    ensures !AlwaysGlobal(t, ports, p)
  {
    hide DistanceSq, Margin, GridKey, Adjacent, WellFormed, CounterAfter, ComputeVertices, ValidateShape, IsNearest,
      IsAnswer;
    var some :| InBlock(t.tetras, p, some);
    var inside := set k | k in t.tetras && InBlock(t.tetras, p, k);
    assert some in inside;
    var best := NearestAmong(t.tetras, p, inside);
    var q := JustPastTheFace(p, best.1);
    ComputedShapeIsValid(q);
    var after := SomeInsertion(t, ports, t.tetras[some].(id := id, core := q), ComputeVertices(q), n);
    OnePastTheFace(t.tetras, after.tetras, p, inside, best, id);
    assert !IsNearest(after.tetras, p, best, Everywhere(after.tetras));
  }

  /** The tetrahedra of a space, and one more just outside of the block. */
  lemma OnePastTheFace(tetras: map<Id, Tetra>, other: map<Id, Tetra>, p: Point3, inside: set<Id>, best: (Id, real),
                       id: Id)
    requires id !in tetras && id < U64_MAX && id in other && other == tetras[id := other[id]] && IdsInRange(tetras)
    requires best.0 in inside && inside <= tetras.Keys && forall t :: t in inside <==> InBlock(tetras, p, t)
    requires best.1 == DistanceSq(tetras[best.0].core, p)
    requires forall t :: t in inside ==> best.1 <= DistanceSq(tetras[t].core, p)
    requires !Adjacent(GridKey(p), GridKey(other[id].core)) && DistanceSq(other[id].core, p) < best.1
    ensures FindsOnlyInBlock(tetras, other, p, best) && !IsNearest(other, p, best, Everywhere(other))
  {
    hide DistanceSq, GridKey, Adjacent;
    forall t ensures InBlock(other, p, t) <==> t in inside {
    }
    assert IsNearest(other, p, best, Block(other, p));
    assert InBlock(other, p, best.0);
    assert id in Everywhere(other);
  }

  lemma {:induction false} NearestAmong(tetras: map<Id, Tetra>, p: Point3, ids: set<Id>) returns (best: (Id, real))
    requires ids != {} && ids <= tetras.Keys
    ensures best.0 in ids && best.1 == DistanceSq(tetras[best.0].core, p)
    ensures forall t :: t in ids ==> best.1 <= DistanceSq(tetras[t].core, p)
    decreases ids
  {
    hide DistanceSq;
    var t :| t in ids;
    best := (t, DistanceSq(tetras[t].core, p));
    if ids != {t} {
      var rest := NearestAmong(tetras, p, ids - {t});
      if rest.1 < best.1 {
        best := rest;
      }
    }
  }
}
