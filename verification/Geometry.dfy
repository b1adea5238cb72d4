/** Points, the merge distance, the unit grid and the shape of a tetrahedron. */
module Geometry {
  import opened Prelude

  datatype Point3 = Point3(x: real, y: real, z: real)

  /** Two vertices closer than this are the same point of space. */
  const VERTEX_MERGE_EPSILON: real := 0.05
  const GRID_CELL: real := 1.0
  const EDGE_LENGTH: real := 1.0
  const SHAPE_EPSILON: real := 0.0000000001

  function DistanceSq(p: Point3, q: Point3): real {
    var dx, dy, dz := p.x - q.x, p.y - q.y, p.z - q.z;
    dx * dx + dy * dy + dz * dz
  }

  /** `p.distance_to(q) < VERTEX_MERGE_EPSILON`, with both sides squared. */
  predicate Near(p: Point3, q: Point3) {
    DistanceSq(p, q) < VERTEX_MERGE_EPSILON * VERTEX_MERGE_EPSILON
  }

  datatype Cell = Cell(x: int, y: int, z: int)

  function GridKey(p: Point3): Cell {
    Cell((p.x / GRID_CELL).Floor, (p.y / GRID_CELL).Floor, (p.z / GRID_CELL).Floor)
  }

  predicate Adjacent(a: Cell, b: Cell) {
    && -1 <= b.x - a.x <= 1
    && -1 <= b.y - a.y <= 1
    && -1 <= b.z - a.z <= 1
  }

  /** The block of 27 cells around `c`, in the order in which they are searched. */
  function NearbyKeys(c: Cell): seq<Cell> {
    seq(27, i requires 0 <= i < 27 => Cell(c.x + i / 9 - 1, c.y + i / 3 % 3 - 1, c.z + i % 3 - 1))
  }

  lemma NearbyKeysAreTheAdjacentCells(c: Cell, d: Cell)
    ensures d in NearbyKeys(c) <==> Adjacent(c, d)
  {
    if Adjacent(c, d) {
      var i := (d.x - c.x + 1) * 9 + (d.y - c.y + 1) * 3 + (d.z - c.z + 1);
      assert i / 9 == d.x - c.x + 1 && i / 3 % 3 == d.y - c.y + 1 && i % 3 == d.z - c.z + 1;
      assert NearbyKeys(c)[i] == d;
    }
  }

  lemma SquareBound(d: real, r: real)
    requires r >= 0.0 && d * d < r * r
    ensures -r < d < r
  {
  }

  lemma SquaresAreNonNegative(d: real)
    ensures d * d >= 0.0
  {
    if d < 0.0 {
      assert d * d == (-d) * (-d);
    }
  }

  lemma FloorsOfCloseReals(a: real, b: real)
    requires -1.0 < a - b < 1.0
    ensures -1 <= a.Floor - b.Floor <= 1
  {
  }

  /** Points less than one cell apart lie in the same block of 27 cells. */
  lemma CloserThanACellIsAdjacent(p: Point3, q: Point3)
    requires DistanceSq(p, q) < GRID_CELL * GRID_CELL
    ensures Adjacent(GridKey(p), GridKey(q))
  {
    var dx, dy, dz := p.x - q.x, p.y - q.y, p.z - q.z;
    SquaresAreNonNegative(dx);
    SquaresAreNonNegative(dy);
    SquaresAreNonNegative(dz);
    SquareBound(dx, 1.0);
    SquareBound(dy, 1.0);
    SquareBound(dz, 1.0);
    assert p.x / GRID_CELL == p.x && p.y / GRID_CELL == p.y && p.z / GRID_CELL == p.z;
    assert q.x / GRID_CELL == q.x && q.y / GRID_CELL == q.y && q.z / GRID_CELL == q.z;
    FloorsOfCloseReals(q.x, p.x);
    FloorsOfCloseReals(q.y, p.y);
    FloorsOfCloseReals(q.z, p.z);
  }

  lemma DistanceSymmetric(p: Point3, q: Point3)
    ensures DistanceSq(p, q) == DistanceSq(q, p)
  {
    assert (p.x - q.x) * (p.x - q.x) == (q.x - p.x) * (q.x - p.x);
    assert (p.y - q.y) * (p.y - q.y) == (q.y - p.y) * (q.y - p.y);
    assert (p.z - q.z) * (p.z - q.z) == (q.z - p.z) * (q.z - p.z);
  }

  lemma SumSquare(a: real, b: real)
    ensures (a + b) * (a + b) <= 2.0 * (a * a + b * b)
  {
    SquaresAreNonNegative(a - b);
    assert (a - b) * (a - b) == a * a - 2.0 * a * b + b * b;
    assert (a + b) * (a + b) == a * a + 2.0 * a * b + b * b;
  }

  lemma DistanceIsNorm(p: Point3, q: Point3)
    ensures DistanceSq(p, q) == NormSq(Minus(p, q))
  {
  }

  lemma SumNormSq(a: Point3, b: Point3)
    ensures NormSq(Point3(a.x + b.x, a.y + b.y, a.z + b.z)) <= 2.0 * (NormSq(a) + NormSq(b))
  {
    SumSquare(a.x, b.x);
    SumSquare(a.y, b.y);
    SumSquare(a.z, b.z);
  }

  /** The triangle inequality in the squared form that the merge test needs. */
  lemma NearBoth(p: Point3, q: Point3, v: Point3)
    requires Near(v, p) && Near(v, q)
    ensures DistanceSq(p, q) < 0.01
  {
    DistanceSymmetric(v, p);
    var a, b := Minus(p, v), Minus(v, q);
    SumNormSq(a, b);
    assert Point3(a.x + b.x, a.y + b.y, a.z + b.z) == Minus(p, q);
    DistanceIsNorm(p, v);
    DistanceIsNorm(v, q);
    DistanceIsNorm(p, q);
  }

  function Minus(p: Point3, q: Point3): Point3 {
    Point3(p.x - q.x, p.y - q.y, p.z - q.z)
  }

  function NormSq(d: Point3): real {
    d.x * d.x + d.y * d.y + d.z * d.z
  }

  // ---- The shape -------------------------------------------------------------

  /** Offset of the vertices from the centre along z: a quarter of the square root of two. */
  const Z_OFFSET: real := 0.3535533905932738

  function ComputeVertices(c: Point3): (r: seq<Point3>)
    ensures |r| == 4
  {
    [ Point3(c.x + 0.5, c.y, c.z - Z_OFFSET),
      Point3(c.x - 0.5, c.y, c.z - Z_OFFSET),
      Point3(c.x, c.y + 0.5, c.z + Z_OFFSET),
      Point3(c.x, c.y - 0.5, c.z + Z_OFFSET) ]
  }

  /** `|distance - EDGE_LENGTH| <= SHAPE_EPSILON`, squared: the distance lies in a positive interval. */
  predicate RegularEdge(p: Point3, q: Point3) {
    var lo, hi := EDGE_LENGTH - SHAPE_EPSILON, EDGE_LENGTH + SHAPE_EPSILON;
    lo * lo <= DistanceSq(p, q) <= hi * hi
  }

  predicate ValidateShape(ps: seq<Point3>)
    requires |ps| == 4
  {
    && RegularEdge(ps[0], ps[1]) && RegularEdge(ps[0], ps[2]) && RegularEdge(ps[0], ps[3])
    && RegularEdge(ps[1], ps[2]) && RegularEdge(ps[1], ps[3]) && RegularEdge(ps[2], ps[3])
  }

  /** Every centre yields a tetrahedron that passes the shape check. */
  lemma ComputedShapeIsValid(c: Point3)
    ensures ValidateShape(ComputeVertices(c))
  {
    var ps := ComputeVertices(c);
    var z := 2.0 * Z_OFFSET;
    RegularDifference(ps[0], ps[1], 1.0, 0.0, 0.0);
    RegularDifference(ps[2], ps[3], 0.0, 1.0, 0.0);
    RegularDifference(ps[0], ps[2], 0.5, -0.5, -z);
    RegularDifference(ps[0], ps[3], 0.5, 0.5, -z);
    RegularDifference(ps[1], ps[2], -0.5, -0.5, -z);
    RegularDifference(ps[1], ps[3], -0.5, 0.5, -z);
  }

  /** The corners surround the centre: it is their mean, and all four are equally far from it. */
  lemma CornersSurroundTheCentre(c: Point3)
    ensures var ps := ComputeVertices(c);
      && ps[0].x + ps[1].x + ps[2].x + ps[3].x == 4.0 * c.x
      && ps[0].y + ps[1].y + ps[2].y + ps[3].y == 4.0 * c.y
      && ps[0].z + ps[1].z + ps[2].z + ps[3].z == 4.0 * c.z
      && forall i :: 0 <= i < 4 ==> DistanceSq(ps[i], c) == 0.25 + Z_OFFSET * Z_OFFSET
  {
    var ps := ComputeVertices(c);
    DistanceFrom(ps[0], c, 0.5, 0.0, -Z_OFFSET);
    DistanceFrom(ps[1], c, -0.5, 0.0, -Z_OFFSET);
    DistanceFrom(ps[2], c, 0.0, 0.5, Z_OFFSET);
    DistanceFrom(ps[3], c, 0.0, -0.5, Z_OFFSET);
  }

  lemma DistanceFrom(p: Point3, q: Point3, dx: real, dy: real, dz: real)
    requires p.x - q.x == dx && p.y - q.y == dy && p.z - q.z == dz
    ensures DistanceSq(p, q) == dx * dx + dy * dy + dz * dz
  {
  }

  lemma RegularDifference(p: Point3, q: Point3, dx: real, dy: real, dz: real)
    requires p.x - q.x == dx && p.y - q.y == dy && p.z - q.z == dz
    requires (EDGE_LENGTH - SHAPE_EPSILON) * (EDGE_LENGTH - SHAPE_EPSILON) <= dx * dx + dy * dy + dz * dz
    requires dx * dx + dy * dy + dz * dz <= (EDGE_LENGTH + SHAPE_EPSILON) * (EDGE_LENGTH + SHAPE_EPSILON)
    ensures RegularEdge(p, q)
  {
  }

  /** No two corners of a valid shape can merge with one vertex, nor with each other. */
  lemma CornersStayApart(ps: seq<Point3>, i: nat, j: nat)
    requires |ps| == 4 && ValidateShape(ps) && i < 4 && j < 4 && i != j
    ensures DistanceSq(ps[i], ps[j]) >= 0.01
    ensures !Near(ps[i], ps[j])
    ensures forall v :: !(Near(v, ps[i]) && Near(v, ps[j]))
  {
    hide DistanceSq;
    if i < j {
      RegularEdgeIsLong(ps[i], ps[j]);
    } else {
      RegularEdgeIsLong(ps[j], ps[i]);
      DistanceSymmetric(ps[i], ps[j]);
    }
    forall v | Near(v, ps[i]) && Near(v, ps[j])
      ensures false
    {
      NearBoth(ps[i], ps[j], v);
    }
  }

  lemma RegularEdgeIsLong(p: Point3, q: Point3)
    requires RegularEdge(p, q)
    ensures DistanceSq(p, q) >= 0.01
  {
    hide DistanceSq;
  }
}
