/**
  Grid coordinates and the geometry the search relies on: the four unit
  moves, adjacency, and the Manhattan-distance heuristic.
  Coordinates are unbounded integers; the source stores them as `i32`.
 */
module Lattice {

  /** A cell of the grid, compared by value. */
  datatype Point = Point(x: int, y: int)

  function Abs(v: int): nat
  {
    if v < 0 then -v else v
  }

  /** The move deltas, in the order the search expands them: up, down, right, left. */
  const Directions: seq<(int, int)> := [(0, 1), (0, -1), (1, 0), (-1, 0)]

  function Step(p: Point, d: (int, int)): Point
  {
    Point(p.x + d.0, p.y + d.1)
  }

  /** The four neighbours of `p`, in expansion order. */
  function Neighbors(p: Point): (ns: seq<Point>)
    ensures |ns| == |Directions|
    ensures forall k :: 0 <= k < |ns| ==> ns[k] == Step(p, Directions[k])
  {
    [Step(p, Directions[0]), Step(p, Directions[1]), Step(p, Directions[2]), Step(p, Directions[3])]
  }

  /** Manhattan distance between two cells. */
  function Heuristic(a: Point, b: Point): (d: nat)
    ensures d == 0 <==> a == b
  {
    Abs(a.x - b.x) + Abs(a.y - b.y)
  }

  /** `a` and `b` are one unit move apart. */
  predicate Adjacent(a: Point, b: Point)
  {
    Heuristic(a, b) == 1
  }

  lemma HeuristicSymmetric(a: Point, b: Point)
    ensures Heuristic(a, b) == Heuristic(b, a)
  {
  }

  lemma HeuristicTriangle(a: Point, b: Point, c: Point)
    ensures Heuristic(a, c) <= Heuristic(a, b) + Heuristic(b, c)
  {
  }

  /**
    The points adjacent to `a` are exactly its four neighbours, and
    adjacency is symmetric.
   */
  lemma AdjacentIffNeighbor(a: Point, b: Point)
    ensures Adjacent(a, b) <==> b in Neighbors(a)
    ensures Adjacent(a, b) <==> Adjacent(b, a)
  {
  }

  /**
    One unit move changes the heuristic by at most one: Manhattan distance is
    a consistent (monotone) heuristic for unit-cost moves.
   */
  lemma HeuristicConsistent(a: Point, b: Point, goal: Point)
    requires Adjacent(a, b)
    ensures Heuristic(a, goal) <= Heuristic(b, goal) + 1
    ensures Heuristic(b, goal) <= Heuristic(a, goal) + 1
  {
  }
}
