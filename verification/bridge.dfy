/**
  The exported entry point: obstacles arrive as a flat array
  `[x1, y1, x2, y2, ...]` and the path leaves as one, with an empty array
  for "no path".
 */
module Bridge {
  import opened Lattice
  import opened AStar

  /**
    Consecutive pairs of `flat` as points; a trailing element without a
    partner is dropped.
   */
  function DecodePairs(flat: seq<int>): (pts: seq<Point>)
    ensures |pts| == |flat| / 2
    ensures forall i :: 0 <= i < |pts| ==> pts[i] == Point(flat[2 * i], flat[2 * i + 1])
    decreases |flat|
  {
    if |flat| < 2 then [] else [Point(flat[0], flat[1])] + DecodePairs(flat[2..])
  }

  /** The obstacle set the flat array describes. */
  function DecodeObstacles(flat: seq<int>): (obstacles: set<Point>)
    ensures forall i :: 0 <= i < |flat| / 2 ==> Point(flat[2 * i], flat[2 * i + 1]) in obstacles
    ensures forall p :: p in obstacles ==> p in DecodePairs(flat)
  {
    var pts := DecodePairs(flat);
    assert forall i :: 0 <= i < |flat| / 2 ==> pts[i] in pts;
    set p | p in pts
  }

  /** Each point as its two coordinates, in path order. */
  function EncodePath(path: seq<Point>): (flat: seq<int>)
    ensures |flat| == 2 * |path|
    ensures forall i :: 0 <= i < |path| ==> flat[2 * i] == path[i].x && flat[2 * i + 1] == path[i].y
  {
    if path == [] then [] else [path[0].x, path[0].y] + EncodePath(path[1..])
  }

  /** Decoding an encoded path gives the path back. */
  lemma DecodeEncode(path: seq<Point>)
    ensures DecodePairs(EncodePath(path)) == path
  {
  }

  /** Encoding decoded pairs gives back the flat array without its unpaired last element. */
  lemma {:induction false} EncodeDecode(flat: seq<int>)
    ensures EncodePath(DecodePairs(flat)) == flat[..2 * (|flat| / 2)]
    decreases |flat|
  {
    if |flat| >= 2 {
      EncodeDecode(flat[2..]);
      assert flat[2..][..2 * (|flat[2..]| / 2)] == flat[2..2 * (|flat| / 2)];
      assert flat[..2 * (|flat| / 2)] == [flat[0], flat[1]] + flat[2..2 * (|flat| / 2)];
    }
  }

  /** An unpaired trailing element does not change the decoded points. */
  lemma DecodeDropsTrailing(flat: seq<int>, v: int)
    requires |flat| % 2 == 0
    ensures DecodePairs(flat + [v]) == DecodePairs(flat)
  {
  }

  /**
    Decodes the obstacles, searches with at most `fuel` pops, and encodes the
    outcome. `finished` is false only when the fuel ran out, in which case
    the result is empty as well.
   */
  method FindPathWasm(startX: int, startY: int, goalX: int, goalY: int, obstaclesFlat: seq<int>, fuel: nat)
    returns (flat: seq<int>, finished: bool)
    ensures !finished ==> flat == []
    ensures flat != [] ==>
      && |flat| % 2 == 0
      && IsWalk(DecodePairs(flat), Point(startX, startY), Point(goalX, goalY), DecodeObstacles(obstaclesFlat))
    ensures flat != [] ==>
      forall q :: IsWalk(q, Point(startX, startY), Point(goalX, goalY), DecodeObstacles(obstaclesFlat)) ==>
        |flat| <= 2 * |q|
    ensures finished ==>
      (flat == [] <==> forall q :: !IsWalk(q, Point(startX, startY), Point(goalX, goalY), DecodeObstacles(obstaclesFlat)))
    ensures fuel > 0 && startX == goalX && startY == goalY ==> flat == [startX, startY]
  {
    var obstacles := DecodeObstacles(obstaclesFlat);
    var start := Point(startX, startY);
    var goal := Point(goalX, goalY);
    var result;
    ghost var gScores, parents;
    result, gScores, parents := FindPath(start, goal, obstacles, fuel);
    match result {
      case Found(path) =>
        flat := EncodePath(path);
        finished := true;
        DecodeEncode(path);
      case NoPath =>
        flat := [];
        finished := true;
      case OutOfFuel =>
        flat := [];
        finished := false;
    }
  }
}
