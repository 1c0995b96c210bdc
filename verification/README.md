# A* grid pathfinder — Dafny model

This project models the path search of the `pathfinder-wasm` library: a
unit-cost A* search over an unbounded 4-connected integer grid that avoids
a set of obstacle cells, together with its WebAssembly entry point, which
takes the obstacles as a flat array `[x1, y1, x2, y2, ...]` and returns the
path as a flat array of the same shape (empty when there is no path).

Modules, following `src/lib.rs`:

- `Lattice` (`lattice.dfy`): `Point`, the four move deltas in expansion
  order, adjacency, and the Manhattan `Heuristic`.
- `Frontier` (`frontier.dfy`): the search `Node` with `f = g + h`, its
  reversed `Cmp` (the source's `Ord`), its `f`-only `Eq` (the source's
  `PartialEq`), and `PopBest`, the pop of the max-heap over that order. The
  open list is a sequence, and `PopBest` scans it for a greatest node.
- `Reconstruct` (`reconstruct.dfy`): `ReconstructPath` follows parent links
  back from a point and reverses the result, written as the same loop.
- `AStar` (`astar.dfy`): `FindPath`, the main loop with the cost table `g`,
  the parent table and the open list. `ExpandNeighbors` and `Relax` are the
  neighbour loop. The ghost predicates hold the loop invariants.
- `Bridge` (`bridge.dfy`): `DecodePairs`, `DecodeObstacles`, `EncodePath`
  and `FindPathWasm`.

What is proved about the search goes beyond "the path has the right ends".
A path `FindPath` returns is a walk from the start to the goal. Each step
in it is one unit move, and no point after the start is an obstacle. No
walk between the same points is shorter, and its length minus one is the
goal's recorded cost. `NoPath` is returned only when no walk exists at
all. With `start == goal` and `fuel > 0`, the result is `[start]`. Without obstacles,
`NoPath` is never returned, and a path that is found has the Manhattan
distance as its number of moves. On the way it is proved that the
`unwrap()` on the current point's cost never fails, that the start never
receives a parent, and that expanding a point raises no cost and touches
no point other than its four neighbours.

The optimality proof rests on ghost state kept alongside the loop. It
tracks the set of points already expanded and the `f` of the last node
popped, with these invariants:
- every unexpanded point with a cost has an open entry carrying that cost;
- every open entry has `f` at least the last popped `f`;
- every expanded point has relaxed all of its neighbours.

Since Manhattan distance is consistent, an expanded point's cost can never
drop again. Every parent link therefore stays exactly one cost unit long.
Stale open entries, those whose cost is worse than the table's, are popped
without harm. That matches the source, which checks no staleness and
always reads the current point's cost from the table.

In `src/lib.rs` every move costs 1, and nothing is checked when a stale
entry is popped. A search with `start == goal` runs the loop like any
other: the first pop finds the goal and returns `[start]`. The `None`
branch of `find_path` can be reached. It is reached whenever the region
around the start that has no obstacles is finite and does not contain the
goal, for example when the start is walled in and is not the goal. The
source loops forever only when that region is infinite and the goal is
unreachable.

## Model

| member | source | states |
|---|---|---|
| Lattice.Heuristic | src/lib.rs:67-69 | the Manhattan distance is a natural number and is zero exactly when the two points are equal |
| Lattice.HeuristicSymmetric | src/lib.rs:67-69 | the heuristic is symmetric in its two points |
| Lattice.HeuristicTriangle | src/lib.rs:67-69 | the heuristic satisfies the triangle inequality |
| Lattice.AdjacentIffNeighbor | src/lib.rs:114-115 | the four deltas reach exactly the points at Manhattan distance one (Adjacent), and adjacency is symmetric |
| Lattice.HeuristicConsistent | src/lib.rs:67-69 | one unit move changes the heuristic by at most one (it is consistent for unit costs) |
| Frontier.CmpReversesF | src/lib.rs:40-46 | a node is greater than another under the heap order exactly when its f is smaller; Cmp says Equal exactly when PartialEq holds |
| Frontier.CmpIsTotalPreorder | src/lib.rs:40-60 | the heap order is antisymmetric and transitive, and node equality (on f only) is symmetric |
| Frontier.PopBest | src/lib.rs:105 | the popped node was in the open list, is greatest under the heap order (has minimal f), and the rest is the open list minus that one node |
| Reconstruct.Reverse | src/lib.rs:81 | the reversed sequence has the same length, and its element i is element n-1-i of the input |
| Reconstruct.ReverseInvolutive | src/lib.rs:81 | reversing twice gives the sequence back |
| Reconstruct.ReconstructPath | src/lib.rs:72-83 | the path ends at the given point, its first point has no parent, each point's parent is its predecessor, and with unit links its length minus one is the cost difference of its ends |
| AStar.HeuristicAdmissible | src/lib.rs:67-69 | along any walk, the heuristic to the goal is at most the number of remaining moves |
| AStar.WalkAtLeastDistance | src/lib.rs:67-69 | every walk from start to goal has at least Manhattan-distance moves |
| AStar.ShortestOnOpenGrid | src/lib.rs:89-143 | without obstacles a shortest walk has exactly Manhattan-distance moves |
| AStar.FrontierMeetsWalk | src/lib.rs:105-139 | along any walk to the goal there is an unexpanded point whose cost plus heuristic is at most the walk's length |
| AStar.ExhaustedMeansNoWalk | src/lib.rs:141-142 | if a walk to the goal exists, the open list is not empty |
| AStar.BeginExpansion | src/lib.rs:105-111 | popping a non-goal node of minimal f keeps every other unexpanded point's fresh entry, and an unexpanded popped point carries its current cost |
| AStar.RelaxPreserves | src/lib.rs:124-130 | updating the cost and parent of a neighbour whose tentative cost wins, together, and pushing its open entry keeps the expansion invariant |
| AStar.EndExpansion | src/lib.rs:113-138 | once all neighbours are relaxed the expanded point joins the expanded set with the loop invariant intact |
| AStar.Relax | src/lib.rs:117-137 | one neighbour's relaxation; its contract is stated by AStar.RelaxFrame and AStar.RelaxStep |
| AStar.RelaxFrame | src/lib.rs:117-137 | one relaxation changes only the neighbour's cost and parent, raises no cost, gives a changed cost the value g[current]+1 with current as parent, and appends at most the neighbour's entry to the open list; a non-obstacle neighbour ends at cost at most g[current]+1; if the neighbour's cost is unchanged (a tie or a worse tentative cost), nothing changes, its parent included |
| AStar.WinningNeighborIsNew | src/lib.rs:124-130 | a neighbour whose tentative cost wins is not expanded yet, is not the point being expanded and is not the start |
| AStar.RelaxStep | src/lib.rs:115-137 | relaxing one neighbour keeps the invariant, leaves a non-obstacle neighbour at cost at most one more than the current point, and never raises a cost |
| AStar.ExpandNeighbors | src/lib.rs:114-138 | after the neighbour loop every non-obstacle neighbour costs at most one more than the current point and the loop invariant holds with that point expanded; no cost rises, points that are not neighbours keep their cost and parent, a point whose cost is unchanged keeps its parent, and the open list keeps its entries and gains only neighbour entries at cost g[current]+1 |
| AStar.ExpandLoopStep | src/lib.rs:114-138 | relaxing the neighbour in the next direction keeps the expansion invariant, bounds that neighbour's cost by g[current]+1 and keeps the tables framed against the start of the expansion |
| AStar.ExpandLoopDone | src/lib.rs:114-138 | after the four directions every non-obstacle neighbour costs at most g[current]+1 and the main loop invariant holds with current expanded |
| AStar.FinishAtGoal | src/lib.rs:109-110 | the path reconstructed when the goal is popped is a walk from start to goal, no longer than any walk, with length minus one equal to the goal's cost |
| AStar.FindPath | src/lib.rs:89-143 | a found path is a shortest obstacle-avoiding walk from start to goal that follows the parent table and has length g[goal]+1; NoPath only when no walk exists; start == goal with fuel > 0 gives [start]; without obstacles NoPath is never returned and a found path has Manhattan length |
| Bridge.DecodePairs | src/lib.rs:154-156 | decoding yields floor(n/2) points, point i being (flat[2i], flat[2i+1]) |
| Bridge.DecodeObstacles | src/lib.rs:153-156 | every consecutive pair of the flat array is an obstacle and nothing else is |
| Bridge.DecodeDropsTrailing | src/lib.rs:154 | an unpaired trailing element is ignored |
| Bridge.EncodePath | src/lib.rs:166-169 | the encoding has length 2n, with point i's x at index 2i and its y at index 2i+1 |
| Bridge.DecodeEncode | src/lib.rs:165-174 | decoding an encoded path gives the path back |
| Bridge.EncodeDecode | src/lib.rs:154-156 | encoding decoded pairs gives the flat array without its unpaired last element |
| Bridge.FindPathWasm | src/lib.rs:151-175 | a non-empty result decodes to a shortest walk around the decoded obstacles; a finished empty result means no walk exists; start == goal with fuel > 0 gives [x, y] |

## Left out

- `pathfinder.js`: wasm-bindgen glue (memory views, marshalling, module loading, finalizers, parameter getters and setters) with no logic of its own.
- The weighted, one-way-zone and teleport grid search and the physics jump search: their implementation is not part of this model, and only their exported names appear in the glue.
- `BinaryHeap` and `HashMap` internals: the open list is a sequence and the tables are Dafny maps.
- `i32` arithmetic: coordinates and costs are unbounded integers, so overflow near `i32::MAX` is not modelled, and the `unwrap_or(&i32::MAX)` default for a point without a cost is modelled as "no cost yet", which beats every tentative cost.
- Tie-breaking among nodes of equal f: `PopBest` takes the first one in the sequence. The proofs use only that the popped node has minimal f, so they hold for any such choice.
- `partial_cmp`: it always returns `Some(cmp)` and is not modelled separately from `Cmp`.
- AStar.FindPath: without obstacles the contract rules out `NoPath` and gives a found path's length, but no bound on the fuel that guarantees `Found` is proved, so `OutOfFuel` stays possible in the contract for every fuel.
- AStar.FindPath: the source loop has no bound and may run forever on an unbounded grid, so the model pops at most `fuel` nodes and reports `OutOfFuel` when that bound is hit; this outcome does not exist in the source.
- Bridge.FindPathWasm: takes the same `fuel` and returns an empty array with `finished` false when it runs out.
- Reconstruct.ReconstructPath: the source only needs the parent links to be acyclic; the model asks for a ranking (each link goes to a strictly smaller non-negative rank), which a finite acyclic parent map always has and which the search's cost table provides.
