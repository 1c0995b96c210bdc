/**
  Unit-cost A* over the unbounded 4-connected grid, avoiding a set of
  obstacle cells.

  The open list holds nodes that may be stale: a point's entry is never
  removed when a cheaper route to it is found, a new entry is pushed instead,
  and expansion always reads the point's current cost from the cost table.
  The source loops until the open list is empty, which need not happen on an
  unbounded grid; here the number of pops is bounded by `fuel`, and running
  out of it is a third outcome of its own.
 */
module AStar {
  import opened Lattice
  import opened Frontier
  import opened Reconstruct

  datatype Outcome = Found(path: seq<Point>) | NoPath | OutOfFuel

  /** Consecutive points of `q` are one unit move apart. */
  predicate Chained(q: seq<Point>)
  {
    forall i :: 0 < i < |q| ==> Adjacent(q[i - 1], q[i])
  }

  /**
    A walk from `start` to `goal` by unit moves that enters no obstacle. The
    start itself is never tested against the obstacles, as in the source.
   */
  predicate IsWalk(q: seq<Point>, start: Point, goal: Point, obstacles: set<Point>)
  {
    && |q| >= 1
    && q[0] == start
    && q[|q| - 1] == goal
    && Chained(q)
    && (forall i :: 0 < i < |q| ==> q[i] !in obstacles)
  }

  /** Putting a point adjacent to the head of a walk in front of it gives a walk from that point. */
  lemma WalkPrepend(a: Point, q: seq<Point>, goal: Point, obstacles: set<Point>)
    requires |q| >= 1 && IsWalk(q, q[0], goal, obstacles)
    requires Adjacent(a, q[0]) && q[0] !in obstacles
    ensures IsWalk([a] + q, a, goal, obstacles)
  {
  }

  /** One move from `a` that brings it closer to `b`: along x first, then along y. */
  function StepToward(a: Point, b: Point): (c: Point)
    requires a != b
    ensures Adjacent(a, c) && Heuristic(c, b) == Heuristic(a, b) - 1
  {
    if a.x < b.x then Point(a.x + 1, a.y)
    else if a.x > b.x then Point(a.x - 1, a.y)
    else if a.y < b.y then Point(a.x, a.y + 1)
    else Point(a.x, a.y - 1)
  }

  /** On a grid without obstacles a walk of exactly Manhattan length joins any two points. */
  function Staircase(a: Point, b: Point): (q: seq<Point>)
    ensures IsWalk(q, a, b, {}) && |q| == Heuristic(a, b) + 1
    decreases Heuristic(a, b)
  {
    if a == b then [a]
    else
      var rest := Staircase(StepToward(a, b), b);
      WalkPrepend(a, rest, b, {});
      [a] + rest
  }

  /**
    Without obstacles the shortest walks are exactly as long as the Manhattan
    distance, so a path the search finds has that length.
   */
  lemma ShortestOnOpenGrid(path: seq<Point>, start: Point, goal: Point)
    requires IsWalk(path, start, goal, {})
    requires forall q :: IsWalk(q, start, goal, {}) ==> |path| <= |q|
    ensures |path| - 1 == Heuristic(start, goal)
  {
    WalkAtLeastDistance(path, start, goal, {});
    var s := Staircase(start, goal);
    assert |path| <= |s|;
  }

  // ---------------------------------------------------------------------
  // Search invariants
  // ---------------------------------------------------------------------

  /**
    The cost table and the parent table are written together: every point
    with a cost other than the start has a parent, the start has cost 0 and
    no parent, and no cost is negative.
   */
  ghost predicate TablesAgree(start: Point, g: map<Point, int>, parents: map<Point, Point>)
  {
    && start in g && g[start] == 0 && start !in parents
    && (forall p :: p in parents ==> p in g)
    && (forall p :: p in g && p != start ==> p in parents)
    && (forall p :: p in g ==> g[p] >= 0)
  }

  /**
    Each parent link is one unit move from an already expanded point into a
    non-obstacle point whose cost is one more than its parent's.
   */
  ghost predicate ParentLinks(obstacles: set<Point>, g: map<Point, int>, parents: map<Point, Point>, closed: set<Point>)
  {
    forall p :: p in parents ==>
      && p in g && parents[p] in closed && parents[p] in g
      && Adjacent(parents[p], p) && p !in obstacles
      && g[p] == g[parents[p]] + 1
  }

  /**
    Every open entry is for a point with a cost, carries a cost no better
    than the table's, carries the heuristic of its point, and has an `f` no
    smaller than that of the last node popped.
   */
  ghost predicate OpenSound(goal: Point, open: seq<Node>, g: map<Point, int>, fLast: int)
  {
    forall n :: n in open ==>
      && n.position in g && g[n.position] <= n.g
      && n.h == Heuristic(n.position, goal)
      && fLast <= n.F()
  }

  /** Every point not yet expanded has an open entry carrying its current cost. */
  ghost predicate FreshEntries(goal: Point, open: seq<Node>, g: map<Point, int>, closed: set<Point>)
  {
    forall p :: p in g && p !in closed ==> Node(p, g[p], Heuristic(p, goal)) in open
  }

  /**
    Expanded points: the goal is never among them, their `f` is at most that
    of the last node popped, and each of them has relaxed all its
    non-obstacle neighbours.
   */
  ghost predicate ClosedSettled(goal: Point, obstacles: set<Point>, g: map<Point, int>, closed: set<Point>, fLast: int)
  {
    && goal !in closed
    && (forall p :: p in closed ==> p in g && g[p] + Heuristic(p, goal) <= fLast)
    && (forall p, m :: p in closed && Adjacent(p, m) && m !in obstacles ==>
          p in g && m in g && g[m] <= g[p] + 1)
  }

  // ---------------------------------------------------------------------
  // Lemmas about walks and the frontier
  // ---------------------------------------------------------------------

  /** The Manhattan heuristic never overestimates the number of moves left on a walk. */
  lemma {:induction false} HeuristicAdmissible(q: seq<Point>, k: nat, goal: Point)
    requires k < |q| && q[|q| - 1] == goal
    requires Chained(q)
    ensures Heuristic(q[k], goal) <= |q| - 1 - k
    decreases |q| - k
  {
    if k < |q| - 1 {
      HeuristicAdmissible(q, k + 1, goal);
      assert Adjacent(q[k], q[k + 1]);
      HeuristicConsistent(q[k], q[k + 1], goal);
    }
  }

  /** No walk from `start` to `goal` is shorter than their Manhattan distance. */
  lemma WalkAtLeastDistance(q: seq<Point>, start: Point, goal: Point, obstacles: set<Point>)
    requires IsWalk(q, start, goal, obstacles)
    ensures |q| - 1 >= Heuristic(start, goal)
  {
    HeuristicAdmissible(q, 0, goal);
  }

  /**
    Along any walk from the start to the goal there is an unexpanded point
    whose cost plus heuristic is at most the walk's number of moves. This is
    the A* frontier argument: follow the walk through expanded points, whose
    neighbours are all relaxed, until the first unexpanded one.
   */
  lemma {:induction false} FrontierMeetsWalk(start: Point, goal: Point, obstacles: set<Point>,
                                             g: map<Point, int>, closed: set<Point>, fLast: int,
                                             q: seq<Point>, k: nat)
    requires ClosedSettled(goal, obstacles, g, closed, fLast)
    requires IsWalk(q, start, goal, obstacles)
    requires k < |q| && q[k] in g && g[q[k]] <= k
    ensures exists p :: p in g && p !in closed && g[p] + Heuristic(p, goal) <= |q| - 1
    decreases |q| - k
  {
    if q[k] !in closed {
      HeuristicAdmissible(q, k, goal);
      assert g[q[k]] + Heuristic(q[k], goal) <= |q| - 1;
    } else {
      assert k + 1 < |q|;
      assert Adjacent(q[k], q[k + 1]);
      FrontierMeetsWalk(start, goal, obstacles, g, closed, fLast, q, k + 1);
    }
  }

  /** If any walk reaches the goal, the open list is not empty. */
  lemma ExhaustedMeansNoWalk(start: Point, goal: Point, obstacles: set<Point>, open: seq<Node>,
                             g: map<Point, int>, closed: set<Point>, fLast: int)
    requires start in g && g[start] == 0
    requires FreshEntries(goal, open, g, closed)
    requires ClosedSettled(goal, obstacles, g, closed, fLast)
    ensures (exists q :: IsWalk(q, start, goal, obstacles)) ==> |open| > 0
  {
    if q :| IsWalk(q, start, goal, obstacles) {
      FrontierMeetsWalk(start, goal, obstacles, g, closed, fLast, q, 0);
      var p :| p in g && p !in closed && g[p] + Heuristic(p, goal) <= |q| - 1;
      assert Node(p, g[p], Heuristic(p, goal)) in open;
    }
  }

  /** The invariant of the main loop. */
  ghost predicate SearchInv(start: Point, goal: Point, obstacles: set<Point>, open: seq<Node>,
                            g: map<Point, int>, parents: map<Point, Point>, closed: set<Point>, fLast: int)
  {
    && TablesAgree(start, g, parents)
    && ParentLinks(obstacles, g, parents, closed)
    && OpenSound(goal, open, g, fLast)
    && FreshEntries(goal, open, g, closed)
    && ClosedSettled(goal, obstacles, g, closed, fLast)
  }

  /**
    The invariant while the neighbours of `current` are relaxed: `current`
    was popped with `f` equal to `fBest`, its cost `gc` stays fixed, it counts
    as expanded for parent links, and every other unexpanded point keeps its
    fresh entry. If `current` had not been expanded before, the popped entry
    carried its current cost.
   */
  ghost predicate Expanding(start: Point, goal: Point, obstacles: set<Point>, open: seq<Node>,
                            g: map<Point, int>, parents: map<Point, Point>, closed: set<Point>,
                            fPrev: int, current: Point, gc: int, fBest: int)
  {
    && current != goal
    && current in g && g[current] == gc
    && fPrev <= fBest
    && (current !in closed ==> fBest == gc + Heuristic(current, goal))
    && TablesAgree(start, g, parents)
    && ParentLinks(obstacles, g, parents, closed + {current})
    && OpenSound(goal, open, g, fBest)
    && (forall p :: p in g && p !in closed && p != current ==> Node(p, g[p], Heuristic(p, goal)) in open)
    && ClosedSettled(goal, obstacles, g, closed, fPrev)
  }

  /** Popping a node that is not the goal starts its expansion. */
  lemma BeginExpansion(start: Point, goal: Point, obstacles: set<Point>, open: seq<Node>,
                       g: map<Point, int>, parents: map<Point, Point>, closed: set<Point>, fLast: int,
                       best: Node, rest: seq<Node>)
    requires SearchInv(start, goal, obstacles, open, g, parents, closed, fLast)
    requires best in open && best.position != goal
    requires forall n :: n in open ==> best.F() <= n.F()
    requires forall n :: n in open <==> n == best || n in rest
    ensures Expanding(start, goal, obstacles, rest, g, parents, closed, fLast,
                      best.position, g[best.position], best.F())
  {
  }

  /**
    A neighbour whose tentative cost beats its recorded one is neither
    expanded, nor the point being expanded, nor the start. For an expanded
    neighbour this is where consistency of the heuristic is used: its cost
    plus heuristic is at most the popped `f`, so it already costs at most one
    more than `current`.
   */
  lemma WinningNeighborIsNew(start: Point, goal: Point, obstacles: set<Point>, open: seq<Node>,
                             g: map<Point, int>, parents: map<Point, Point>, closed: set<Point>,
                             fPrev: int, current: Point, gc: int, fBest: int, neighbor: Point)
    requires Expanding(start, goal, obstacles, open, g, parents, closed, fPrev, current, gc, fBest)
    requires Adjacent(current, neighbor) && neighbor !in obstacles
    requires neighbor !in g || gc + 1 < g[neighbor]
    ensures neighbor !in closed && neighbor != current && neighbor != start
  {
    AdjacentIffNeighbor(current, neighbor);
    HeuristicConsistent(current, neighbor, goal);
    assert neighbor != current;
    assert neighbor !in closed;
  }

  /**
    A neighbour whose tentative cost beats its recorded one is neither
    expanded nor the start, so updating it together with its parent keeps
    the expansion invariant.
   */
  lemma RelaxPreserves(start: Point, goal: Point, obstacles: set<Point>, open: seq<Node>,
                       g: map<Point, int>, parents: map<Point, Point>, closed: set<Point>,
                       fPrev: int, current: Point, gc: int, fBest: int, neighbor: Point)
    requires Expanding(start, goal, obstacles, open, g, parents, closed, fPrev, current, gc, fBest)
    requires Adjacent(current, neighbor) && neighbor !in obstacles
    requires neighbor !in g || gc + 1 < g[neighbor]
    ensures Expanding(start, goal, obstacles, open + [Node(neighbor, gc + 1, Heuristic(neighbor, goal))],
                      g[neighbor := gc + 1], parents[neighbor := current], closed,
                      fPrev, current, gc, fBest)
  {
    WinningNeighborIsNew(start, goal, obstacles, open, g, parents, closed, fPrev, current, gc, fBest, neighbor);
    HeuristicConsistent(current, neighbor, goal);
    var open' := open + [Node(neighbor, gc + 1, Heuristic(neighbor, goal))];
    var g' := g[neighbor := gc + 1];
    var parents' := parents[neighbor := current];
    assert current in g' && g'[current] == gc;
    assert TablesAgree(start, g', parents');
    assert ParentLinks(obstacles, g', parents', closed + {current});
    assert OpenSound(goal, open', g', fBest);
    assert forall p :: p in g' && p !in closed && p != current ==> Node(p, g'[p], Heuristic(p, goal)) in open';
    assert ClosedSettled(goal, obstacles, g', closed, fPrev);
  }

  /** Once every neighbour of `current` is relaxed, `current` joins the expanded points. */
  lemma EndExpansion(start: Point, goal: Point, obstacles: set<Point>, open: seq<Node>,
                     g: map<Point, int>, parents: map<Point, Point>, closed: set<Point>,
                     fPrev: int, current: Point, gc: int, fBest: int)
    requires Expanding(start, goal, obstacles, open, g, parents, closed, fPrev, current, gc, fBest)
    requires gc + Heuristic(current, goal) <= fBest
    requires forall m :: Adjacent(current, m) && m !in obstacles ==> m in g && g[m] <= gc + 1
    ensures SearchInv(start, goal, obstacles, open, g, parents, closed + {current}, fBest)
  {
  }

  /** The three tables the search loop updates together. */
  datatype Tables = Tables(open: seq<Node>, g: map<Point, int>, parents: map<Point, Point>)

  /**
    One neighbour of `current`: unless it is an obstacle, a cost for it
    one more than the cost of `current` is recorded, with `current` as parent
    and a new open entry, when it beats the cost recorded so far.
   */
  function Relax(current: Point, neighbor: Point, goal: Point, obstacles: set<Point>, t: Tables): Tables
    requires current in t.g
  {
    if neighbor in obstacles then t
    else
      var tentative := t.g[current] + 1;
      if neighbor !in t.g || tentative < t.g[neighbor] then
        Tables(t.open + [Node(neighbor, tentative, Heuristic(neighbor, goal))],
               t.g[neighbor := tentative],
               t.parents[neighbor := current])
      else
        t
  }

  /**
    What one relaxation may change: only the neighbour's cost and parent, a
    changed cost is one more than the cost of `current` with `current` as
    parent, no cost rises, and the open list gains at most the neighbour's
    entry. A non-obstacle neighbour ends up costing at most one more than
    `current`, and a neighbour whose cost stays (a tie included) keeps its
    parent: cost and parent are written together, only on a strict
    improvement.
   */
  lemma RelaxFrame(current: Point, neighbor: Point, goal: Point, obstacles: set<Point>, t: Tables)
    requires current in t.g
    ensures var r := Relax(current, neighbor, goal, obstacles, t);
      // only the neighbour's cost and parent can change, and no cost rises
      && (forall m :: m != neighbor ==> (m in r.g <==> m in t.g) && (m in t.g ==> r.g[m] == t.g[m]))
      && (forall m :: m != neighbor ==> (m in r.parents <==> m in t.parents) && (m in t.parents ==> r.parents[m] == t.parents[m]))
      && (forall m :: m in t.g ==> m in r.g && r.g[m] <= t.g[m])
      // a changed cost is one more than the cost of `current`, with `current` as parent
      && (neighbor in r.g && (neighbor !in t.g || r.g[neighbor] != t.g[neighbor]) ==>
            && neighbor !in obstacles
            && r.g[neighbor] == t.g[current] + 1
            && neighbor in r.parents && r.parents[neighbor] == current)
      // the open list keeps its entries and gains at most one, for the neighbour at its new cost
      && |t.open| <= |r.open| <= |t.open| + 1 && r.open[..|t.open|] == t.open
      && (|r.open| > |t.open| ==> neighbor in r.g && r.open[|t.open|] == Node(neighbor, r.g[neighbor], Heuristic(neighbor, goal)))
      // a non-obstacle neighbour ends up costing at most one more than `current`
      && (neighbor !in obstacles ==> neighbor in r.g && r.g[neighbor] <= t.g[current] + 1)
      // when the neighbour's cost does not change, nothing changes, its parent included
      && ((neighbor in t.g && neighbor in r.g && r.g[neighbor] == t.g[neighbor]) || neighbor !in r.g ==> r == t)
  {
  }

  /**
    The two outcomes of a relaxation: an improving neighbour gets the new
    cost, `current` as parent and an open entry; otherwise nothing changes.
   */
  lemma RelaxOutcome(current: Point, neighbor: Point, goal: Point, obstacles: set<Point>, t: Tables)
    requires current in t.g
    ensures var improves := neighbor !in obstacles && (neighbor !in t.g || t.g[current] + 1 < t.g[neighbor]);
      && (improves ==>
            Relax(current, neighbor, goal, obstacles, t) ==
            Tables(t.open + [Node(neighbor, t.g[current] + 1, Heuristic(neighbor, goal))],
                   t.g[neighbor := t.g[current] + 1], t.parents[neighbor := current]))
      && (!improves ==> Relax(current, neighbor, goal, obstacles, t) == t)
  {
  }

  /** Relaxing a neighbour that improves on its recorded cost, as in RelaxStep. */
  lemma RelaxImproving(start: Point, goal: Point, obstacles: set<Point>, t: Tables, closed: set<Point>,
                        fPrev: int, current: Point, gc: int, fBest: int, neighbor: Point)
    requires Expanding(start, goal, obstacles, t.open, t.g, t.parents, closed, fPrev, current, gc, fBest)
    requires Adjacent(current, neighbor)
    requires neighbor !in obstacles && (neighbor !in t.g || gc + 1 < t.g[neighbor])
    ensures var t' := Relax(current, neighbor, goal, obstacles, t);
      && Expanding(start, goal, obstacles, t'.open, t'.g, t'.parents, closed, fPrev, current, gc, fBest)
      && (neighbor !in obstacles ==> neighbor in t'.g && t'.g[neighbor] <= gc + 1)
      && (forall m :: m in t.g ==> m in t'.g && t'.g[m] <= t.g[m])
  {
    RelaxPreserves(start, goal, obstacles, t.open, t.g, t.parents, closed, fPrev, current, gc, fBest, neighbor);
    RelaxOutcome(current, neighbor, goal, obstacles, t);
  }

  /** Relaxing a neighbour that does not improve on its recorded cost, as in RelaxStep. */
  lemma RelaxNotImproving(start: Point, goal: Point, obstacles: set<Point>, t: Tables, closed: set<Point>,
                           fPrev: int, current: Point, gc: int, fBest: int, neighbor: Point)
    requires Expanding(start, goal, obstacles, t.open, t.g, t.parents, closed, fPrev, current, gc, fBest)
    requires Adjacent(current, neighbor)
    requires neighbor in obstacles || (neighbor in t.g && gc + 1 >= t.g[neighbor])
    ensures var t' := Relax(current, neighbor, goal, obstacles, t);
      && Expanding(start, goal, obstacles, t'.open, t'.g, t'.parents, closed, fPrev, current, gc, fBest)
      && (neighbor !in obstacles ==> neighbor in t'.g && t'.g[neighbor] <= gc + 1)
      && (forall m :: m in t.g ==> m in t'.g && t'.g[m] <= t.g[m])
  {
    RelaxOutcome(current, neighbor, goal, obstacles, t);
  }

  /**
    Relaxing a neighbour keeps the expansion invariant, leaves a non-obstacle
    neighbour costing at most one more than `current`, and raises no cost.
   */
  lemma RelaxStep(start: Point, goal: Point, obstacles: set<Point>, t: Tables, closed: set<Point>,
                  fPrev: int, current: Point, gc: int, fBest: int, neighbor: Point)
    requires Expanding(start, goal, obstacles, t.open, t.g, t.parents, closed, fPrev, current, gc, fBest)
    requires Adjacent(current, neighbor)
    ensures var t' := Relax(current, neighbor, goal, obstacles, t);
      && Expanding(start, goal, obstacles, t'.open, t'.g, t'.parents, closed, fPrev, current, gc, fBest)
      && (neighbor !in obstacles ==> neighbor in t'.g && t'.g[neighbor] <= gc + 1)
      && (forall m :: m in t.g ==> m in t'.g && t'.g[m] <= t.g[m])
  {
    if neighbor !in obstacles && (neighbor !in t.g || gc + 1 < t.g[neighbor]) {
      RelaxImproving(start, goal, obstacles, t, closed, fPrev, current, gc, fBest, neighbor);
    } else {
      RelaxNotImproving(start, goal, obstacles, t, closed, fPrev, current, gc, fBest, neighbor);
    }
  }

  /**
    How the tables `t` reached while expanding `current` relate to the tables
    `t0` the expansion started from: no cost rose, points that are not
    neighbours of `current` kept their cost and parent, and the open list only
    gained entries for neighbours, each one more than the cost of `current`.
   */
  ghost predicate Framed(current: Point, t0: Tables, t: Tables)
    requires current in t0.g
  {
    && (forall m :: m in t0.g ==> m in t.g && t.g[m] <= t0.g[m])
    && (forall m :: !Adjacent(current, m) ==>
          && (m in t.g <==> m in t0.g) && (m in t0.g ==> t.g[m] == t0.g[m])
          && (m in t.parents <==> m in t0.parents) && (m in t0.parents ==> t.parents[m] == t0.parents[m]))
    && |t0.open| <= |t.open| && t.open[..|t0.open|] == t0.open
    && (forall i :: |t0.open| <= i < |t.open| ==>
          Adjacent(current, t.open[i].position) && t.open[i].g == t0.g[current] + 1)
    && (forall m :: m in t0.g && t.g[m] == t0.g[m] ==>
          (m in t.parents <==> m in t0.parents) && (m in t0.parents ==> t.parents[m] == t0.parents[m]))
  }

  /** Relaxing a neighbour of `current` whose cost is unchanged keeps the tables framed. */
  lemma RelaxKeepsFramed(current: Point, neighbor: Point, goal: Point, obstacles: set<Point>, t0: Tables, t: Tables)
    requires current in t0.g && Framed(current, t0, t)
    requires current in t.g && t.g[current] == t0.g[current]
    requires Adjacent(current, neighbor)
    ensures Framed(current, t0, Relax(current, neighbor, goal, obstacles, t))
  {
    RelaxFrame(current, neighbor, goal, obstacles, t);
    var t' := Relax(current, neighbor, goal, obstacles, t);
    assert t'.open[..|t0.open|] == t.open[..|t.open|][..|t0.open|];
    forall i | |t0.open| <= i < |t'.open|
      ensures Adjacent(current, t'.open[i].position) && t'.open[i].g == t0.g[current] + 1
    {
      if i >= |t.open| {
        assert neighbor in t'.g && (neighbor !in t.g || t'.g[neighbor] != t.g[neighbor]);
      } else {
        assert t'.open[i] == t.open[i];
      }
    }
    forall m | m in t0.g && t'.g[m] == t0.g[m]
      ensures (m in t'.parents <==> m in t0.parents) && (m in t0.parents ==> t'.parents[m] == t0.parents[m])
    {
      assert t.g[m] == t0.g[m];
      if m == neighbor {
        assert t' == t;
      }
    }
  }

  /**
    The invariant of the neighbour loop after the first `k` directions: the
    expansion invariant, the first `k` non-obstacle neighbours cost at most
    one more than `current`, and the tables are framed against the tables
    `t0` the expansion started from.
   */
  ghost predicate ExpandLoop(start: Point, goal: Point, obstacles: set<Point>, closed: set<Point>,
                             fPrev: int, current: Point, fBest: int, t0: Tables, k: int, t: Tables)
    requires current in t0.g
  {
    && 0 <= k <= |Directions|
    && Expanding(start, goal, obstacles, t.open, t.g, t.parents, closed, fPrev, current, t0.g[current], fBest)
    && (forall j :: 0 <= j < k && Step(current, Directions[j]) !in obstacles ==>
          Step(current, Directions[j]) in t.g && t.g[Step(current, Directions[j])] <= t0.g[current] + 1)
    && Framed(current, t0, t)
  }

  /** Relaxing the neighbour in direction `k` advances the neighbour loop. */
  lemma ExpandLoopStep(start: Point, goal: Point, obstacles: set<Point>, closed: set<Point>,
                       fPrev: int, current: Point, fBest: int, t0: Tables, k: int, t: Tables)
    requires current in t0.g
    requires ExpandLoop(start, goal, obstacles, closed, fPrev, current, fBest, t0, k, t)
    requires k < |Directions|
    ensures current in t.g
    ensures ExpandLoop(start, goal, obstacles, closed, fPrev, current, fBest, t0, k + 1,
                       Relax(current, Step(current, Directions[k]), goal, obstacles, t))
  {
    var gc := t0.g[current];
    var neighbor := Step(current, Directions[k]);
    AdjacentIffNeighbor(current, neighbor);
    RelaxStep(start, goal, obstacles, t, closed, fPrev, current, gc, fBest, neighbor);
    RelaxKeepsFramed(current, neighbor, goal, obstacles, t0, t);
  }

  /**
    After all four directions, every non-obstacle neighbour costs at most one
    more than `current`, which joins the expanded points.
   */
  lemma ExpandLoopDone(start: Point, goal: Point, obstacles: set<Point>, closed: set<Point>,
                       fPrev: int, current: Point, fBest: int, t0: Tables, t: Tables)
    requires current in t0.g
    requires ExpandLoop(start, goal, obstacles, closed, fPrev, current, fBest, t0, |Directions|, t)
    requires t0.g[current] + Heuristic(current, goal) <= fBest
    ensures SearchInv(start, goal, obstacles, t.open, t.g, t.parents, closed + {current}, fBest)
    ensures forall m :: Adjacent(current, m) && m !in obstacles ==> m in t.g && t.g[m] <= t0.g[current] + 1
  {
    var gc := t0.g[current];
    forall m | Adjacent(current, m) && m !in obstacles
      ensures m in t.g && t.g[m] <= gc + 1
    {
      AdjacentIffNeighbor(current, m);
      var j :| 0 <= j < |Directions| && Neighbors(current)[j] == m;
      assert Step(current, Directions[j]) == m;
    }
    EndExpansion(start, goal, obstacles, t.open, t.g, t.parents, closed, fPrev, current, gc, fBest);
  }

  /**
    The body of the search loop after a non-goal pop: each of the four
    neighbours of `current` is relaxed in turn, after which every
    non-obstacle neighbour costs at most one more than `current` and
    `current` counts as expanded. Nothing else changes: no cost rises,
    points that are not neighbours keep their cost and parent, and the open
    list only gains entries for neighbours.
   */
  method ExpandNeighbors(current: Point, goal: Point, obstacles: set<Point>, open: seq<Node>,
                         g: map<Point, int>, parents: map<Point, Point>,
                         ghost start: Point, ghost closed: set<Point>, ghost fPrev: int, ghost fBest: int)
    returns (open': seq<Node>, g': map<Point, int>, parents': map<Point, Point>)
    requires current in g
    requires Expanding(start, goal, obstacles, open, g, parents, closed, fPrev, current, g[current], fBest)
    requires g[current] + Heuristic(current, goal) <= fBest
    ensures SearchInv(start, goal, obstacles, open', g', parents', closed + {current}, fBest)
    ensures forall m :: Adjacent(current, m) && m !in obstacles ==> m in g' && g'[m] <= g[current] + 1
    ensures forall m :: m in g ==> m in g' && g'[m] <= g[m]
    ensures forall m :: !Adjacent(current, m) ==>
      && (m in g' <==> m in g) && (m in g ==> g'[m] == g[m])
      && (m in parents' <==> m in parents) && (m in parents ==> parents'[m] == parents[m])
    ensures |open| <= |open'| && open'[..|open|] == open
    ensures forall i :: |open| <= i < |open'| ==> Adjacent(current, open'[i].position) && open'[i].g == g[current] + 1
    ensures forall m :: m in g && g'[m] == g[m] ==>
      (m in parents' <==> m in parents) && (m in parents ==> parents'[m] == parents[m])
  {
    var t := Tables(open, g, parents);
    ghost var t0 := t;
    assert t0.open[..|t0.open|] == t0.open;
    for k := 0 to |Directions|
      invariant ExpandLoop(start, goal, obstacles, closed, fPrev, current, fBest, t0, k, t)
    {
      ExpandLoopStep(start, goal, obstacles, closed, fPrev, current, fBest, t0, k, t);
      t := Relax(current, Step(current, Directions[k]), goal, obstacles, t);
    }
    ExpandLoopDone(start, goal, obstacles, closed, fPrev, current, fBest, t0, t);
    open', g', parents' := t.open, t.g, t.parents;
  }

  /**
    What the search returns once the goal is popped: the reconstructed path,
    which is a walk from the start, as long as the goal's cost, and no longer
    than any other walk.
   */
  method FinishAtGoal(start: Point, goal: Point, obstacles: set<Point>, ghost open: seq<Node>,
                      g: map<Point, int>, parents: map<Point, Point>, ghost closed: set<Point>, ghost fLast: int,
                      best: Node)
    returns (path: seq<Point>)
    requires SearchInv(start, goal, obstacles, open, g, parents, closed, fLast)
    requires best in open && best.position == goal
    requires forall n :: n in open ==> best.F() <= n.F()
    ensures IsWalk(path, start, goal, obstacles)
    ensures forall q :: IsWalk(q, start, goal, obstacles) ==> |path| <= |q|
    ensures goal in g && |path| - 1 == g[goal]
    ensures FollowsLinks(parents, path)
  {
    assert DescendingLinks(parents, g);
    assert UnitLinks(parents, g);
    path := ReconstructPath(parents, goal, g);
    assert path[0] == start;
    assert |path| - 1 == g[goal];
    assert g[goal] <= best.F() by {
      assert best.h == Heuristic(goal, goal) == 0;
    }
    forall i | 0 < i < |path|
      ensures Adjacent(path[i - 1], path[i]) && path[i] !in obstacles
    {
      assert parents[path[i]] == path[i - 1];
    }
    forall q | IsWalk(q, start, goal, obstacles)
      ensures |path| <= |q|
    {
      FrontierMeetsWalk(start, goal, obstacles, g, closed, fLast, q, 0);
      var p :| p in g && p !in closed && g[p] + Heuristic(p, goal) <= |q| - 1;
      var n := Node(p, g[p], Heuristic(p, goal));
      assert n in open;
      assert best.F() <= n.F();
    }
  }

  // ---------------------------------------------------------------------
  // The search
  // ---------------------------------------------------------------------

  /**
    A* from `start` to `goal` around `obstacles`, popping at most `fuel`
    nodes. A found path is a shortest walk; `NoPath` means no walk exists.
    The ghost results are the final cost and parent tables.
   */
  method FindPath(start: Point, goal: Point, obstacles: set<Point>, fuel: nat)
    returns (r: Outcome, ghost gScores: map<Point, int>, ghost parentsOut: map<Point, Point>)
    ensures r.Found? ==> IsWalk(r.path, start, goal, obstacles)
    ensures r.Found? ==> forall q :: IsWalk(q, start, goal, obstacles) ==> |r.path| <= |q|
    ensures r.NoPath? ==> forall q :: !IsWalk(q, start, goal, obstacles)
    ensures r.Found? ==> goal in gScores && |r.path| - 1 == gScores[goal]
    ensures r.Found? ==> FollowsLinks(parentsOut, r.path) && start !in parentsOut
    ensures start == goal && fuel > 0 ==> r == Found([start])
    ensures obstacles == {} ==> !r.NoPath?
    ensures obstacles == {} && r.Found? ==> |r.path| - 1 == Heuristic(start, goal)
  {
    var open := [Node(start, 0, Heuristic(start, goal))];
    var g := map[start := 0];
    var parents: map<Point, Point> := map[];
    ghost var closed: set<Point> := {};
    ghost var fLast := Heuristic(start, goal);
    var steps := 0;
    while |open| > 0
      invariant steps <= fuel
      invariant SearchInv(start, goal, obstacles, open, g, parents, closed, fLast)
      invariant steps == 0 ==> open == [Node(start, 0, Heuristic(start, goal))]
      invariant start == goal ==> steps == 0
      decreases fuel - steps
    {
      if steps == fuel {
        r := OutOfFuel;
        gScores := g;
        parentsOut := parents;
        return;
      }
      ghost var openBefore := open;
      var best, rest := PopBest(open);
      open := rest;
      var current := best.position;

      if current == goal {
        var path := FinishAtGoal(start, goal, obstacles, openBefore, g, parents, closed, fLast, best);
        if obstacles == {} {
          ShortestOnOpenGrid(path, start, goal);
        }
        r := Found(path);
        gScores := g;
        parentsOut := parents;
        return;
      }

      BeginExpansion(start, goal, obstacles, openBefore, g, parents, closed, fLast, best, rest);
      open, g, parents := ExpandNeighbors(current, goal, obstacles, open, g, parents,
                                          start, closed, fLast, best.F());
      closed := closed + {current};
      fLast := best.F();
      steps := steps + 1;
    }
    ExhaustedMeansNoWalk(start, goal, obstacles, open, g, closed, fLast);
    // on an open grid this walk makes the empty open list contradict ExhaustedMeansNoWalk
    ghost var straight := Staircase(start, goal);
    r := NoPath;
    gScores := g;
    parentsOut := parents;
  }
}
