/**
  Path reconstruction: follow parent links back from a point until a point
  without a parent is met, then reverse the collected points so that the
  path runs forwards.

  The source loop stops only if the parent links have no cycle. Here that is
  required through a ranking: every link leads to a point of strictly
  smaller, non-negative rank. The search's own cost table is such a ranking.
 */
module Reconstruct {
  import opened Lattice

  /** Every parent link goes down in `rank`, and ranks of parents are non-negative. */
  ghost predicate DescendingLinks(parents: map<Point, Point>, rank: map<Point, int>)
  {
    forall p :: p in parents ==>
      p in rank && parents[p] in rank && 0 <= rank[parents[p]] < rank[p]
  }

  /** Every parent link goes down in `rank` by exactly one. */
  ghost predicate UnitLinks(parents: map<Point, Point>, rank: map<Point, int>)
  {
    forall p :: p in parents ==>
      p in rank && parents[p] in rank && rank[p] == rank[parents[p]] + 1
  }

  /** Each point of `path` after the first has its predecessor as parent. */
  ghost predicate FollowsLinks(parents: map<Point, Point>, path: seq<Point>)
  {
    forall i :: 0 < i < |path| ==> path[i] in parents && parents[path[i]] == path[i - 1]
  }

  function Reverse(s: seq<Point>): (r: seq<Point>)
    ensures |r| == |s|
    ensures forall i :: 0 <= i < |s| ==> r[i] == s[|s| - 1 - i]
  {
    if s == [] then [] else Reverse(s[1..]) + [s[0]]
  }

  /** Reversing twice gives the sequence back. */
  lemma ReverseInvolutive(s: seq<Point>)
    ensures Reverse(Reverse(s)) == s
  {
  }

  /**
    The path that ends at `current` and goes back along parent links to the
    first point that has no parent.
   */
  method ReconstructPath(parents: map<Point, Point>, current: Point, ghost rank: map<Point, int>)
    returns (path: seq<Point>)
    requires current in rank
    requires DescendingLinks(parents, rank)
    ensures |path| >= 1
    ensures path[|path| - 1] == current
    ensures path[0] !in parents
    ensures FollowsLinks(parents, path)
    ensures forall i :: 0 <= i < |path| ==> path[i] in rank
    ensures UnitLinks(parents, rank) ==> |path| - 1 == rank[current] - rank[path[0]]
  {
    var totalPath := [current];
    var temp := current;
    while temp in parents
      invariant |totalPath| >= 1
      invariant totalPath[0] == current && totalPath[|totalPath| - 1] == temp
      invariant forall i :: 0 <= i < |totalPath| ==> totalPath[i] in rank
      invariant forall i :: 0 <= i < |totalPath| - 1 ==>
        totalPath[i] in parents && parents[totalPath[i]] == totalPath[i + 1]
      invariant UnitLinks(parents, rank) ==> |totalPath| - 1 == rank[current] - rank[temp]
      decreases rank[temp]
    {
      var parent := parents[temp];
      totalPath := totalPath + [parent];
      temp := parent;
    }
    path := Reverse(totalPath);
    var n := |totalPath|;
    forall i | 0 < i < n
      ensures path[i] in parents && parents[path[i]] == path[i - 1]
    {
      assert path[i] == totalPath[n - 1 - i];
      assert path[i - 1] == totalPath[n - 1 - i + 1];
    }
  }
}
