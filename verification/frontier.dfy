/**
  Search nodes and the order the open list uses. The source keeps its open
  list in a max-heap whose `Ord` compares nodes by `f = g + h` in reverse, so
  the heap's greatest node is the one with the smallest `f`. Here the open
  list is a sequence and `PopBest` scans it for a greatest node.
 */
module Frontier {
  import opened Lattice

  datatype Ordering = Less | Equal | Greater

  function CompareInt(a: int, b: int): Ordering
  {
    if a < b then Less else if a == b then Equal else Greater
  }

  function Flip(o: Ordering): Ordering
  {
    match o
    case Less => Greater
    case Equal => Equal
    case Greater => Less
  }

  /** A node of the open list: a position, its cost so far `g` and its estimate `h`. */
  datatype Node = Node(position: Point, g: int, h: int) {

    function F(): int
    {
      g + h
    }

    /** The heap order: `f` compared the other way round. */
    function Cmp(other: Node): Ordering
    {
      CompareInt(other.F(), F())
    }

    /** Node equality as the source defines it: equal `f`, whatever the position. */
    predicate Eq(other: Node)
    {
      F() == other.F()
    }
  }

  /** A node is greater than another under `Cmp` exactly when its `f` is smaller. */
  lemma CmpReversesF(a: Node, b: Node)
    ensures a.Cmp(b) == Greater <==> a.F() < b.F()
    ensures a.Cmp(b) == Less <==> a.F() > b.F()
    ensures a.Cmp(b) == Equal <==> a.Eq(b)
  {
  }

  /** `Cmp` is a total preorder: antisymmetric, transitive, and consistent with `Eq`. */
  lemma CmpIsTotalPreorder(a: Node, b: Node, c: Node)
    ensures a.Cmp(b) == Flip(b.Cmp(a))
    ensures a.Cmp(b) != Less && b.Cmp(c) != Less ==> a.Cmp(c) != Less
    ensures a.Eq(b) <==> b.Eq(a)
  {
  }

  /**
    Removes a greatest node under `Cmp` (a node of minimal `f`) from the open
    list and returns it together with what remains. Among several nodes of
    equal `f` the first one found is taken.
   */
  method PopBest(open: seq<Node>) returns (best: Node, rest: seq<Node>)
    requires |open| > 0
    ensures best in open
    ensures forall n :: n in open ==> best.Cmp(n) != Less
    ensures forall n :: n in open ==> best.F() <= n.F()
    ensures |rest| == |open| - 1
    ensures multiset(rest) + multiset{best} == multiset(open)
    ensures forall n :: n in open <==> n == best || n in rest
  {
    var bi := 0;
    var i := 1;
    while i < |open|
      invariant 0 <= bi < i <= |open|
      invariant forall j :: 0 <= j < i ==> open[bi].F() <= open[j].F()
    {
      if open[i].Cmp(open[bi]) == Greater {
        bi := i;
      }
      i := i + 1;
    }
    best := open[bi];
    rest := open[..bi] + open[bi + 1..];
    assert open == open[..bi] + [best] + open[bi + 1..];
    forall n | n in open
      ensures n == best || n in rest
    {
      var j :| 0 <= j < |open| && open[j] == n;
      if j < bi {
        assert rest[j] == n;
      } else if j > bi {
        assert rest[j - 1] == n;
      }
    }
  }
}
