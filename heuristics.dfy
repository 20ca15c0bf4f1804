/** The heuristic A* ranks cells with. */
module Heuristics {
  import opened SearchGrid

  /** Manhattan distance between two logical positions. */
  function Manhattan(p1: Cell, p2: Cell): (d: nat)
    ensures d == 0 <==> p1 == p2
  {
    Dist(p1.row, p2.row) + Dist(p1.col, p2.col)
  }

  lemma ManhattanSymmetric(p1: Cell, p2: Cell)
    ensures Manhattan(p1, p2) == Manhattan(p2, p1)
  {
  }

  /** One step to a neighbour changes the distance to any goal by at most one. */
  lemma ManhattanStep(g: Grid, u: Cell, n: Cell, goal: Cell)
    requires n in Neighbors(g, u)
    ensures Manhattan(u, goal) <= Manhattan(n, goal) + 1
    ensures Manhattan(n, goal) <= Manhattan(u, goal) + 1
  {
  }

  /** Admissibility: the Manhattan distance between the two ends of a route
      never exceeds the number of steps of the route. */
  lemma {:induction false} ManhattanAdmissible(g: Grid, p: seq<Cell>)
    requires IsWalk(g, p)
    ensures Manhattan(p[0], p[|p| - 1]) <= |p| - 1
  {
    if |p| > 1 {
      var q := p[1..];
      assert IsWalk(g, q) by {
        forall i | 0 <= i < |q| - 1 ensures q[i] in Neighbors(g, q[i + 1]) {
          assert q[i] == p[i + 1] && q[i + 1] == p[i + 2];
        }
      }
      ManhattanAdmissible(g, q);
      assert q[|q| - 1] == p[|p| - 1];
      ManhattanSymmetric(p[0], p[|p| - 1]);
      ManhattanSymmetric(q[0], p[|p| - 1]);
      ManhattanStep(g, p[1], p[0], p[|p| - 1]);
    }
  }

  /** The same fact read as A* uses it: the estimate from any cell to the
      goal is a lower bound on the steps of every walk between them. */
  lemma ManhattanBelowReachCost(g: Grid, p: seq<Cell>, s: Cell, t: Cell)
    requires WalkFromTo(g, p, s, t)
    ensures Manhattan(s, t) <= |p| - 1
  {
    ManhattanAdmissible(g, p);
    ManhattanSymmetric(s, t);
  }
}
