/** The grid the searches run on: cells, their roles, the barrier snapshot
    and the neighbour lists a search refreshes at entry, and walks between
    cells.  The Spot and Grid classes of the application are not part of this
    model; only what the searches read and write of them is. */
module SearchGrid {

  /** A cell, identified by its logical position (row, column). */
  datatype Cell = Cell(row: int, col: int)

  /** The role a cell is painted with; exactly one at a time. */
  datatype Role = Empty | Barrier | Start | End | Open | Closed | Path

  /** The dimensions of the grid and the cells that were barriers when the
      neighbour lists were last refreshed. */
  datatype Grid = Grid(rows: nat, cols: nat, walls: set<Cell>)

  /** The neighbour list of every cell, as update_neighbors leaves it. */
  type Adjacency = map<Cell, seq<Cell>>

  predicate InBounds(g: Grid, c: Cell) {
    0 <= c.row < g.rows && 0 <= c.col < g.cols
  }

  /** A cell a search may step onto: inside the grid and not a barrier. */
  predicate Free(g: Grid, c: Cell) {
    InBounds(g, c) && c !in g.walls
  }

  predicate OnBoard(roles: array2<Role>, c: Cell) {
    0 <= c.row < roles.Length0 && 0 <= c.col < roles.Length1
  }

  /** The barrier snapshot of the current roles. */
  function GridOf(roles: array2<Role>): (g: Grid)
    reads roles
    ensures g.rows == roles.Length0 && g.cols == roles.Length1
    ensures forall c {:trigger Free(g, c)} :: Free(g, c) <==> OnBoard(roles, c) && roles[c.row, c.col] != Barrier
  {
    Grid(roles.Length0, roles.Length1,
         set r, c | 0 <= r < roles.Length0 && 0 <= c < roles.Length1 && roles[r, c] == Barrier :: Cell(r, c))
  }

  /** Every cell of the grid. */
  function AllCells(g: Grid): (s: set<Cell>)
    ensures forall c :: c in s <==> InBounds(g, c)
  {
    set r, c | 0 <= r < g.rows && 0 <= c < g.cols :: Cell(r, c)
  }

  function Dist(a: int, b: int): nat {
    if a < b then b - a else a - b
  }

  /** Two cells share an edge. */
  predicate Adjacent(a: Cell, b: Cell) {
    Dist(a.row, b.row) + Dist(a.col, b.col) == 1
  }

  function KeepFree(g: Grid, cs: seq<Cell>): (r: seq<Cell>)
    ensures forall n {:trigger n in r} :: n in r <==> n in cs && Free(g, n)
    ensures |r| <= |cs|
  {
    if cs == [] then []
    else if Free(g, cs[0]) then [cs[0]] + KeepFree(g, cs[1..])
    else KeepFree(g, cs[1..])
  }

  /** The neighbour list update_neighbors computes for a cell: the free
      cells below, above, to the right and to the left of it, in that order. */
  function Neighbors(g: Grid, c: Cell): (ns: seq<Cell>)
    ensures |ns| <= 4
    ensures forall n {:trigger n in ns} :: n in ns <==> Free(g, n) && Adjacent(c, n)
  {
    KeepFree(g, [Cell(c.row + 1, c.col), Cell(c.row - 1, c.col),
                 Cell(c.row, c.col + 1), Cell(c.row, c.col - 1)])
  }

  predicate Distinct(s: seq<Cell>) {
    forall i, j :: 0 <= i < j < |s| ==> s[i] != s[j]
  }

  /** The lists hold, for every cell of the grid and no other, exactly its
      neighbour list; a listed neighbour is always a free cell. */
  ghost predicate Refreshed(g: Grid, nbrs: Adjacency) {
    && (forall c {:trigger c in nbrs} :: c in nbrs <==> InBounds(g, c))
    && (forall c {:trigger Neighbors(g, c)} :: InBounds(g, c) ==> nbrs[c] == Neighbors(g, c))
    && (forall c, n :: c in nbrs && n in nbrs[c] ==> Free(g, n))
  }

  /** The role a cell has while a search explores: the start keeps its role,
      expanded cells are closed, discovered ones open, the rest unchanged. */
  function ExploreRole(x: Cell, was: Role, start: Cell, closed: set<Cell>, visited: set<Cell>): Role {
    if x == start then was
    else if x in closed then Closed
    else if x in visited then Open
    else was
  }

  /** Painting one cell with a role, as the make_* methods of a cell do. */
  method Paint(roles: array2<Role>, x: Cell, role: Role)
    requires OnBoard(roles, x)
    modifies roles
    ensures forall r, c {:trigger roles[r, c]} :: 0 <= r < roles.Length0 && 0 <= c < roles.Length1 ==>
      roles[r, c] == if Cell(r, c) == x then role else old(roles[r, c])
  {
    roles[x.row, x.col] := role;
  }

  /** The loops at the head of every search that refresh each cell's
      neighbour list from the barrier snapshot, row by row. */
  method UpdateNeighbors(g: Grid) returns (nbrs: Adjacency)
    ensures Refreshed(g, nbrs)
  {
    nbrs := map[];
    var r := 0;
    while r < g.rows
      invariant 0 <= r <= g.rows
      invariant forall c {:trigger c in nbrs} :: c in nbrs <==> InBounds(g, c) && c.row < r
      invariant forall c {:trigger nbrs[c]} :: c in nbrs ==> nbrs[c] == Neighbors(g, c)
    {
      var col := 0;
      while col < g.cols
        invariant 0 <= col <= g.cols
        invariant forall c {:trigger c in nbrs} :: c in nbrs <==> InBounds(g, c) && (c.row < r || (c.row == r && c.col < col))
        invariant forall c {:trigger nbrs[c]} :: c in nbrs ==> nbrs[c] == Neighbors(g, c)
      {
        var here := Cell(r, col);
        nbrs := nbrs[here := Neighbors(g, here)];
        col := col + 1;
      }
      r := r + 1;
    }
  }

  /** A listed neighbour is a free cell of the grid. */
  lemma ListedAreFree(g: Grid, nbrs: Adjacency, c: Cell)
    requires Refreshed(g, nbrs) && c in nbrs
    ensures forall n :: n in nbrs[c] ==> 0 <= n.row < g.rows && 0 <= n.col < g.cols && n !in g.walls
  {
    forall n | n in nbrs[c] ensures 0 <= n.row < g.rows && 0 <= n.col < g.cols && n !in g.walls {
      assert Free(g, n);
    }
  }

  /** A walk on the grid, listed goal-first: each cell is a neighbour of the
      cell after it, so the last cell is where the walk starts.  This is the
      order in which predecessor chains are followed. */
  ghost predicate IsWalk(g: Grid, p: seq<Cell>) {
    |p| >= 1 && forall i :: 0 <= i < |p| - 1 ==> p[i] in Neighbors(g, p[i + 1])
  }

  /** A walk from `s` to `t`, of |p| - 1 steps. */
  ghost predicate WalkFromTo(g: Grid, p: seq<Cell>, s: Cell, t: Cell) {
    IsWalk(g, p) && p[0] == t && p[|p| - 1] == s
  }

  /** `t` can be reached from `s` through free, edge-adjacent cells. */
  ghost predicate Connected(g: Grid, s: Cell, t: Cell) {
    exists p :: WalkFromTo(g, p, s, t)
  }

  /** `b` is on the neighbour list of `a`. */
  predicate Step(nbrs: Adjacency, a: Cell, b: Cell) {
    a in nbrs && b in nbrs[a]
  }

  /** A route through the refreshed neighbour lists, listed goal-first. */
  ghost predicate IsRoute(nbrs: Adjacency, p: seq<Cell>) {
    |p| >= 1 && forall i :: 0 <= i < |p| - 1 ==> Step(nbrs, p[i + 1], p[i])
  }

  /** A route from `s` to `t`, of |p| - 1 steps. */
  ghost predicate RouteFromTo(nbrs: Adjacency, p: seq<Cell>, s: Cell, t: Cell) {
    IsRoute(nbrs, p) && p[0] == t && p[|p| - 1] == s
  }

  ghost predicate Reachable(nbrs: Adjacency, s: Cell, t: Cell) {
    exists p :: RouteFromTo(nbrs, p, s, t)
  }

  /** Every listed neighbour of every cell of `S` is in `S`. */
  ghost predicate ClosedUnder(nbrs: Adjacency, S: set<Cell>) {
    forall u, n :: u in S && u in nbrs && n in nbrs[u] ==> n in S
  }

  /** A route through refreshed lists is a walk on the grid and back, as
      long as it starts inside the grid. */
  lemma RouteIsWalk(g: Grid, nbrs: Adjacency, p: seq<Cell>)
    requires Refreshed(g, nbrs) && |p| >= 1 && InBounds(g, p[|p| - 1])
    ensures IsRoute(nbrs, p) <==> IsWalk(g, p)
  {
    if IsWalk(g, p) {
      forall i | 0 <= i < |p| - 1 ensures Step(nbrs, p[i + 1], p[i]) {
        if i + 1 < |p| - 1 {
          assert p[i + 1] in Neighbors(g, p[i + 2]);
        }
        assert nbrs[p[i + 1]] == Neighbors(g, p[i + 1]);
      }
    }
    if IsRoute(nbrs, p) {
      forall i | 0 <= i < |p| - 1 ensures p[i] in Neighbors(g, p[i + 1]) {
        assert Step(nbrs, p[i + 1], p[i]);
        assert nbrs[p[i + 1]] == Neighbors(g, p[i + 1]);
      }
    }
  }

  /** Reachability through the refreshed lists is connectivity on the grid. */
  lemma ReachableIffConnected(g: Grid, nbrs: Adjacency, s: Cell, t: Cell)
    requires Refreshed(g, nbrs) && InBounds(g, s)
    ensures Reachable(nbrs, s, t) <==> Connected(g, s, t)
  {
    if Reachable(nbrs, s, t) {
      var p :| RouteFromTo(nbrs, p, s, t);
      RouteIsWalk(g, nbrs, p);
      assert WalkFromTo(g, p, s, t);
    }
    if Connected(g, s, t) {
      var p :| WalkFromTo(g, p, s, t);
      RouteIsWalk(g, nbrs, p);
      assert RouteFromTo(nbrs, p, s, t);
    }
  }

  /** A set that holds the start of a route and is closed under the
      neighbour lists holds every cell of the route. */
  lemma {:induction false} ClosedSetHoldsRoute(nbrs: Adjacency, S: set<Cell>, p: seq<Cell>)
    requires IsRoute(nbrs, p) && p[|p| - 1] in S
    requires ClosedUnder(nbrs, S)
    ensures forall i :: 0 <= i < |p| ==> p[i] in S
  {
    if |p| > 1 {
      var q := p[1..];
      assert IsRoute(nbrs, q) by {
        forall i | 0 <= i < |q| - 1 ensures Step(nbrs, q[i + 1], q[i]) {
          assert q[i] == p[i + 1] && q[i + 1] == p[i + 2];
        }
      }
      ClosedSetHoldsRoute(nbrs, S, q);
      assert Step(nbrs, p[1], p[0]);
      forall i | 0 <= i < |p| ensures p[i] in S {
        if i > 0 { assert p[i] == q[i - 1]; }
      }
    }
  }

  /** Completeness argument shared by the searches: a set that holds the
      start and is closed under the neighbour lists holds every reachable cell. */
  lemma ClosedSetHoldsReachable(nbrs: Adjacency, S: set<Cell>, s: Cell, t: Cell)
    requires s in S && ClosedUnder(nbrs, S)
    requires Reachable(nbrs, s, t)
    ensures t in S
  {
    var p :| RouteFromTo(nbrs, p, s, t);
    ClosedSetHoldsRoute(nbrs, S, p);
  }

  /** A set of cells that holds `s` and is closed under the refreshed lists
      holds every cell connected to `s` on the grid. */
  lemma ComponentWithin(g: Grid, nbrs: Adjacency, s: Cell, S: set<Cell>)
    requires Refreshed(g, nbrs) && InBounds(g, s)
    requires s in S && ClosedUnder(nbrs, S)
    ensures forall t :: Connected(g, s, t) ==> t in S
  {
    forall t | Connected(g, s, t) ensures t in S {
      ReachableIffConnected(g, nbrs, s, t);
      ClosedSetHoldsReachable(nbrs, S, s, t);
    }
  }

  /** Extending a route by one listed neighbour. */
  lemma RouteExtend(nbrs: Adjacency, p: seq<Cell>, s: Cell, t: Cell, n: Cell)
    requires RouteFromTo(nbrs, p, s, t) && t in nbrs && n in nbrs[t]
    ensures RouteFromTo(nbrs, [n] + p, s, n)
  {
    var q := [n] + p;
    forall i | 0 <= i < |q| - 1 ensures Step(nbrs, q[i + 1], q[i]) {
      if i > 0 { assert q[i] == p[i - 1] && q[i + 1] == p[i]; }
    }
  }
}
