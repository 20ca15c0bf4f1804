/** Following a came-from map back from the goal and painting what it meets. */
module PathReconstruction {
  import opened SearchGrid

  /** `rank` witnesses that `cameFrom` has no cycle: every recorded
      predecessor ranks strictly below the cell it was recorded for. */
  ghost predicate Ranked(cameFrom: map<Cell, Cell>, rank: map<Cell, nat>) {
    && (forall v :: v in cameFrom ==> v in rank)
    && (forall v {:trigger cameFrom[v]} :: v in cameFrom ==> cameFrom[v] in rank && rank[cameFrom[v]] < rank[v])
  }

  /** The cell reached from `v` after `n` steps of the loop in
      reconstruct_path (it stays put once it meets a cell without entry). */
  function Follow(cameFrom: map<Cell, Cell>, v: Cell, n: nat): Cell
    decreases n
  {
    if n == 0 || v !in cameFrom then v else Follow(cameFrom, cameFrom[v], n - 1)
  }

  /** The cells reconstruct_path paints, in the order it paints them:
      cameFrom[v], cameFrom[cameFrom[v]], ... up to the first cell that has
      no entry. */
  ghost function Chain(cameFrom: map<Cell, Cell>, rank: map<Cell, nat>, v: Cell): seq<Cell>
    requires Ranked(cameFrom, rank)
    decreases if v in rank then rank[v] else 0
  {
    if v in cameFrom then [cameFrom[v]] + Chain(cameFrom, rank, cameFrom[v]) else []
  }

  /** The chain is exactly the sequence of predecessors: it starts at
      cameFrom[v], each cell is followed by its own predecessor, every cell
      but the last has an entry and the last has none; `v` itself is never
      on it, and no cell is on it twice. */
  lemma {:induction false} ChainShape(cameFrom: map<Cell, Cell>, rank: map<Cell, nat>, v: Cell)
    requires Ranked(cameFrom, rank)
    ensures var ch := Chain(cameFrom, rank, v);
      && (|ch| > 0 <==> v in cameFrom)
      && (|ch| > 0 ==> ch[0] == cameFrom[v] && ch[|ch| - 1] !in cameFrom)
      && (forall i :: 0 <= i < |ch| - 1 ==> ch[i] in cameFrom && ch[i + 1] == cameFrom[ch[i]])
      && (forall i :: 0 <= i < |ch| ==> ch[i] in rank && (v in rank ==> rank[ch[i]] < rank[v]))
      && (forall i, j :: 0 <= i < j < |ch| ==> rank[ch[j]] < rank[ch[i]])
      && v !in ch
      && Distinct(ch)
    decreases if v in rank then rank[v] else 0
  {
    if v in cameFrom {
      var u := cameFrom[v];
      ChainShape(cameFrom, rank, u);
      var rest := Chain(cameFrom, rank, u);
      var ch := [u] + rest;
      assert Chain(cameFrom, rank, v) == ch;
      forall i | 0 <= i < |ch| ensures ch[i] in rank && rank[ch[i]] < rank[v] && (i > 0 ==> rank[ch[i]] < rank[u]) {
        if i > 0 { assert ch[i] == rest[i - 1]; }
      }
      forall i, j | 0 <= i < j < |ch| ensures rank[ch[j]] < rank[ch[i]] {
        if i > 0 { assert ch[i] == rest[i - 1] && ch[j] == rest[j - 1]; }
      }
      forall i | 0 <= i < |ch| - 1 ensures ch[i] in cameFrom && ch[i + 1] == cameFrom[ch[i]] {
        if i > 0 { assert ch[i] == rest[i - 1] && ch[i + 1] == rest[i]; }
      }
    }
  }

  /** A cell followed by its chain visits no cell twice. */
  lemma ChainSimple(cameFrom: map<Cell, Cell>, rank: map<Cell, nat>, v: Cell)
    requires Ranked(cameFrom, rank)
    ensures Distinct([v] + Chain(cameFrom, rank, v))
  {
    ChainShape(cameFrom, rank, v);
    var ch := Chain(cameFrom, rank, v);
    var q := [v] + ch;
    forall i, j | 0 <= i < j < |q| ensures q[i] != q[j] {
      if i == 0 {
        assert q[j] == ch[j - 1];
      } else {
        assert q[i] == ch[i - 1] && q[j] == ch[j - 1];
      }
    }
  }

  /** The chain lists the cells the loop of reconstruct_path visits. */
  lemma {:induction false} ChainIsFollow(cameFrom: map<Cell, Cell>, rank: map<Cell, nat>, v: Cell, i: nat)
    requires Ranked(cameFrom, rank)
    requires i < |Chain(cameFrom, rank, v)|
    ensures Chain(cameFrom, rank, v)[i] == Follow(cameFrom, v, i + 1)
    decreases i
  {
    var u := cameFrom[v];
    if i > 0 {
      ChainIsFollow(cameFrom, rank, u, i - 1);
    }
  }

  /** A two-cell cycle in the map admits no rank ... */
  lemma TwoCycleNotRanked(cameFrom: map<Cell, Cell>, a: Cell, b: Cell, rank: map<Cell, nat>)
    requires a in cameFrom && cameFrom[a] == b && b in cameFrom && cameFrom[b] == a
    ensures !Ranked(cameFrom, rank)
  {
  }

  /** ... and from a cell whose predecessors reach the cycle, the loop in
      reconstruct_path never meets a cell without entry: it does not stop. */
  lemma {:induction false} TwoCycleNeverEnds(cameFrom: map<Cell, Cell>, a: Cell, b: Cell, n: nat)
    requires a in cameFrom && cameFrom[a] == b && b in cameFrom && cameFrom[b] == a
    ensures Follow(cameFrom, a, n) in cameFrom
    ensures Follow(cameFrom, b, n) in cameFrom
  {
    if n > 0 {
      TwoCycleNeverEnds(cameFrom, a, b, n - 1);
    }
  }

  /** reconstruct_path: walk the predecessors of `current` and paint each one
      as path, calling the redraw callback once per painted cell (counted in
      `draws`).  It terminates because the map is ranked. */
  method ReconstructPath(cameFrom: map<Cell, Cell>, current: Cell, roles: array2<Role>, ghost rank: map<Cell, nat>)
    returns (ghost draws: nat)
    requires Ranked(cameFrom, rank)
    requires forall v :: v in cameFrom ==> OnBoard(roles, cameFrom[v])
    modifies roles
    ensures draws == |Chain(cameFrom, rank, current)|
    ensures forall r, c {:trigger roles[r, c]} :: 0 <= r < roles.Length0 && 0 <= c < roles.Length1 ==>
      roles[r, c] == if Cell(r, c) in Chain(cameFrom, rank, current) then Path else old(roles[r, c])
  {
    var cur := current;
    draws := 0;
    ghost var painted: seq<Cell> := [];
    while cur in cameFrom
      invariant painted + Chain(cameFrom, rank, cur) == Chain(cameFrom, rank, current)
      invariant draws == |painted|
      invariant forall r, c {:trigger roles[r, c]} :: 0 <= r < roles.Length0 && 0 <= c < roles.Length1 ==>
        roles[r, c] == if Cell(r, c) in painted then Path else old(roles[r, c])
      decreases if cur in rank then rank[cur] else 0
    {
      cur := cameFrom[cur];
      roles[cur.row, cur.col] := Path;
      draws := draws + 1;
      painted := painted + [cur];
    }
  }

  /** What every search does once the goal is reached: paint the path
      back from the goal, repaint the goal as end when `repaintEnd` (bfs does
      not), then repaint the start as start. */
  method FinishPath(cameFrom: map<Cell, Cell>, start: Cell, end: Cell, roles: array2<Role>,
                    ghost rank: map<Cell, nat>, repaintEnd: bool)
    returns (ghost draws: nat)
    requires Ranked(cameFrom, rank)
    requires forall v :: v in cameFrom ==> OnBoard(roles, cameFrom[v])
    requires OnBoard(roles, start) && OnBoard(roles, end)
    modifies roles
    ensures draws == |Chain(cameFrom, rank, end)|
    ensures forall r, c {:trigger roles[r, c]} :: 0 <= r < roles.Length0 && 0 <= c < roles.Length1 ==>
      roles[r, c] == if Cell(r, c) == start then Start
                     else if repaintEnd && Cell(r, c) == end then End
                     else if Cell(r, c) in Chain(cameFrom, rank, end) then Path
                     else old(roles[r, c])
  {
    draws := ReconstructPath(cameFrom, end, roles, rank);
    if repaintEnd {
      Paint(roles, end, End);
    }
    Paint(roles, start, Start);
  }

  /** A predecessor tree rooted at `start`: the map is ranked, the start ranks
      and has no predecessor, every other ranked cell has one, and each
      predecessor is a cell the recorded cell is a neighbour of. */
  ghost predicate PredTree(nbrs: Adjacency, start: Cell, cameFrom: map<Cell, Cell>, rank: map<Cell, nat>) {
    && Ranked(cameFrom, rank)
    && start in rank && start !in cameFrom
    && (forall v :: v in rank && v != start ==> v in cameFrom)
    && (forall v :: v in cameFrom ==> Step(nbrs, cameFrom[v], v))
  }

  /** In a predecessor tree the chain of a ranked cell ends at the start, and
      the cell followed by its chain is a route from the start to it. */
  lemma {:induction false} ChainIsRoute(nbrs: Adjacency, start: Cell, cameFrom: map<Cell, Cell>, rank: map<Cell, nat>, v: Cell)
    requires PredTree(nbrs, start, cameFrom, rank) && v in rank
    ensures RouteFromTo(nbrs, [v] + Chain(cameFrom, rank, v), start, v)
    decreases rank[v]
  {
    if v != start {
      var u := cameFrom[v];
      ChainIsRoute(nbrs, start, cameFrom, rank, u);
      var p := [u] + Chain(cameFrom, rank, u);
      assert Chain(cameFrom, rank, v) == p;
      RouteExtend(nbrs, p, start, u, v);
    }
  }

  /** When every recorded predecessor ranks exactly one below its cell and
      the start ranks 0, a cell's chain has exactly as many cells as its rank. */
  lemma {:induction false} ChainLength(nbrs: Adjacency, start: Cell, cameFrom: map<Cell, Cell>, rank: map<Cell, nat>, v: Cell)
    requires PredTree(nbrs, start, cameFrom, rank) && v in rank && rank[start] == 0
    requires forall w :: w in cameFrom ==> rank[w] == rank[cameFrom[w]] + 1
    ensures |Chain(cameFrom, rank, v)| == rank[v]
    decreases rank[v]
  {
    if v != start {
      ChainLength(nbrs, start, cameFrom, rank, cameFrom[v]);
    }
  }

  /** Every cell a predecessor tree ranks is connected to its root on the grid. */
  lemma TreeConnected(g: Grid, nbrs: Adjacency, start: Cell, cameFrom: map<Cell, Cell>, rank: map<Cell, nat>)
    requires Refreshed(g, nbrs) && PredTree(nbrs, start, cameFrom, rank) && start in nbrs
    ensures forall c :: c in rank ==> Connected(g, start, c)
  {
    forall c | c in rank ensures Connected(g, start, c) {
      ChainIsRoute(nbrs, start, cameFrom, rank, c);
      ReachableIffConnected(g, nbrs, start, c);
    }
  }

  /** In a predecessor tree over refreshed lists, every recorded predecessor
      lies on the grid, and a ranked cell followed by its chain is a walk
      from the root that visits no cell twice. */
  lemma TreePath(g: Grid, nbrs: Adjacency, start: Cell, cameFrom: map<Cell, Cell>, rank: map<Cell, nat>, end: Cell)
    requires Refreshed(g, nbrs) && PredTree(nbrs, start, cameFrom, rank) && end in rank && start in nbrs
    ensures forall v :: v in cameFrom ==> InBounds(g, cameFrom[v])
    ensures WalkFromTo(g, [end] + Chain(cameFrom, rank, end), start, end)
    ensures Distinct([end] + Chain(cameFrom, rank, end))
  {
    ChainIsRoute(nbrs, start, cameFrom, rank, end);
    RouteIsWalk(g, nbrs, [end] + Chain(cameFrom, rank, end));
    ChainSimple(cameFrom, rank, end);
  }
}
