/** Breadth-first and depth-first search: one frontier (a FIFO queue or a
    LIFO stack), a visited set that a cell joins when it is pushed, and a
    came-from map. */
module UninformedSearch {
  import opened SearchGrid
  import opened PathReconstruction

  /** The cells the neighbour loop pushes after looking at `ns[..i]`,
      starting from the set `visited`: a cell is pushed when it is neither
      visited before the loop nor pushed earlier in it. */
  function Added(ns: seq<Cell>, i: nat, visited: set<Cell>): seq<Cell>
    requires i <= |ns|
  {
    if i == 0 then []
    else
      var prev := Added(ns, i - 1, visited);
      if ns[i - 1] in visited || ns[i - 1] in prev then prev else prev + [ns[i - 1]]
  }

  /** The loop pushes each unvisited cell of the list exactly once. */
  lemma {:induction false} AddedExactly(ns: seq<Cell>, i: nat, visited: set<Cell>)
    requires i <= |ns|
    ensures forall x :: x in Added(ns, i, visited) <==> x in ns[..i] && x !in visited
    ensures Distinct(Added(ns, i, visited))
  {
    if i > 0 {
      AddedExactly(ns, i - 1, visited);
      assert ns[..i] == ns[..i - 1] + [ns[i - 1]];
    }
  }

  /** Expanding `current` in bfs and dfs: every listed neighbour that is
      neither visited nor a barrier joins the visited set, records `current`
      as its predecessor, is pushed on the frontier and painted open; then
      `current` is painted closed unless it is the start.  Since the lists
      were refreshed from the same roles, no listed neighbour is a barrier:
      the pushed cells are exactly the unvisited listed neighbours. */
  method Expand(roles: array2<Role>, ghost g: Grid, nbrs: Adjacency, start: Cell, current: Cell,
                visited: set<Cell>, cameFrom: map<Cell, Cell>, frontier: seq<Cell>)
    returns (visited': set<Cell>, cameFrom': map<Cell, Cell>, frontier': seq<Cell>, ghost added: seq<Cell>)
    requires Refreshed(g, nbrs) && g.rows == roles.Length0 && g.cols == roles.Length1
    requires forall c {:trigger Free(g, c)} :: Free(g, c) ==> roles[c.row, c.col] != Barrier
    requires current in nbrs && current in visited
    modifies roles
    ensures forall n :: n in added <==> Step(nbrs, current, n) && n !in visited
    ensures Distinct(added) && forall n :: n in added ==> n in nbrs
    ensures forall n :: n in visited' <==> n in visited || n in added
    ensures frontier' == frontier + added
    ensures forall n :: n in cameFrom' <==> n in cameFrom || n in added
    ensures forall n :: n in cameFrom' ==> cameFrom'[n] == if n in added then current else cameFrom[n]
    ensures forall r, c {:trigger roles[r, c]} :: 0 <= r < roles.Length0 && 0 <= c < roles.Length1 ==>
      roles[r, c] == if Cell(r, c) in visited' - visited then Open
                     else if Cell(r, c) == current && current != start then Closed
                     else old(roles[r, c])
    ensures forall c {:trigger Free(g, c)} :: Free(g, c) ==> roles[c.row, c.col] != Barrier
  {
    var ns := nbrs[current];
    ListedAreFree(g, nbrs, current);
    ghost var walls := set n | n in ns && roles[n.row, n.col] == Barrier;
    visited', cameFrom', frontier', added := PushUnvisited(roles, ns, current, visited, cameFrom, frontier, walls);
    AddedExactly(ns, |ns|, visited + walls);
    assert ns[..|ns|] == ns;
    PushedAreNeighbors(g, nbrs, current, ns, visited, walls, added);
    if current != start {
      Paint(roles, current, Closed);
    }
  }

  /** The neighbour loop of Expand: each cell of `ns` that is neither
      visited nor a barrier (the cells in `walls`) is marked visited, given
      `current` as its predecessor, pushed and painted open. */
  method PushUnvisited(roles: array2<Role>, ns: seq<Cell>, current: Cell, visited: set<Cell>,
                       cameFrom: map<Cell, Cell>, frontier: seq<Cell>, ghost walls: set<Cell>)
    returns (visited': set<Cell>, cameFrom': map<Cell, Cell>, frontier': seq<Cell>, ghost added: seq<Cell>)
    requires forall n :: n in ns ==> 0 <= n.row < roles.Length0 && 0 <= n.col < roles.Length1
    requires walls == set n | n in ns && roles[n.row, n.col] == Barrier
    modifies roles
    ensures added == Added(ns, |ns|, visited + walls)
    ensures forall n :: n in visited' <==> n in visited || n in added
    ensures frontier' == frontier + added
    ensures forall n :: n in cameFrom' <==> n in cameFrom || n in added
    ensures forall n :: n in cameFrom' ==> cameFrom'[n] == if n in added then current else cameFrom[n]
    ensures forall r, c {:trigger roles[r, c]} :: 0 <= r < roles.Length0 && 0 <= c < roles.Length1 ==>
      roles[r, c] == if Cell(r, c) in visited' - visited then Open else old(roles[r, c])
  {
    visited', cameFrom', frontier', added := visited, cameFrom, frontier, [];
    ghost var painted: set<Cell> := {};
    var i := 0;
    while i < |ns|
      invariant i <= |ns|
      invariant added == Added(ns, i, visited + walls)
      invariant forall n :: n in visited' <==> n in visited || n in added
      invariant frontier' == frontier + added
      invariant forall n :: n in cameFrom' <==> n in cameFrom || n in added
      invariant forall n :: n in cameFrom' ==> cameFrom'[n] == if n in added then current else cameFrom[n]
      invariant painted == visited' - visited
      invariant forall r, c {:trigger roles[r, c]} :: 0 <= r < roles.Length0 && 0 <= c < roles.Length1 ==>
        roles[r, c] == if Cell(r, c) in painted then Open else old(roles[r, c])
    {
      var n := ns[i];
      if n !in visited' && roles[n.row, n.col] != Barrier {
        visited' := visited' + {n};
        cameFrom' := cameFrom'[n := current];
        frontier' := frontier' + [n];
        roles[n.row, n.col] := Open;
        added := added + [n];
        painted := painted + {n};
      }
      i := i + 1;
    }
  }

  /** The state bfs and dfs keep between iterations.  `closed` holds the
      cells already expanded and `pushed` every cell ever pushed, in order;
      `depth` ranks each visited cell by its number of predecessors. */
  ghost predicate Explored(nbrs: Adjacency, start: Cell, end: Cell, frontier: seq<Cell>, visited: set<Cell>,
                           closed: set<Cell>, cameFrom: map<Cell, Cell>, depth: map<Cell, nat>, pushed: seq<Cell>)
  {
    && (forall v :: v in visited ==> v in nbrs)
    && start in visited
    && depth.Keys == visited
    && depth[start] == 0
    && cameFrom.Keys == visited - {start}
    && (forall v :: v in cameFrom ==>
          cameFrom[v] in closed && cameFrom[v] in depth && depth[v] == depth[cameFrom[v]] + 1
          && Step(nbrs, cameFrom[v], v))
    && Distinct(frontier)
    && (forall v :: v in visited <==> v in closed || v in frontier)
    && (forall v :: v in frontier ==> v !in closed)
    && (forall u, n :: u in closed && Step(nbrs, u, n) ==> n in visited)
    && end !in closed
    && Distinct(pushed)
    && (forall v :: v in pushed <==> v in visited)
  }

  /** The came-from map of an explored state is a predecessor tree ranked
      by depth, with each predecessor exactly one level up. */
  lemma ExploredTree(nbrs: Adjacency, start: Cell, end: Cell, frontier: seq<Cell>, visited: set<Cell>,
                     closed: set<Cell>, cameFrom: map<Cell, Cell>, depth: map<Cell, nat>, pushed: seq<Cell>)
    requires Explored(nbrs, start, end, frontier, visited, closed, cameFrom, depth, pushed)
    ensures PredTree(nbrs, start, cameFrom, depth)
    ensures forall w :: w in cameFrom ==> depth[w] == depth[cameFrom[w]] + 1
  {
  }

  /** Expanding a cell that is not the goal keeps the state explored: the
      expanded cell leaves the frontier and is closed, its unvisited
      neighbours are pushed one level below it. */
  lemma ExploreStep(nbrs: Adjacency, start: Cell, end: Cell, frontier: seq<Cell>, visited: set<Cell>,
                    closed: set<Cell>, cameFrom: map<Cell, Cell>, depth: map<Cell, nat>, pushed: seq<Cell>,
                    current: Cell, rest: seq<Cell>, added: seq<Cell>,
                    visited': set<Cell>, cameFrom': map<Cell, Cell>, depth': map<Cell, nat>)
    requires Explored(nbrs, start, end, frontier, visited, closed, cameFrom, depth, pushed)
    requires current in frontier && current != end
    requires Distinct(rest) && current !in rest && forall v :: v in frontier <==> v == current || v in rest
    requires forall n :: n in added <==> Step(nbrs, current, n) && n !in visited
    requires Distinct(added) && forall n :: n in added ==> n in nbrs
    requires forall n :: n in visited' <==> n in visited || n in added
    requires forall n :: n in cameFrom' <==> n in cameFrom || n in added
    requires forall n :: n in cameFrom' ==> cameFrom'[n] == if n in added then current else cameFrom[n]
    requires depth' == depth + map n | n in added :: depth[current] + 1
    ensures Explored(nbrs, start, end, rest + added, visited', closed + {current}, cameFrom', depth', pushed + added)
  {
    var closed' := closed + {current};
    var frontier' := rest + added;
    var pushed' := pushed + added;
    assert forall n :: n in added ==> n !in visited;
    assert Distinct(frontier') by {
      forall i, j | 0 <= i < j < |frontier'| ensures frontier'[i] != frontier'[j] {
        if j >= |rest| && i < |rest| {
          assert frontier'[i] in rest && frontier'[j] == added[j - |rest|];
        } else if i >= |rest| {
          assert frontier'[i] == added[i - |rest|] && frontier'[j] == added[j - |rest|];
        }
      }
    }
    assert Distinct(pushed') by {
      forall i, j | 0 <= i < j < |pushed'| ensures pushed'[i] != pushed'[j] {
        if j >= |pushed| && i < |pushed| {
          assert pushed'[i] in pushed && pushed'[j] == added[j - |pushed|];
        } else if i >= |pushed| {
          assert pushed'[i] == added[i - |pushed|] && pushed'[j] == added[j - |pushed|];
        }
      }
    }
  }

  /** The cells of `s` appear in non-decreasing depth. */
  ghost predicate Ascending(depth: map<Cell, nat>, s: seq<Cell>) {
    forall i, j :: 0 <= i < j < |s| ==> s[i] in depth && s[j] in depth && depth[s[i]] <= depth[s[j]]
  }

  /** Breadth-first layering: the queue is sorted by depth and spans at most
      two consecutive depths, no expanded cell lies deeper than the head of
      the queue, and an expanded cell's neighbours are at most one level below it. */
  ghost predicate Layering(nbrs: Adjacency, frontier: seq<Cell>, closed: set<Cell>, depth: map<Cell, nat>) {
    && (forall v :: v in frontier ==> v in depth)
    && Ascending(depth, frontier)
    && (|frontier| > 0 ==> depth[frontier[|frontier| - 1]] <= depth[frontier[0]] + 1)
    && (|frontier| > 0 ==> forall u :: u in closed ==> u in depth && depth[u] <= depth[frontier[0]])
    && (forall u, n :: u in closed && Step(nbrs, u, n) ==> u in depth && n in depth && depth[n] <= depth[u] + 1)
  }

  ghost predicate Layered(nbrs: Adjacency, start: Cell, end: Cell, frontier: seq<Cell>, visited: set<Cell>,
                          closed: set<Cell>, cameFrom: map<Cell, Cell>, depth: map<Cell, nat>, pushed: seq<Cell>)
  {
    Explored(nbrs, start, end, frontier, visited, closed, cameFrom, depth, pushed) && Layering(nbrs, frontier, closed, depth)
  }

  /** Popping the head of a layered queue and pushing cells one level below
      it keeps the queue sorted within two consecutive depths, none of them
      above the popped cell. */
  lemma QueueStep(frontier: seq<Cell>, added: seq<Cell>, depth: map<Cell, nat>, depth': map<Cell, nat>)
    requires |frontier| > 0 && (forall v :: v in frontier ==> v in depth) && Ascending(depth, frontier)
    requires depth[frontier[|frontier| - 1]] <= depth[frontier[0]] + 1
    requires forall n :: n in added ==> n !in frontier
    requires depth' == depth + map n | n in added :: depth[frontier[0]] + 1
    ensures Ascending(depth', frontier[1..] + added)
    ensures forall v :: v in frontier[1..] + added ==> v in depth' && depth[frontier[0]] <= depth'[v] <= depth[frontier[0]] + 1
  {
    var m, rest := depth[frontier[0]], frontier[1..];
    var f' := rest + added;
    forall i | 0 <= i < |f'| ensures f'[i] in depth' && m <= depth'[f'[i]] <= m + 1 {
      if i < |rest| {
        assert f'[i] == frontier[i + 1] && f'[i] !in added;
        assert depth[frontier[i + 1]] <= depth[frontier[|frontier| - 1]];
      } else {
        assert f'[i] == added[i - |rest|];
      }
    }
    forall i, j | 0 <= i < j < |f'| ensures f'[i] in depth' && f'[j] in depth' && depth'[f'[i]] <= depth'[f'[j]] {
      if j < |rest| {
        assert f'[i] == frontier[i + 1] && f'[j] == frontier[j + 1];
        assert f'[i] !in added && f'[j] !in added;
      } else {
        assert f'[j] == added[j - |rest|];
      }
    }
  }

  /** Expanding the head of the queue keeps every expanded cell's
      neighbours at most one level below it. */
  lemma NeighborBoundStep(nbrs: Adjacency, frontier: seq<Cell>, visited: set<Cell>, closed: set<Cell>,
                          depth: map<Cell, nat>, added: seq<Cell>, depth': map<Cell, nat>)
    requires |frontier| > 0 && Layering(nbrs, frontier, closed, depth)
    requires forall v :: v in visited <==> v in closed || v in frontier
    requires forall u, n :: u in closed && Step(nbrs, u, n) ==> n in visited
    requires forall n :: n in added <==> Step(nbrs, frontier[0], n) && n !in visited
    requires depth' == depth + map n | n in added :: depth[frontier[0]] + 1
    ensures forall u, n :: u in closed + {frontier[0]} && Step(nbrs, u, n) ==>
      u in depth' && n in depth' && depth'[n] <= depth'[u] + 1
  {
    var current := frontier[0];
    forall u, n | u in closed + {current} && Step(nbrs, u, n)
      ensures u in depth' && n in depth' && depth'[n] <= depth'[u] + 1
    {
      if u == current {
        if n !in added {
          assert n in visited;
          if n !in closed {
            var k :| 0 <= k < |frontier| && frontier[k] == n;
            if k > 0 { assert depth[frontier[k]] <= depth[frontier[|frontier| - 1]]; }
          }
        }
      } else {
        assert n in visited;
        assert n !in added && u !in added;
      }
    }
  }

  /** Taking the head off a queue of distinct cells. */
  lemma PopFront(frontier: seq<Cell>)
    requires |frontier| > 0 && Distinct(frontier)
    ensures Distinct(frontier[1..]) && frontier[0] !in frontier[1..]
    ensures forall v :: v in frontier <==> v == frontier[0] || v in frontier[1..]
  {
    assert frontier == [frontier[0]] + frontier[1..];
    assert forall i :: 0 <= i < |frontier| - 1 ==> frontier[1..][i] == frontier[i + 1];
  }

  /** Expanding the head of the queue keeps the layering. */
  lemma LayeredStep(nbrs: Adjacency, start: Cell, end: Cell, frontier: seq<Cell>, visited: set<Cell>,
                    closed: set<Cell>, cameFrom: map<Cell, Cell>, depth: map<Cell, nat>, pushed: seq<Cell>,
                    added: seq<Cell>, visited': set<Cell>, cameFrom': map<Cell, Cell>, depth': map<Cell, nat>)
    requires Layered(nbrs, start, end, frontier, visited, closed, cameFrom, depth, pushed)
    requires |frontier| > 0 && frontier[0] != end
    requires forall n :: n in added <==> Step(nbrs, frontier[0], n) && n !in visited
    requires Distinct(added) && forall n :: n in added ==> n in nbrs
    requires forall n :: n in visited' <==> n in visited || n in added
    requires forall n :: n in cameFrom' <==> n in cameFrom || n in added
    requires forall n :: n in cameFrom' ==> cameFrom'[n] == if n in added then frontier[0] else cameFrom[n]
    requires depth' == depth + map n | n in added :: depth[frontier[0]] + 1
    ensures Layered(nbrs, start, end, frontier[1..] + added, visited', closed + {frontier[0]}, cameFrom', depth', pushed + added)
  {
    PopFront(frontier);
    ExploreStep(nbrs, start, end, frontier, visited, closed, cameFrom, depth, pushed,
                frontier[0], frontier[1..], added, visited', cameFrom', depth');
    LayeringStep(nbrs, frontier, visited, closed, depth, added, depth');
  }

  /** Expanding the head of the queue keeps the depths layered. */
  lemma LayeringStep(nbrs: Adjacency, frontier: seq<Cell>, visited: set<Cell>, closed: set<Cell>,
                     depth: map<Cell, nat>, added: seq<Cell>, depth': map<Cell, nat>)
    requires |frontier| > 0 && Layering(nbrs, frontier, closed, depth)
    requires forall v :: v in visited <==> v in closed || v in frontier
    requires forall u, n :: u in closed && Step(nbrs, u, n) ==> n in visited
    requires forall n :: n in added <==> Step(nbrs, frontier[0], n) && n !in visited
    requires depth' == depth + map n | n in added :: depth[frontier[0]] + 1
    ensures Layering(nbrs, frontier[1..] + added, closed + {frontier[0]}, depth')
  {
    QueueStep(frontier, added, depth, depth');
    NeighborBoundStep(nbrs, frontier, visited, closed, depth, added, depth');
    var f' := frontier[1..] + added;
    if |f'| > 0 {
      assert f'[0] in f' && f'[|f'| - 1] in f';
    }
  }

  /** The breadth-first bound: when the head of the queue has depth `m`,
      every route from the start of fewer than `m` steps ends at a cell
      visited no deeper than its length.  It rests on the layering, on every
      visited cell being expanded or queued, and on the expanded cells'
      neighbours being visited. */
  lemma {:induction false} LayerBound(nbrs: Adjacency, start: Cell, frontier: seq<Cell>, visited: set<Cell>,
                                      closed: set<Cell>, depth: map<Cell, nat>, p: seq<Cell>, k: nat)
    requires start in visited && (forall v :: v in visited ==> v in depth) && depth[start] == 0
    requires forall v :: v in visited ==> v in closed || v in frontier
    requires forall u, n :: u in closed && Step(nbrs, u, n) ==> n in visited
    requires |frontier| > 0 && Layering(nbrs, frontier, closed, depth)
    requires IsRoute(nbrs, p) && p[|p| - 1] == start
    requires k < |p| && k <= depth[frontier[0]]
    ensures p[|p| - 1 - k] in visited && depth[p[|p| - 1 - k]] <= k
  {
    if k > 0 {
      LayerBound(nbrs, start, frontier, visited, closed, depth, p, k - 1);
      var u := p[|p| - k];
      var n := p[|p| - 1 - k];
      assert Step(nbrs, u, n);
      if u !in closed {
        assert false;
      }
    }
  }

  /** When the goal is at the head of the queue, its depth is the length of
      a shortest route to it. */
  lemma BfsShortest(nbrs: Adjacency, start: Cell, end: Cell, frontier: seq<Cell>, visited: set<Cell>,
                    closed: set<Cell>, depth: map<Cell, nat>, p: seq<Cell>)
    requires start in visited && (forall v :: v in visited ==> v in depth) && depth[start] == 0
    requires forall v :: v in visited ==> v in closed || v in frontier
    requires forall u, n :: u in closed && Step(nbrs, u, n) ==> n in visited
    requires |frontier| > 0 && frontier[0] == end && Layering(nbrs, frontier, closed, depth)
    requires RouteFromTo(nbrs, p, start, end)
    ensures depth[end] <= |p| - 1
  {
    if |p| - 1 < depth[end] {
      LayerBound(nbrs, start, frontier, visited, closed, depth, p, |p| - 1);
    }
  }

  /** The cells pushed from a refreshed neighbour list are the unvisited
      cells listed as neighbours of the expanded cell, all of them on the grid. */
  lemma PushedAreNeighbors(g: Grid, nbrs: Adjacency, current: Cell, ns: seq<Cell>, visited: set<Cell>,
                           walls: set<Cell>, added: seq<Cell>)
    requires Refreshed(g, nbrs) && current in nbrs && ns == nbrs[current]
    requires forall n :: n in added <==> n in ns && n !in visited && n !in walls
    requires forall n :: n in walls ==> !Free(g, n)
    ensures forall n :: n in added <==> Step(nbrs, current, n) && n !in visited
    ensures forall n :: n in added ==> n in nbrs
  {
    ListedAreFree(g, nbrs, current);
    forall n | n in added ensures n in nbrs && Step(nbrs, current, n) {
      assert InBounds(g, n);
    }
  }

  /** Expanding `current` closes it (unless it is the start) and opens the
      newly visited cells; every other cell keeps its role. */
  lemma ExploreRoleStep(x: Cell, was: Role, start: Cell, current: Cell,
                        closed: set<Cell>, visited: set<Cell>, visited': set<Cell>)
    requires start in visited && current in visited && closed <= visited <= visited'
    ensures ExploreRole(x, was, start, closed + {current}, visited') ==
      if x in visited' - visited then Open
      else if x == current && current != start then Closed
      else ExploreRole(x, was, start, closed, visited)
  {
  }

  /** Pushing cells of the grid that were not visited shrinks the set of
      cells left to visit, unless nothing was pushed. */
  lemma VisitedGrows(cells: set<Cell>, visited: set<Cell>, added: seq<Cell>, visited': set<Cell>)
    requires forall n :: n in added ==> n in cells && n !in visited
    requires forall n :: n in visited' <==> n in visited || n in added
    ensures added == [] ==> visited' == visited
    ensures added != [] ==> cells - visited' < cells - visited
  {
    if added != [] {
      assert added[0] in cells - visited;
    }
  }

  /** Every visited cell is connected to the start on the grid. */
  lemma VisitedConnected(g: Grid, nbrs: Adjacency, start: Cell, end: Cell, frontier: seq<Cell>, visited: set<Cell>,
                         closed: set<Cell>, cameFrom: map<Cell, Cell>, depth: map<Cell, nat>, pushed: seq<Cell>)
    requires Refreshed(g, nbrs)
    requires Explored(nbrs, start, end, frontier, visited, closed, cameFrom, depth, pushed)
    ensures forall c :: c in visited ==> Connected(g, start, c)
  {
    ExploredTree(nbrs, start, end, frontier, visited, closed, cameFrom, depth, pushed);
    TreeConnected(g, nbrs, start, cameFrom, depth);
  }

  /** With nothing left on the frontier every visited cell was expanded,
      so the visited set is closed under the neighbour lists. */
  lemma ExhaustedClosed(nbrs: Adjacency, visited: set<Cell>, closed: set<Cell>)
    requires forall v :: v in visited ==> v in closed
    requires forall u, n :: u in closed && Step(nbrs, u, n) ==> n in visited
    ensures ClosedUnder(nbrs, visited)
  {
    forall u, n | u in visited && u in nbrs && n in nbrs[u] ensures n in visited {
      assert Step(nbrs, u, n);
    }
  }

  /** Once the frontier is empty the visited cells are exactly the cells
      connected to the start, and the goal is not among them. */
  lemma ExhaustedIsComponent(g: Grid, nbrs: Adjacency, start: Cell, end: Cell, visited: set<Cell>,
                             closed: set<Cell>, cameFrom: map<Cell, Cell>, depth: map<Cell, nat>, pushed: seq<Cell>)
    requires Refreshed(g, nbrs)
    requires Explored(nbrs, start, end, [], visited, closed, cameFrom, depth, pushed)
    ensures forall c :: c in visited <==> Connected(g, start, c)
    ensures !Connected(g, start, end)
  {
    VisitedConnected(g, nbrs, start, end, [], visited, closed, cameFrom, depth, pushed);
    ExhaustedClosed(nbrs, visited, closed);
    ComponentWithin(g, nbrs, start, visited);
  }

  /** When the goal heads the queue, it and its chain of predecessors form
      a walk from the start, and no walk from the start to it is shorter. */
  lemma BfsFound(g: Grid, nbrs: Adjacency, start: Cell, end: Cell, frontier: seq<Cell>, visited: set<Cell>,
                 closed: set<Cell>, cameFrom: map<Cell, Cell>, depth: map<Cell, nat>, pushed: seq<Cell>)
    requires Refreshed(g, nbrs)
    requires Layered(nbrs, start, end, frontier, visited, closed, cameFrom, depth, pushed)
    requires |frontier| > 0 && frontier[0] == end
    ensures PredTree(nbrs, start, cameFrom, depth) && end in depth
    ensures forall v :: v in cameFrom ==> InBounds(g, cameFrom[v])
    ensures WalkFromTo(g, [end] + Chain(cameFrom, depth, end), start, end)
    ensures forall p :: WalkFromTo(g, p, start, end) ==> |Chain(cameFrom, depth, end)| <= |p| - 1
  {
    ExploredTree(nbrs, start, end, frontier, visited, closed, cameFrom, depth, pushed);
    ChainIsRoute(nbrs, start, cameFrom, depth, end);
    RouteIsWalk(g, nbrs, [end] + Chain(cameFrom, depth, end));
    ChainLength(nbrs, start, cameFrom, depth, end);
    forall p | WalkFromTo(g, p, start, end)
      ensures |Chain(cameFrom, depth, end)| <= |p| - 1
    {
      RouteIsWalk(g, nbrs, p);
      BfsShortest(nbrs, start, end, frontier, visited, closed, depth, p);
    }
  }

  /** One expansion of bfs: pop the head of the queue (not the goal), push
      its unvisited neighbours, close it.  The layering is kept, exactly the
      newly visited cells are painted open and the head closed, free cells
      stay non-barriers, and the search makes progress. */
  method BfsExpand(roles: array2<Role>, ghost g: Grid, nbrs: Adjacency, start: Cell, end: Cell,
                   queue: seq<Cell>, visited: set<Cell>, cameFrom: map<Cell, Cell>,
                   ghost closed: set<Cell>, ghost depth: map<Cell, nat>, ghost pushed: seq<Cell>)
    returns (queue': seq<Cell>, visited': set<Cell>, cameFrom': map<Cell, Cell>,
             ghost depth': map<Cell, nat>, ghost pushed': seq<Cell>)
    requires Refreshed(g, nbrs) && g.rows == roles.Length0 && g.cols == roles.Length1
    requires Layered(nbrs, start, end, queue, visited, closed, cameFrom, depth, pushed)
    requires |queue| > 0 && queue[0] != end
    requires forall c {:trigger Free(g, c)} :: Free(g, c) ==> roles[c.row, c.col] != Barrier
    modifies roles
    ensures Layered(nbrs, start, end, queue', visited', closed + {queue[0]}, cameFrom', depth', pushed')
    ensures forall c :: c in visited ==> c in visited'
    ensures forall r, c {:trigger roles[r, c]} :: 0 <= r < roles.Length0 && 0 <= c < roles.Length1 ==>
      roles[r, c] == if Cell(r, c) in visited' - visited then Open
                     else if Cell(r, c) == queue[0] && queue[0] != start then Closed
                     else old(roles[r, c])
    ensures forall c {:trigger Free(g, c)} :: Free(g, c) ==> roles[c.row, c.col] != Barrier
    ensures nbrs.Keys - visited' < nbrs.Keys - visited || (visited' == visited && |queue'| < |queue|)
  {
    var current := queue[0];
    ghost var added;
    visited', cameFrom', queue', added := Expand(roles, g, nbrs, start, current, visited, cameFrom, queue[1..]);
    depth' := depth + map n | n in added :: depth[queue[0]] + 1;
    pushed' := pushed + added;
    LayeredStep(nbrs, start, end, queue, visited, closed, cameFrom, depth, pushed, added, visited', cameFrom', depth');
    VisitedGrows(nbrs.Keys, visited, added, visited');
  }

  /** What bfs's loop leaves behind: the goal was found exactly when it is
      connected to the start, every visited cell is connected to the start
      and, when the queue ran dry, every connected cell was visited; on
      success the chain back from the goal is a shortest walk. */
  lemma BfsOutcome(g: Grid, nbrs: Adjacency, start: Cell, end: Cell, found: bool, queue: seq<Cell>,
                   visited: set<Cell>, closed: set<Cell>, cameFrom: map<Cell, Cell>, depth: map<Cell, nat>,
                   pushed: seq<Cell>)
    requires Refreshed(g, nbrs) && InBounds(g, start)
    requires Layered(nbrs, start, end, queue, visited, closed, cameFrom, depth, pushed)
    requires found ==> |queue| > 0 && queue[0] == end
    requires !found ==> queue == []
    ensures found <==> Connected(g, start, end)
    ensures forall c :: c in visited ==> Connected(g, start, c)
    ensures !found ==> forall c :: Connected(g, start, c) ==> c in visited
    ensures found ==> PredTree(nbrs, start, cameFrom, depth) && end in depth
                      && forall v :: v in cameFrom ==> InBounds(g, cameFrom[v])
    ensures found ==> WalkFromTo(g, [end] + Chain(cameFrom, depth, end), start, end)
    ensures found ==> forall p :: WalkFromTo(g, p, start, end) ==> |Chain(cameFrom, depth, end)| <= |p| - 1
  {
    VisitedConnected(g, nbrs, start, end, queue, visited, closed, cameFrom, depth, pushed);
    if found {
      BfsFound(g, nbrs, start, end, queue, visited, closed, cameFrom, depth, pushed);
      ReachableIffConnected(g, nbrs, start, end);
    } else {
      ExhaustedIsComponent(g, nbrs, start, end, visited, closed, cameFrom, depth, pushed);
    }
  }

  /** The main loop of bfs: expand the head of the queue until the queue is
      empty or the goal reaches its head.  The roles it leaves are those of
      an exploration with the cells it expanded and discovered. */
  method BfsLoop(roles: array2<Role>, ghost g: Grid, nbrs: Adjacency, start: Cell, end: Cell)
    returns (found: bool, queue: seq<Cell>, visited: set<Cell>, cameFrom: map<Cell, Cell>,
             ghost closed: set<Cell>, ghost depth: map<Cell, nat>, ghost pushed: seq<Cell>)
    requires Refreshed(g, nbrs) && g.rows == roles.Length0 && g.cols == roles.Length1
    requires forall c {:trigger Free(g, c)} :: Free(g, c) ==> roles[c.row, c.col] != Barrier
    requires InBounds(g, start)
    modifies roles
    ensures Layered(nbrs, start, end, queue, visited, closed, cameFrom, depth, pushed)
    ensures found ==> |queue| > 0 && queue[0] == end
    ensures !found ==> queue == []
    ensures forall r, c {:trigger roles[r, c]} :: 0 <= r < roles.Length0 && 0 <= c < roles.Length1 ==>
      roles[r, c] == ExploreRole(Cell(r, c), old(roles[r, c]), start, closed, visited)
  {
    queue := [start];
    cameFrom := map[];
    visited := {start};
    closed := {};
    depth := map[start := 0];
    pushed := [start];
    while |queue| > 0
      invariant Layered(nbrs, start, end, queue, visited, closed, cameFrom, depth, pushed)
      invariant forall r, c {:trigger roles[r, c]} :: 0 <= r < roles.Length0 && 0 <= c < roles.Length1 ==>
        roles[r, c] == ExploreRole(Cell(r, c), old(roles[r, c]), start, closed, visited)
      invariant forall c {:trigger Free(g, c)} :: Free(g, c) ==> roles[c.row, c.col] != Barrier
      decreases nbrs.Keys - visited, |queue|
    {
      var current := queue[0];
      if current == end {
        return true, queue, visited, cameFrom, closed, depth, pushed;
      }
      label Expanding:
      var queue', visited', cameFrom', depth', pushed' :=
        BfsExpand(roles, g, nbrs, start, end, queue, visited, cameFrom, closed, depth, pushed);
      forall r, c | 0 <= r < roles.Length0 && 0 <= c < roles.Length1
        ensures roles[r, c] == ExploreRole(Cell(r, c), old(roles[r, c]), start, closed + {current}, visited')
      {
        ExploreRoleStep(Cell(r, c), old(roles[r, c]), start, current, closed, visited, visited');
        assert old@Expanding(roles[r, c]) == ExploreRole(Cell(r, c), old(roles[r, c]), start, closed, visited);
      }
      queue, visited, cameFrom := queue', visited', cameFrom';
      closed, depth, pushed := closed + {current}, depth', pushed';
    }
    found := false;
  }

  /** bfs: a FIFO queue seeded with the start.  It reports whether the goal
      is connected to the start; when it is, the painted path together with
      the goal is a shortest walk from the start, every cell the search
      discovered is painted open and every cell it expanded closed (the start
      excepted, which is repainted as start), and the goal stays open.  When it
      is not, the discovered cells are exactly the start's component. */
  method Bfs(roles: array2<Role>, start: Cell, end: Cell)
    returns (found: bool, ghost discovered: set<Cell>, ghost expanded: set<Cell>, ghost path: seq<Cell>)
    requires OnBoard(roles, start) && roles[start.row, start.col] != Barrier
    requires OnBoard(roles, end) && roles[end.row, end.col] != Barrier
    modifies roles
    ensures found <==> Connected(old(GridOf(roles)), start, end)
    ensures found ==> WalkFromTo(old(GridOf(roles)), [end] + path, start, end)
    ensures found ==> forall p :: WalkFromTo(old(GridOf(roles)), p, start, end) ==> |path| <= |p| - 1
    ensures forall c :: c in discovered ==> Connected(old(GridOf(roles)), start, c)
    ensures !found ==> forall c :: Connected(old(GridOf(roles)), start, c) ==> c in discovered
    ensures forall r, c :: 0 <= r < roles.Length0 && 0 <= c < roles.Length1 ==>
      roles[r, c] == if found && Cell(r, c) == start then Start
                     else if found && Cell(r, c) in path then Path
                     else ExploreRole(Cell(r, c), old(roles[r, c]), start, expanded, discovered)
  {
    var g := GridOf(roles);
    assert g == old(GridOf(roles));
    var nbrs := UpdateNeighbors(g);
    var queue, cameFrom;
    ghost var depth, pushed;
    found, queue, discovered, cameFrom, expanded, depth, pushed := BfsLoop(roles, g, nbrs, start, end);
    BfsOutcome(g, nbrs, start, end, found, queue, discovered, expanded, cameFrom, depth, pushed);
    if found {
      path := Chain(cameFrom, depth, end);
      label Finishing:
      ghost var draws := FinishPath(cameFrom, start, end, roles, depth, false);
      forall r, c | 0 <= r < roles.Length0 && 0 <= c < roles.Length1
        ensures roles[r, c] == if Cell(r, c) == start then Start else if Cell(r, c) in path then Path
                               else ExploreRole(Cell(r, c), old(roles[r, c]), start, expanded, discovered)
      {
        assert old@Finishing(roles[r, c]) == ExploreRole(Cell(r, c), old(roles[r, c]), start, expanded, discovered);
      }
    } else {
      path := [];
    }
  }

  /** Taking the top off a stack of distinct cells. */
  lemma PopBack(frontier: seq<Cell>)
    requires |frontier| > 0 && Distinct(frontier)
    ensures Distinct(frontier[..|frontier| - 1]) && frontier[|frontier| - 1] !in frontier[..|frontier| - 1]
    ensures forall v :: v in frontier <==> v == frontier[|frontier| - 1] || v in frontier[..|frontier| - 1]
  {
    assert frontier == frontier[..|frontier| - 1] + [frontier[|frontier| - 1]];
  }

  /** When the goal is on top of the stack, it and its chain of predecessors
      form a walk from the start that visits no cell twice. */
  lemma DfsFound(g: Grid, nbrs: Adjacency, start: Cell, end: Cell, frontier: seq<Cell>, visited: set<Cell>,
                 closed: set<Cell>, cameFrom: map<Cell, Cell>, depth: map<Cell, nat>, pushed: seq<Cell>)
    requires Refreshed(g, nbrs)
    requires Explored(nbrs, start, end, frontier, visited, closed, cameFrom, depth, pushed)
    requires |frontier| > 0 && frontier[|frontier| - 1] == end
    ensures PredTree(nbrs, start, cameFrom, depth) && end in depth
    ensures forall v :: v in cameFrom ==> InBounds(g, cameFrom[v])
    ensures WalkFromTo(g, [end] + Chain(cameFrom, depth, end), start, end)
    ensures Distinct([end] + Chain(cameFrom, depth, end))
  {
    ExploredTree(nbrs, start, end, frontier, visited, closed, cameFrom, depth, pushed);
    TreePath(g, nbrs, start, cameFrom, depth, end);
  }

  /** One expansion of dfs: pop the top of the stack (not the goal), push
      its unvisited neighbours, close it.  The state stays explored, exactly
      the newly visited cells are painted open and the popped cell closed,
      free cells stay non-barriers, and the search makes progress. */
  method DfsExpand(roles: array2<Role>, ghost g: Grid, nbrs: Adjacency, start: Cell, end: Cell,
                   stack: seq<Cell>, visited: set<Cell>, cameFrom: map<Cell, Cell>,
                   ghost closed: set<Cell>, ghost depth: map<Cell, nat>, ghost pushed: seq<Cell>)
    returns (stack': seq<Cell>, visited': set<Cell>, cameFrom': map<Cell, Cell>,
             ghost depth': map<Cell, nat>, ghost pushed': seq<Cell>)
    requires Refreshed(g, nbrs) && g.rows == roles.Length0 && g.cols == roles.Length1
    requires Explored(nbrs, start, end, stack, visited, closed, cameFrom, depth, pushed)
    requires |stack| > 0 && stack[|stack| - 1] != end
    requires forall c {:trigger Free(g, c)} :: Free(g, c) ==> roles[c.row, c.col] != Barrier
    modifies roles
    ensures Explored(nbrs, start, end, stack', visited', closed + {stack[|stack| - 1]}, cameFrom', depth', pushed')
    ensures forall c :: c in visited ==> c in visited'
    ensures forall r, c {:trigger roles[r, c]} :: 0 <= r < roles.Length0 && 0 <= c < roles.Length1 ==>
      roles[r, c] == if Cell(r, c) in visited' - visited then Open
                     else if Cell(r, c) == stack[|stack| - 1] && stack[|stack| - 1] != start then Closed
                     else old(roles[r, c])
    ensures forall c {:trigger Free(g, c)} :: Free(g, c) ==> roles[c.row, c.col] != Barrier
    ensures nbrs.Keys - visited' < nbrs.Keys - visited || (visited' == visited && |stack'| < |stack|)
  {
    var current := stack[|stack| - 1];
    ghost var added;
    visited', cameFrom', stack', added := Expand(roles, g, nbrs, start, current, visited, cameFrom, stack[..|stack| - 1]);
    depth' := depth + map n | n in added :: depth[current] + 1;
    pushed' := pushed + added;
    PopBack(stack);
    ExploreStep(nbrs, start, end, stack, visited, closed, cameFrom, depth, pushed,
                current, stack[..|stack| - 1], added, visited', cameFrom', depth');
    VisitedGrows(nbrs.Keys, visited, added, visited');
  }

  /** The main loop of dfs: expand the top of the stack until the stack is
      empty or the goal reaches its top. */
  method DfsLoop(roles: array2<Role>, ghost g: Grid, nbrs: Adjacency, start: Cell, end: Cell)
    returns (found: bool, stack: seq<Cell>, visited: set<Cell>, cameFrom: map<Cell, Cell>,
             ghost closed: set<Cell>, ghost depth: map<Cell, nat>, ghost pushed: seq<Cell>)
    requires Refreshed(g, nbrs) && g.rows == roles.Length0 && g.cols == roles.Length1
    requires forall c {:trigger Free(g, c)} :: Free(g, c) ==> roles[c.row, c.col] != Barrier
    requires InBounds(g, start)
    modifies roles
    ensures Explored(nbrs, start, end, stack, visited, closed, cameFrom, depth, pushed)
    ensures found ==> |stack| > 0 && stack[|stack| - 1] == end
    ensures !found ==> stack == []
    ensures forall r, c {:trigger roles[r, c]} :: 0 <= r < roles.Length0 && 0 <= c < roles.Length1 ==>
      roles[r, c] == ExploreRole(Cell(r, c), old(roles[r, c]), start, closed, visited)
  {
    stack := [start];
    cameFrom := map[];
    visited := {start};
    closed := {};
    depth := map[start := 0];
    pushed := [start];
    while |stack| > 0
      invariant Explored(nbrs, start, end, stack, visited, closed, cameFrom, depth, pushed)
      invariant forall r, c {:trigger roles[r, c]} :: 0 <= r < roles.Length0 && 0 <= c < roles.Length1 ==>
        roles[r, c] == ExploreRole(Cell(r, c), old(roles[r, c]), start, closed, visited)
      invariant forall c {:trigger Free(g, c)} :: Free(g, c) ==> roles[c.row, c.col] != Barrier
      decreases nbrs.Keys - visited, |stack|
    {
      var current := stack[|stack| - 1];
      if current == end {
        return true, stack, visited, cameFrom, closed, depth, pushed;
      }
      label Expanding:
      var stack', visited', cameFrom', depth', pushed' :=
        DfsExpand(roles, g, nbrs, start, end, stack, visited, cameFrom, closed, depth, pushed);
      forall r, c | 0 <= r < roles.Length0 && 0 <= c < roles.Length1
        ensures roles[r, c] == ExploreRole(Cell(r, c), old(roles[r, c]), start, closed + {current}, visited')
      {
        ExploreRoleStep(Cell(r, c), old(roles[r, c]), start, current, closed, visited, visited');
        assert old@Expanding(roles[r, c]) == ExploreRole(Cell(r, c), old(roles[r, c]), start, closed, visited);
      }
      stack, visited, cameFrom := stack', visited', cameFrom';
      closed, depth, pushed := closed + {current}, depth', pushed';
    }
    found := false;
  }

  /** dfs: a stack seeded with the start, popped from the top.  It reports
      whether the goal is connected to the start; when it is, the painted
      path together with the goal is a walk from the start that visits no cell
      twice (not necessarily a shortest one), the goal is repainted as end
      and the start as start; the other discovered cells are painted open and
      the expanded ones closed.  When it is not, the discovered cells are
      exactly the start's component. */
  method Dfs(roles: array2<Role>, start: Cell, end: Cell)
    returns (found: bool, ghost discovered: set<Cell>, ghost expanded: set<Cell>, ghost path: seq<Cell>)
    requires OnBoard(roles, start) && roles[start.row, start.col] != Barrier
    requires OnBoard(roles, end) && roles[end.row, end.col] != Barrier
    modifies roles
    ensures found <==> Connected(old(GridOf(roles)), start, end)
    ensures found ==> WalkFromTo(old(GridOf(roles)), [end] + path, start, end) && Distinct([end] + path)
    ensures forall c :: c in discovered ==> Connected(old(GridOf(roles)), start, c)
    ensures !found ==> forall c :: Connected(old(GridOf(roles)), start, c) ==> c in discovered
    ensures forall r, c :: 0 <= r < roles.Length0 && 0 <= c < roles.Length1 ==>
      roles[r, c] == if found && Cell(r, c) == start then Start
                     else if found && Cell(r, c) == end then End
                     else if found && Cell(r, c) in path then Path
                     else ExploreRole(Cell(r, c), old(roles[r, c]), start, expanded, discovered)
  {
    var g := GridOf(roles);
    assert g == old(GridOf(roles));
    var nbrs := UpdateNeighbors(g);
    var stack, cameFrom;
    ghost var depth, pushed;
    found, stack, discovered, cameFrom, expanded, depth, pushed := DfsLoop(roles, g, nbrs, start, end);
    VisitedConnected(g, nbrs, start, end, stack, discovered, expanded, cameFrom, depth, pushed);
    if found {
      DfsFound(g, nbrs, start, end, stack, discovered, expanded, cameFrom, depth, pushed);
      ReachableIffConnected(g, nbrs, start, end);
      path := Chain(cameFrom, depth, end);
      label Finishing:
      ghost var draws := FinishPath(cameFrom, start, end, roles, depth, true);
      forall r, c | 0 <= r < roles.Length0 && 0 <= c < roles.Length1
        ensures roles[r, c] == if Cell(r, c) == start then Start else if Cell(r, c) == end then End
                               else if Cell(r, c) in path then Path
                               else ExploreRole(Cell(r, c), old(roles[r, c]), start, expanded, discovered)
      {
        assert old@Finishing(roles[r, c]) == ExploreRole(Cell(r, c), old(roles[r, c]), start, expanded, discovered);
      }
    } else {
      ExhaustedIsComponent(g, nbrs, start, end, discovered, expanded, cameFrom, depth, pushed);
      path := [];
    }
  }
}
