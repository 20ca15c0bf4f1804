/** depth_limited_search and dls: a recursive depth-first search that gives
    up below a depth limit, recording predecessors in one came-from map
    shared by every branch. */
module DepthLimited {
  import opened SearchGrid
  import opened PathReconstruction

  /** What a call of depth_limited_search yields: whether the goal was
      reached, and the came-from map it leaves behind. */
  datatype Outcome = Outcome(found: bool, cameFrom: map<Cell, Cell>)

  /** Every listed neighbour has a list of its own. */
  predicate Listed(nbrs: Adjacency) {
    forall c, n :: c in nbrs && n in nbrs[c] ==> n in nbrs
  }

  /** The lists of a grid are closed under taking neighbours. */
  lemma RefreshedListed(g: Grid, nbrs: Adjacency)
    requires Refreshed(g, nbrs)
    ensures Listed(nbrs)
  {
    forall c, n | c in nbrs && n in nbrs[c] ensures n in nbrs {
      ListedAreFree(g, nbrs, c);
    }
  }

  /** depth_limited_search, called on `current` at `depth`: it stops at the
      goal, gives up once the depth reaches the limit, and otherwise tries
      the listed neighbours of `current` in order.  A neighbour is recorded
      only if it has no entry yet and is not in `guard`; the source's guard
      is empty. */
  function Search(nbrs: Adjacency, end: Cell, guard: set<Cell>, current: Cell, cameFrom: map<Cell, Cell>,
                  limit: int, depth: int): Outcome
    requires Listed(nbrs) && current in nbrs
    decreases limit - depth, 1, 0
  {
    if current == end then Outcome(true, cameFrom)
    else if depth >= limit then Outcome(false, cameFrom)
    else Scan(nbrs, end, guard, current, nbrs[current], 0, cameFrom, limit, depth)
  }

  /** The neighbour loop of depth_limited_search from the `i`-th listed
      neighbour on: record the neighbour's predecessor, search on from it one
      level deeper, and stop at the first success. */
  function Scan(nbrs: Adjacency, end: Cell, guard: set<Cell>, current: Cell, ns: seq<Cell>, i: nat,
                cameFrom: map<Cell, Cell>, limit: int, depth: int): Outcome
    requires Listed(nbrs) && (forall n :: n in ns ==> n in nbrs) && i <= |ns| && depth < limit
    decreases limit - depth, 0, |ns| - i
  {
    if i == |ns| then Outcome(false, cameFrom)
    else if ns[i] in cameFrom || ns[i] in guard then Scan(nbrs, end, guard, current, ns, i + 1, cameFrom, limit, depth)
    else
      var o := Search(nbrs, end, guard, ns[i], cameFrom[ns[i] := current], limit, depth + 1);
      if o.found then o else Scan(nbrs, end, guard, current, ns, i + 1, o.cameFrom, limit, depth)
  }

  /** Every entry of `m` is in `m'` unchanged. */
  ghost predicate Extends(m: map<Cell, Cell>, m': map<Cell, Cell>) {
    forall v :: v in m ==> v in m' && m'[v] == m[v]
  }

  /** What a search does to the came-from map: entries are only added, each
      cell gets one at most once and never one in `guard`, and the search
      succeeds exactly when it started at the goal (`atGoal`) or recorded it. */
  ghost predicate Grows(end: Cell, guard: set<Cell>, atGoal: bool, cameFrom: map<Cell, Cell>, o: Outcome) {
    && Extends(cameFrom, o.cameFrom)
    && (forall v :: v in o.cameFrom && v !in cameFrom ==> v !in guard)
    && (o.found <==> atGoal || (end in o.cameFrom && end !in cameFrom))
  }

  /** depth_limited_search only adds entries, never in the guard, and
      succeeds exactly when it starts at the goal or reaches it. */
  lemma {:induction false} SearchGrows(nbrs: Adjacency, end: Cell, guard: set<Cell>, current: Cell,
                                       cameFrom: map<Cell, Cell>, limit: int, depth: int)
    requires Listed(nbrs) && current in nbrs
    ensures Grows(end, guard, current == end, cameFrom, Search(nbrs, end, guard, current, cameFrom, limit, depth))
    decreases limit - depth, 1, 0
  {
    if current != end && depth < limit {
      ScanGrows(nbrs, end, guard, current, nbrs[current], 0, cameFrom, limit, depth);
    }
  }

  /** The same for the neighbour loop, which succeeds only by reaching the
      goal. */
  lemma {:induction false} ScanGrows(nbrs: Adjacency, end: Cell, guard: set<Cell>, current: Cell, ns: seq<Cell>, i: nat,
                                     cameFrom: map<Cell, Cell>, limit: int, depth: int)
    requires Listed(nbrs) && (forall n :: n in ns ==> n in nbrs) && i <= |ns| && depth < limit
    ensures Grows(end, guard, false, cameFrom, Scan(nbrs, end, guard, current, ns, i, cameFrom, limit, depth))
    decreases limit - depth, 0, |ns| - i
  {
    if i < |ns| {
      var n := ns[i];
      if n in cameFrom || n in guard {
        ScanGrows(nbrs, end, guard, current, ns, i + 1, cameFrom, limit, depth);
      } else {
        var cf := cameFrom[n := current];
        SearchGrows(nbrs, end, guard, n, cf, limit, depth + 1);
        var o := Search(nbrs, end, guard, n, cf, limit, depth + 1);
        if !o.found {
          ScanGrows(nbrs, end, guard, current, ns, i + 1, o.cameFrom, limit, depth);
        }
      }
    }
  }

  /** No neighbour is tried once the depth reaches the limit: with a limit
      of 0 or less, dls succeeds exactly when the start is the goal. */
  lemma DepthCutoff(nbrs: Adjacency, end: Cell, guard: set<Cell>, current: Cell,
                    cameFrom: map<Cell, Cell>, limit: int, depth: int)
    requires Listed(nbrs) && current in nbrs && depth >= limit
    ensures Search(nbrs, end, guard, current, cameFrom, limit, depth) == Outcome(current == end, cameFrom)
  {
  }

  /** The neighbour lists of a 1 by 3 grid without barriers, cells (0, 0),
      (0, 1) and (0, 2) from left to right. */
  lemma Row3Lists(nbrs: Adjacency)
    requires Refreshed(Grid(1, 3, {}), nbrs)
    ensures Listed(nbrs) && Cell(0, 0) in nbrs && Cell(0, 1) in nbrs && Cell(0, 2) in nbrs
    ensures nbrs[Cell(0, 0)] == [Cell(0, 1)]
    ensures nbrs[Cell(0, 1)] == [Cell(0, 2), Cell(0, 0)]
    ensures nbrs[Cell(0, 2)] == [Cell(0, 1)]
  {
    var g := Grid(1, 3, {});
    RefreshedListed(g, nbrs);
    assert InBounds(g, Cell(0, 0)) && InBounds(g, Cell(0, 1)) && InBounds(g, Cell(0, 2));
    assert Neighbors(g, Cell(0, 0)) == [Cell(0, 1)];
    assert Neighbors(g, Cell(0, 1)) == [Cell(0, 2), Cell(0, 0)];
    assert Neighbors(g, Cell(0, 2)) == [Cell(0, 1)];
  }

  /** As written (no guard), dls with its default limit of 10, started at the
      right end of a 1 by 3 row with the goal at the left end, succeeds after
      recording the start as reached from its neighbour: the came-from map
      holds the cycle (0, 1) -> (0, 2) -> (0, 1), so the loop of
      reconstruct_path, started at the goal, never meets a cell without entry. */
  lemma AsWrittenCycle(nbrs: Adjacency)
    requires Refreshed(Grid(1, 3, {}), nbrs)
    ensures Listed(nbrs) && Cell(0, 2) in nbrs
    ensures var o := Search(nbrs, Cell(0, 0), {}, Cell(0, 2), map[], 10, 0);
      && o.found
      && Cell(0, 1) in o.cameFrom && o.cameFrom[Cell(0, 1)] == Cell(0, 2)
      && Cell(0, 2) in o.cameFrom && o.cameFrom[Cell(0, 2)] == Cell(0, 1)
      && forall n: nat :: Follow(o.cameFrom, Cell(0, 0), n) in o.cameFrom
  {
    Row3Lists(nbrs);
    var e, a, s := Cell(0, 0), Cell(0, 1), Cell(0, 2);
    var cf1 := map[a := s];
    var cf2 := cf1[s := a];
    var cf3 := cf2[e := a];
    assert Scan(nbrs, e, {}, s, [a], 1, cf2, 10, 2) == Outcome(false, cf2);
    assert Search(nbrs, e, {}, s, cf2, 10, 2) == Outcome(false, cf2);
    assert Search(nbrs, e, {}, e, cf3, 10, 2) == Outcome(true, cf3);
    assert Scan(nbrs, e, {}, a, [s, e], 1, cf2, 10, 1) == Outcome(true, cf3);
    assert Search(nbrs, e, {}, a, cf1, 10, 1) == Outcome(true, cf3);
    assert Search(nbrs, e, {}, s, map[], 10, 0) == Outcome(true, cf3);
    forall n: nat ensures Follow(cf3, e, n) in cf3 {
      if n > 0 {
        TwoCycleNeverEnds(cf3, a, s, n - 1);
      }
    }
  }

  /** With the start in the guard, the same search records a came-from map
      whose chain from the goal ends at the start after two steps. */
  lemma GuardedRow3(nbrs: Adjacency)
    requires Refreshed(Grid(1, 3, {}), nbrs)
    ensures Listed(nbrs) && Cell(0, 2) in nbrs
    ensures var o := Search(nbrs, Cell(0, 0), {Cell(0, 2)}, Cell(0, 2), map[], 10, 0);
      && o.found && o.cameFrom == map[Cell(0, 1) := Cell(0, 2), Cell(0, 0) := Cell(0, 1)]
      && Follow(o.cameFrom, Cell(0, 0), 2) == Cell(0, 2) && Cell(0, 2) !in o.cameFrom
  {
    Row3Lists(nbrs);
    var e, a, s := Cell(0, 0), Cell(0, 1), Cell(0, 2);
    var cf1 := map[a := s];
    var cf2 := cf1[e := a];
    assert Search(nbrs, e, {s}, e, cf2, 10, 2) == Outcome(true, cf2);
    assert Scan(nbrs, e, {s}, a, [s, e], 1, cf1, 10, 1) == Outcome(true, cf2);
    assert Search(nbrs, e, {s}, a, cf1, 10, 1) == Outcome(true, cf2);
    assert Search(nbrs, e, {s}, s, map[], 10, 0) == Outcome(true, cf2);
  }

  /** The neighbour lists of a 3 by 3 grid without barriers that a search
      from the top-left corner walks through before its depth runs out. */
  lemma Grid3Lists(nbrs: Adjacency)
    requires Refreshed(Grid(3, 3, {}), nbrs)
    ensures Listed(nbrs) && Cell(0, 0) in nbrs && Cell(1, 0) in nbrs && Cell(2, 0) in nbrs && Cell(1, 1) in nbrs
    ensures nbrs[Cell(0, 0)] == [Cell(1, 0), Cell(0, 1)]
    ensures nbrs[Cell(1, 0)] == [Cell(2, 0), Cell(0, 0), Cell(1, 1)]
    ensures nbrs[Cell(2, 0)] == [Cell(1, 0), Cell(2, 1)]
    ensures nbrs[Cell(1, 1)] == [Cell(2, 1), Cell(0, 1), Cell(1, 2), Cell(1, 0)]
  {
    var g := Grid(3, 3, {});
    RefreshedListed(g, nbrs);
    assert InBounds(g, Cell(0, 0)) && InBounds(g, Cell(1, 0)) && InBounds(g, Cell(2, 0)) && InBounds(g, Cell(1, 1));
    Grid3Neighbors();
  }

  /** The neighbour lists of four cells of a 3 by 3 grid without barriers. */
  lemma Grid3Neighbors()
    ensures Neighbors(Grid(3, 3, {}), Cell(0, 0)) == [Cell(1, 0), Cell(0, 1)]
    ensures Neighbors(Grid(3, 3, {}), Cell(1, 0)) == [Cell(2, 0), Cell(0, 0), Cell(1, 1)]
    ensures Neighbors(Grid(3, 3, {}), Cell(2, 0)) == [Cell(1, 0), Cell(2, 1)]
    ensures Neighbors(Grid(3, 3, {}), Cell(1, 1)) == [Cell(2, 1), Cell(0, 1), Cell(1, 2), Cell(1, 0)]
  {
    var g := Grid(3, 3, {});
    assert KeepFree(g, [Cell(0, -1)]) == [];
    assert KeepFree(g, [Cell(0, 1), Cell(0, -1)]) == [Cell(0, 1)];
    assert KeepFree(g, [Cell(1, 1), Cell(1, -1)]) == [Cell(1, 1)];
    assert KeepFree(g, [Cell(2, 1), Cell(2, -1)]) == [Cell(2, 1)];
    assert KeepFree(g, [Cell(3, 0), Cell(1, 0), Cell(2, 1), Cell(2, -1)]) == [Cell(1, 0), Cell(2, 1)];
  }

  /** The branch of a search on a 3 by 3 grid without barriers that enters
      (2, 0) at depth 2 with limit 3: (1, 0) has an entry, so only (2, 1) is
      recorded, where the depth runs out. */
  lemma CornerBranch(nbrs: Adjacency, guard: set<Cell>, m: map<Cell, Cell>)
    requires Refreshed(Grid(3, 3, {}), nbrs) && Cell(1, 0) in m && Cell(2, 1) !in m && Cell(2, 1) !in guard
    ensures Listed(nbrs) && Cell(2, 0) in nbrs
    ensures Search(nbrs, Cell(0, 2), guard, Cell(2, 0), m, 3, 2) == Outcome(false, m[Cell(2, 1) := Cell(2, 0)])
  {
    Grid3Lists(nbrs);
    var e, ns, m' := Cell(0, 2), nbrs[Cell(2, 0)], m[Cell(2, 1) := Cell(2, 0)];
    assert Search(nbrs, e, guard, Cell(2, 1), m', 3, 3) == Outcome(false, m');
    assert Scan(nbrs, e, guard, Cell(2, 0), ns, 2, m', 3, 2) == Outcome(false, m');
    assert Scan(nbrs, e, guard, Cell(2, 0), ns, 1, m, 3, 2) == Outcome(false, m');
    assert Scan(nbrs, e, guard, Cell(2, 0), ns, 0, m, 3, 2) == Outcome(false, m');
  }

  /** The branch that enters (1, 1) at depth 2 with limit 3, when (2, 1) and
      (1, 0) have entries and (1, 2) has none: (0, 1), unless it already has
      an entry, and (1, 2) are recorded, and the depth runs out at both. */
  lemma CentreBranch(nbrs: Adjacency, guard: set<Cell>, m: map<Cell, Cell>)
    requires Refreshed(Grid(3, 3, {}), nbrs) && Cell(1, 0) in m && Cell(2, 1) in m && Cell(1, 2) !in m
    requires Cell(0, 1) !in guard && Cell(1, 2) !in guard
    ensures Listed(nbrs) && Cell(1, 1) in nbrs
    ensures var m' := if Cell(0, 1) in m then m else m[Cell(0, 1) := Cell(1, 1)];
      Search(nbrs, Cell(0, 2), guard, Cell(1, 1), m, 3, 2) == Outcome(false, m'[Cell(1, 2) := Cell(1, 1)])
  {
    Grid3Lists(nbrs);
    var e, ns := Cell(0, 2), nbrs[Cell(1, 1)];
    var m' := if Cell(0, 1) in m then m else m[Cell(0, 1) := Cell(1, 1)];
    var m'' := m'[Cell(1, 2) := Cell(1, 1)];
    assert Cell(1, 2) !in m' && Cell(2, 1) in m';
    assert Scan(nbrs, e, guard, Cell(1, 1), ns, 3, m'', 3, 2) == Outcome(false, m'');
    assert Search(nbrs, e, guard, Cell(1, 2), m'', 3, 3) == Outcome(false, m'');
    assert Scan(nbrs, e, guard, Cell(1, 1), ns, 2, m', 3, 2) == Outcome(false, m'');
    if Cell(0, 1) !in m {
      assert Search(nbrs, e, guard, Cell(0, 1), m', 3, 3) == Outcome(false, m');
    }
    assert Scan(nbrs, e, guard, Cell(1, 1), ns, 1, m, 3, 2) == Outcome(false, m'');
    assert Scan(nbrs, e, guard, Cell(1, 1), ns, 0, m, 3, 2) == Outcome(false, m'');
  }

  /** Along the top row of a 3 by 3 grid without barriers, (0, 2) is two
      steps from (0, 0). */
  lemma Grid3Walk()
    ensures WalkFromTo(Grid(3, 3, {}), [Cell(0, 2), Cell(0, 1), Cell(0, 0)], Cell(0, 0), Cell(0, 2))
  {
    var g := Grid(3, 3, {});
    assert KeepFree(g, [Cell(0, 0)]) == [Cell(0, 0)];
    assert KeepFree(g, [Cell(0, 2), Cell(0, 0)]) == [Cell(0, 2), Cell(0, 0)];
    assert Neighbors(g, Cell(0, 1)) == [Cell(1, 1), Cell(0, 2), Cell(0, 0)];
    Grid3Neighbors();
  }

  /** On a 3 by 3 grid without barriers the goal (0, 2) is two steps from
      the start (0, 0), yet as written, with limit 3, the search fails: the
      first branch goes down to (1, 0), records the start from there and,
      from the start at depth 2, records (0, 1) at depth 3, where the search
      gives up; back at the start (0, 1) has an entry and is skipped. */
  lemma ShortPathMissed(nbrs: Adjacency)
    requires Refreshed(Grid(3, 3, {}), nbrs)
    ensures WalkFromTo(Grid(3, 3, {}), [Cell(0, 2), Cell(0, 1), Cell(0, 0)], Cell(0, 0), Cell(0, 2))
    ensures Listed(nbrs) && Cell(0, 0) in nbrs
    ensures !Search(nbrs, Cell(0, 2), {}, Cell(0, 0), map[], 3, 0).found
  {
    Grid3Walk();
    Grid3Lists(nbrs);
    var s, e, a := Cell(0, 0), Cell(0, 2), Cell(1, 0);
    var ns, ms := nbrs[a], nbrs[s];
    var m1 := map[a := s];
    var m2 := m1[Cell(2, 0) := a];
    var m3 := m2[Cell(2, 1) := Cell(2, 0)];
    var m4 := m3[s := a];
    var m5 := m4[Cell(0, 1) := s];
    CornerBranch(nbrs, {}, m2);
    assert Search(nbrs, e, {}, Cell(0, 1), m5, 3, 3) == Outcome(false, m5);
    assert Scan(nbrs, e, {}, s, ms, 2, m5, 3, 2) == Outcome(false, m5);
    assert Scan(nbrs, e, {}, s, ms, 1, m4, 3, 2) == Outcome(false, m5);
    assert Scan(nbrs, e, {}, s, ms, 0, m4, 3, 2) == Outcome(false, m5);
    assert Search(nbrs, e, {}, s, m4, 3, 2) == Outcome(false, m5);
    var m6 := m5[Cell(1, 1) := a];
    CentreBranch(nbrs, {}, m6);
    var m7 := m6[Cell(1, 2) := Cell(1, 1)];
    assert Scan(nbrs, e, {}, a, ns, 3, m7, 3, 1) == Outcome(false, m7);
    assert Scan(nbrs, e, {}, a, ns, 2, m5, 3, 1) == Outcome(false, m7);
    assert Scan(nbrs, e, {}, a, ns, 1, m3, 3, 1) == Outcome(false, m7);
    assert Scan(nbrs, e, {}, a, ns, 0, m1, 3, 1) == Outcome(false, m7);
    assert Scan(nbrs, e, {}, s, ms, 1, m7, 3, 0) == Outcome(false, m7);
  }

  /** The same search with the start guarded, as dls is modelled here,
      fails too: the start is skipped at (1, 0), and (1, 1) records (0, 1)
      at depth 3 instead. */
  lemma GuardedShortPathMissed(nbrs: Adjacency)
    requires Refreshed(Grid(3, 3, {}), nbrs)
    ensures Listed(nbrs) && Cell(0, 0) in nbrs
    ensures !Search(nbrs, Cell(0, 2), {Cell(0, 0)}, Cell(0, 0), map[], 3, 0).found
  {
    Grid3Lists(nbrs);
    var s, e, a := Cell(0, 0), Cell(0, 2), Cell(1, 0);
    var ns, ms := nbrs[a], nbrs[s];
    var m1 := map[a := s];
    var m2 := m1[Cell(2, 0) := a];
    var m3 := m2[Cell(2, 1) := Cell(2, 0)];
    var m4 := m3[Cell(1, 1) := a];
    var m5 := m4[Cell(0, 1) := Cell(1, 1)][Cell(1, 2) := Cell(1, 1)];
    CornerBranch(nbrs, {s}, m2);
    CentreBranch(nbrs, {s}, m4);
    assert Scan(nbrs, e, {s}, a, ns, 2, m3, 3, 1) == Outcome(false, m5);
    assert Scan(nbrs, e, {s}, a, ns, 0, m1, 3, 1) == Outcome(false, m5);
    assert Scan(nbrs, e, {s}, s, ms, 1, m5, 3, 0) == Outcome(false, m5);
  }

  /** The came-from map of dls with the start in the guard is a predecessor
      tree rooted at the start whose ranks are depths: the start has depth 0,
      a recorded cell lies one level below its predecessor and no deeper
      than the limit, and every ranked cell has a neighbour list. */
  ghost predicate DepthTree(nbrs: Adjacency, start: Cell, cameFrom: map<Cell, Cell>, rank: map<Cell, nat>, limit: int) {
    && PredTree(nbrs, start, cameFrom, rank)
    && rank.Keys == cameFrom.Keys + {start} && rank[start] == 0
    && (forall v :: v in rank ==> v in nbrs)
    && (forall v :: v in cameFrom ==> rank[v] == rank[cameFrom[v]] + 1 && rank[v] <= limit)
  }

  /** Every depth of `rank` is in `rank'` unchanged. */
  ghost predicate Kept(rank: map<Cell, nat>, rank': map<Cell, nat>) {
    forall v :: v in rank ==> v in rank' && rank'[v] == rank[v]
  }

  /** Recording `current` as the predecessor of a neighbour that has no
      entry and is not the start, one level below `current`, keeps the tree. */
  lemma RecordKeepsTree(nbrs: Adjacency, start: Cell, cameFrom: map<Cell, Cell>, rank: map<Cell, nat>, limit: int,
                        current: Cell, n: Cell)
    requires DepthTree(nbrs, start, cameFrom, rank, limit) && current in rank && rank[current] < limit
    requires Step(nbrs, current, n) && n in nbrs && n !in cameFrom && n != start
    ensures n !in rank
    ensures DepthTree(nbrs, start, cameFrom[n := current], rank[n := rank[current] + 1], limit)
    ensures Extends(cameFrom, cameFrom[n := current]) && Kept(rank, rank[n := rank[current] + 1])
  {
    var cf, rk := cameFrom[n := current], rank[n := rank[current] + 1];
    assert rk.Keys == cf.Keys + {start};
    forall v | v in cf ensures rk[v] == rk[cf[v]] + 1 && rk[v] <= limit && Step(nbrs, cf[v], v) {
      if v != n {
        assert cameFrom[v] in rank;
      }
    }
  }

  /** The cells a call adds after `n` was recorded, together with `n`, are
      the cells added since before `n` was recorded. */
  lemma AddedAfterRecord(m: map<Cell, Cell>, n: Cell, p: Cell, m': map<Cell, Cell>)
    requires n !in m && Extends(m[n := p], m')
    ensures m'.Keys - m[n := p].Keys + {n} == m'.Keys - m.Keys
  {
  }

  /** What the neighbour loop learns from recording `ns[i]` and searching
      from it: the scan's outcome, and how the map of entries has grown. */
  lemma RecordFolds(nbrs: Adjacency, start: Cell, end: Cell, current: Cell, ns: seq<Cell>, i: nat,
                    cameFrom: map<Cell, Cell>, limit: int, depth: int, rank: map<Cell, nat>,
                    found: bool, cameFrom': map<Cell, Cell>, rank': map<Cell, nat>)
    requires Listed(nbrs) && current in nbrs && ns == nbrs[current] && i < |ns| && 0 <= depth < limit
    requires ns[i] !in cameFrom && ns[i] != start && ns[i] !in rank
    requires Outcome(found, cameFrom') == Search(nbrs, end, {start}, ns[i], cameFrom[ns[i] := current], limit, depth + 1)
    requires Extends(cameFrom[ns[i] := current], cameFrom') && Kept(rank[ns[i] := depth + 1], rank')
    ensures (if found then Outcome(true, cameFrom') else Scan(nbrs, end, {start}, current, ns, i + 1, cameFrom', limit, depth))
            == Scan(nbrs, end, {start}, current, ns, i, cameFrom, limit, depth)
    ensures Extends(cameFrom, cameFrom') && Kept(rank, rank')
    ensures cameFrom'.Keys - cameFrom[ns[i] := current].Keys + {ns[i]} == cameFrom'.Keys - cameFrom.Keys
  {
    var n := ns[i];
    assert forall m :: m in ns ==> m in nbrs;
    ScanTries(nbrs, end, {start}, current, ns, i, cameFrom, limit, depth, Outcome(found, cameFrom'));
    ExtendsTrans(cameFrom, cameFrom[n := current], cameFrom');
    KeptTrans(rank, rank[n := depth + 1], rank');
    AddedAfterRecord(cameFrom, n, current, cameFrom');
  }

  /** Entries kept twice are kept. */
  lemma ExtendsTrans(m0: map<Cell, Cell>, m1: map<Cell, Cell>, m2: map<Cell, Cell>)
    requires Extends(m0, m1) && Extends(m1, m2)
    ensures Extends(m0, m2)
  {
  }

  lemma KeptTrans(r0: map<Cell, nat>, r1: map<Cell, nat>, r2: map<Cell, nat>)
    requires Kept(r0, r1) && Kept(r1, r2)
    ensures Kept(r0, r2)
  {
  }

  /** The chain back from `v` that passes through a cell `n` with an entry
      (or starts there) passes through the predecessor of `n` too. */
  lemma ChainThrough(cameFrom: map<Cell, Cell>, rank: map<Cell, nat>, v: Cell, n: Cell)
    requires Ranked(cameFrom, rank) && n in cameFrom
    requires n == v || n in Chain(cameFrom, rank, v)
    ensures cameFrom[n] in Chain(cameFrom, rank, v)
  {
    ChainShape(cameFrom, rank, v);
    var ch := Chain(cameFrom, rank, v);
    if n != v {
      var k :| 0 <= k < |ch| && ch[k] == n;
      assert k < |ch| - 1;
      assert ch[k + 1] == cameFrom[n];
    }
  }

  /** The role of a cell after a call of depth_limited_search: on success the
      goal is end and the path back from it is path; the cells recorded
      during the call (`added`) are closed; the rest keep their role. */
  function Repaint(x: Cell, was: Role, found: bool, end: Cell, path: seq<Cell>, added: set<Cell>): Role {
    if found && x == end then End
    else if found && x in path then Path
    else if x in added then Closed
    else was
  }

  /** Trying one neighbour `n`: it is painted open, the call on it repaints,
      and on failure `n` is painted closed. */
  lemma TryPaints(x: Cell, was: Role, shown: Role, now: Role, found: bool, end: Cell, path: seq<Cell>,
                  n: Cell, added: set<Cell>)
    requires shown == if x == n then Open else was
    requires found ==> n == end || n in path
    requires now == if !found && x == n then Closed else Repaint(x, shown, found, end, path, added)
    ensures now == Repaint(x, was, found, end, path, added + {n})
  {
  }

  /** A failed neighbour followed by the next one: the closed cells add up. */
  lemma ScanPaints(x: Cell, was: Role, mid: Role, now: Role, found: bool, end: Cell, path: seq<Cell>,
                   k0: set<Cell>, k1: set<Cell>, k2: set<Cell>)
    requires k0 <= k1 <= k2
    requires mid == Repaint(x, was, false, end, [], k1 - k0)
    requires now == Repaint(x, mid, found, end, path, k2 - k1)
    ensures now == Repaint(x, was, found, end, path, k2 - k0)
  {
  }

  /** A neighbour that is skipped leaves the rest of the loop to do. */
  lemma ScanSkips(nbrs: Adjacency, end: Cell, guard: set<Cell>, current: Cell, ns: seq<Cell>, i: nat,
                  cameFrom: map<Cell, Cell>, limit: int, depth: int)
    requires Listed(nbrs) && (forall n :: n in ns ==> n in nbrs) && i < |ns| && depth < limit
    requires ns[i] in cameFrom || ns[i] in guard
    ensures Scan(nbrs, end, guard, current, ns, i + 1, cameFrom, limit, depth)
            == Scan(nbrs, end, guard, current, ns, i, cameFrom, limit, depth)
  {
  }

  /** A neighbour that is recorded and searched from either ends the loop
      with that search's success or leaves the rest of the loop to do. */
  lemma ScanTries(nbrs: Adjacency, end: Cell, guard: set<Cell>, current: Cell, ns: seq<Cell>, i: nat,
                  cameFrom: map<Cell, Cell>, limit: int, depth: int, o: Outcome)
    requires Listed(nbrs) && (forall n :: n in ns ==> n in nbrs) && i < |ns| && depth < limit
    requires ns[i] !in cameFrom && ns[i] !in guard
    requires o == Search(nbrs, end, guard, ns[i], cameFrom[ns[i] := current], limit, depth + 1)
    ensures (if o.found then o else Scan(nbrs, end, guard, current, ns, i + 1, o.cameFrom, limit, depth))
            == Scan(nbrs, end, guard, current, ns, i, cameFrom, limit, depth)
  {
  }

  /** The recursive step of depth_limited_search on a neighbour `n` just
      recorded with predecessor `current`: `n` is painted open and searched
      from one level deeper. */
  method Explore(roles: array2<Role>, ghost g: Grid, nbrs: Adjacency, start: Cell, end: Cell, current: Cell, n: Cell,
                 cameFrom: map<Cell, Cell>, limit: int, depth: int, ghost rank: map<Cell, nat>)
    returns (found: bool, cameFrom': map<Cell, Cell>, ghost rank': map<Cell, nat>)
    requires Refreshed(g, nbrs) && g.rows == roles.Length0 && g.cols == roles.Length1 && Listed(nbrs)
    requires forall c {:trigger Free(g, c)} :: Free(g, c) ==> roles[c.row, c.col] != Barrier
    requires DepthTree(nbrs, start, cameFrom, rank, limit) && n in cameFrom && cameFrom[n] == current
    requires rank[n] == depth + 1
    modifies roles
    decreases limit - depth, 0, 0
    ensures Outcome(found, cameFrom') == Search(nbrs, end, {start}, n, cameFrom, limit, depth + 1)
    ensures DepthTree(nbrs, start, cameFrom', rank', limit) && Extends(cameFrom, cameFrom') && Kept(rank, rank')
    ensures found ==> end in rank' && (n == end || n in Chain(cameFrom', rank', end))
    ensures forall c {:trigger Free(g, c)} :: Free(g, c) ==> roles[c.row, c.col] != Barrier
    ensures found ==> forall r, c {:trigger roles[r, c]} :: 0 <= r < roles.Length0 && 0 <= c < roles.Length1 ==>
      roles[r, c] == Repaint(Cell(r, c), old(roles[r, c]), true, end, Chain(cameFrom', rank', end),
                             cameFrom'.Keys - cameFrom.Keys + {n})
    ensures !found ==> forall r, c {:trigger roles[r, c]} :: 0 <= r < roles.Length0 && 0 <= c < roles.Length1 ==>
      roles[r, c] == if Cell(r, c) == n then Open else Repaint(Cell(r, c), old(roles[r, c]), false, end, [],
                             cameFrom'.Keys - cameFrom.Keys)
  {
    assert n in rank && n in nbrs;
    assert OnBoard(roles, n);
    Paint(roles, n, Open);
    label Shown:
    found, cameFrom', rank' := DepthLimitedSearch(roles, g, nbrs, start, end, n, cameFrom, limit, depth + 1, rank);
    if found {
      ghost var path, added := Chain(cameFrom', rank', end), cameFrom'.Keys - cameFrom.Keys;
      forall r, c | 0 <= r < roles.Length0 && 0 <= c < roles.Length1
        ensures roles[r, c] == Repaint(Cell(r, c), old(roles[r, c]), true, end, path, added + {n})
      {
        TryPaints(Cell(r, c), old(roles[r, c]), old@Shown(roles[r, c]), roles[r, c], true, end, path, n, added);
      }
    }
  }

  /** The recursive step of depth_limited_search on a neighbour `n` just
      recorded with predecessor `current`: `n` is painted open, searched from
      one level deeper and, if that fails, painted closed. */
  method Descend(roles: array2<Role>, ghost g: Grid, nbrs: Adjacency, start: Cell, end: Cell, current: Cell, n: Cell,
                 cameFrom: map<Cell, Cell>, limit: int, depth: int, ghost rank: map<Cell, nat>)
    returns (found: bool, cameFrom': map<Cell, Cell>, ghost rank': map<Cell, nat>)
    requires Refreshed(g, nbrs) && g.rows == roles.Length0 && g.cols == roles.Length1 && Listed(nbrs)
    requires forall c {:trigger Free(g, c)} :: Free(g, c) ==> roles[c.row, c.col] != Barrier
    requires DepthTree(nbrs, start, cameFrom, rank, limit) && n in cameFrom && cameFrom[n] == current
    requires rank[n] == depth + 1
    modifies roles
    decreases limit - depth, 0, 1
    ensures Outcome(found, cameFrom') == Search(nbrs, end, {start}, n, cameFrom, limit, depth + 1)
    ensures DepthTree(nbrs, start, cameFrom', rank', limit) && Extends(cameFrom, cameFrom') && Kept(rank, rank')
    ensures found ==> end in rank' && current in Chain(cameFrom', rank', end)
    ensures forall c {:trigger Free(g, c)} :: Free(g, c) ==> roles[c.row, c.col] != Barrier
    ensures forall r, c {:trigger roles[r, c]} :: 0 <= r < roles.Length0 && 0 <= c < roles.Length1 ==>
      roles[r, c] == Repaint(Cell(r, c), old(roles[r, c]), found, end, Chain(cameFrom', rank', end),
                             cameFrom'.Keys - cameFrom.Keys + {n})
  {
    label Searching:
    found, cameFrom', rank' := Explore(roles, g, nbrs, start, end, current, n, cameFrom, limit, depth, rank);
    if found {
      ChainThrough(cameFrom', rank', end, n);
    } else {
      assert OnBoard(roles, n);
      Paint(roles, n, Closed);
    }
  }

  /** The body of the neighbour loop on a neighbour that is recorded:
      `current` becomes its predecessor and it is searched from. */
  method Record(roles: array2<Role>, ghost g: Grid, nbrs: Adjacency, start: Cell, end: Cell, current: Cell,
                     ns: seq<Cell>, i: nat, cameFrom: map<Cell, Cell>, limit: int, depth: int, ghost rank: map<Cell, nat>)
    returns (found: bool, cameFrom': map<Cell, Cell>, ghost rank': map<Cell, nat>)
    requires Refreshed(g, nbrs) && g.rows == roles.Length0 && g.cols == roles.Length1 && Listed(nbrs)
    requires forall c {:trigger Free(g, c)} :: Free(g, c) ==> roles[c.row, c.col] != Barrier
    requires DepthTree(nbrs, start, cameFrom, rank, limit) && current in rank && rank[current] == depth < limit
    requires ns == nbrs[current] && i < |ns|
    requires ns[i] in nbrs && Step(nbrs, current, ns[i]) && ns[i] !in cameFrom && ns[i] != start
    modifies roles
    decreases limit - depth, 0, 2
    ensures (if found then Outcome(true, cameFrom') else Scan(nbrs, end, {start}, current, ns, i + 1, cameFrom', limit, depth))
            == Scan(nbrs, end, {start}, current, ns, i, cameFrom, limit, depth)
    ensures DepthTree(nbrs, start, cameFrom', rank', limit) && Extends(cameFrom, cameFrom') && Kept(rank, rank')
    ensures found ==> end in rank' && current in Chain(cameFrom', rank', end)
    ensures forall c {:trigger Free(g, c)} :: Free(g, c) ==> roles[c.row, c.col] != Barrier
    ensures forall r, c {:trigger roles[r, c]} :: 0 <= r < roles.Length0 && 0 <= c < roles.Length1 ==>
      roles[r, c] == Repaint(Cell(r, c), old(roles[r, c]), found, end, Chain(cameFrom', rank', end),
                             cameFrom'.Keys - cameFrom.Keys)
  {
    var n := ns[i];
    var cf := cameFrom[n := current];
    ghost var rk := rank[n := depth + 1];
    RecordKeepsTree(nbrs, start, cameFrom, rank, limit, current, n);
    found, cameFrom', rank' := Descend(roles, g, nbrs, start, end, current, n, cf, limit, depth, rk);
    RecordFolds(nbrs, start, end, current, ns, i, cameFrom, limit, depth, rank, found, cameFrom', rank');
  }

  /** One pass of the neighbour loop of depth_limited_search, with the start
      added to the guard: a listed neighbour of `current` with no entry, not
      a barrier and not the start is recorded and searched from. */
  method TryNeighbor(roles: array2<Role>, ghost g: Grid, nbrs: Adjacency, start: Cell, end: Cell, current: Cell,
                     ns: seq<Cell>, i: nat, cameFrom: map<Cell, Cell>, limit: int, depth: int, ghost rank: map<Cell, nat>)
    returns (found: bool, cameFrom': map<Cell, Cell>, ghost rank': map<Cell, nat>)
    requires Refreshed(g, nbrs) && g.rows == roles.Length0 && g.cols == roles.Length1 && Listed(nbrs)
    requires forall c {:trigger Free(g, c)} :: Free(g, c) ==> roles[c.row, c.col] != Barrier
    requires DepthTree(nbrs, start, cameFrom, rank, limit) && current in rank && rank[current] == depth < limit
    requires ns == nbrs[current] && i < |ns|
    modifies roles
    decreases limit - depth, 1, 0
    ensures (if found then Outcome(true, cameFrom') else Scan(nbrs, end, {start}, current, ns, i + 1, cameFrom', limit, depth))
            == Scan(nbrs, end, {start}, current, ns, i, cameFrom, limit, depth)
    ensures DepthTree(nbrs, start, cameFrom', rank', limit) && Extends(cameFrom, cameFrom') && Kept(rank, rank')
    ensures found ==> end in rank' && current in Chain(cameFrom', rank', end)
    ensures forall c {:trigger Free(g, c)} :: Free(g, c) ==> roles[c.row, c.col] != Barrier
    ensures forall r, c {:trigger roles[r, c]} :: 0 <= r < roles.Length0 && 0 <= c < roles.Length1 ==>
      roles[r, c] == Repaint(Cell(r, c), old(roles[r, c]), found, end, Chain(cameFrom', rank', end),
                             cameFrom'.Keys - cameFrom.Keys)
  {
    var n := ns[i];
    ListedAreFree(g, nbrs, current);
    assert Free(g, n) && forall m :: m in ns ==> m in nbrs;
    if n !in cameFrom && roles[n.row, n.col] != Barrier && n != start {
      found, cameFrom', rank' := Record(roles, g, nbrs, start, end, current, ns, i, cameFrom, limit, depth, rank);
    } else {
      ScanSkips(nbrs, end, {start}, current, ns, i, cameFrom, limit, depth);
      found, cameFrom', rank' := false, cameFrom, rank;
    }
  }

  /** depth_limited_search at the goal: paint the path back from it and
      repaint the goal as end. */
  method ReachGoal(roles: array2<Role>, ghost g: Grid, nbrs: Adjacency, start: Cell, end: Cell,
                   cameFrom: map<Cell, Cell>, limit: int, ghost rank: map<Cell, nat>)
    requires Refreshed(g, nbrs) && g.rows == roles.Length0 && g.cols == roles.Length1
    requires forall c {:trigger Free(g, c)} :: Free(g, c) ==> roles[c.row, c.col] != Barrier
    requires DepthTree(nbrs, start, cameFrom, rank, limit) && end in rank
    modifies roles
    ensures forall c {:trigger Free(g, c)} :: Free(g, c) ==> roles[c.row, c.col] != Barrier
    ensures forall r, c {:trigger roles[r, c]} :: 0 <= r < roles.Length0 && 0 <= c < roles.Length1 ==>
      roles[r, c] == Repaint(Cell(r, c), old(roles[r, c]), true, end, Chain(cameFrom, rank, end), {})
  {
    assert forall v :: v in cameFrom ==> OnBoard(roles, cameFrom[v]) by {
      forall v | v in cameFrom ensures OnBoard(roles, cameFrom[v]) {
        assert cameFrom[v] in rank;
      }
    }
    assert OnBoard(roles, end);
    ghost var draws := ReconstructPath(cameFrom, end, roles, rank);
    Paint(roles, end, End);
  }

  /** The neighbour loop of depth_limited_search on `current`, short of the
      limit: try the listed neighbours in order until one search succeeds. */
  method TryAll(roles: array2<Role>, ghost g: Grid, nbrs: Adjacency, start: Cell, end: Cell, current: Cell,
                cameFrom: map<Cell, Cell>, limit: int, depth: int, ghost rank: map<Cell, nat>)
    returns (found: bool, cameFrom': map<Cell, Cell>, ghost rank': map<Cell, nat>)
    requires Refreshed(g, nbrs) && g.rows == roles.Length0 && g.cols == roles.Length1 && Listed(nbrs)
    requires forall c {:trigger Free(g, c)} :: Free(g, c) ==> roles[c.row, c.col] != Barrier
    requires DepthTree(nbrs, start, cameFrom, rank, limit) && current in rank && rank[current] == depth < limit
    modifies roles
    decreases limit - depth, 2, 0
    ensures Outcome(found, cameFrom') == Scan(nbrs, end, {start}, current, nbrs[current], 0, cameFrom, limit, depth)
    ensures DepthTree(nbrs, start, cameFrom', rank', limit) && Extends(cameFrom, cameFrom') && Kept(rank, rank')
    ensures found ==> end in rank' && current in Chain(cameFrom', rank', end)
    ensures forall c {:trigger Free(g, c)} :: Free(g, c) ==> roles[c.row, c.col] != Barrier
    ensures forall r, c {:trigger roles[r, c]} :: 0 <= r < roles.Length0 && 0 <= c < roles.Length1 ==>
      roles[r, c] == Repaint(Cell(r, c), old(roles[r, c]), found, end, Chain(cameFrom', rank', end),
                             cameFrom'.Keys - cameFrom.Keys)
  {
    var ns := nbrs[current];
    cameFrom', rank' := cameFrom, rank;
    var i := 0;
    while i < |ns|
      invariant i <= |ns|
      invariant DepthTree(nbrs, start, cameFrom', rank', limit) && Extends(cameFrom, cameFrom') && Kept(rank, rank')
      invariant Scan(nbrs, end, {start}, current, ns, i, cameFrom', limit, depth)
                == Scan(nbrs, end, {start}, current, ns, 0, cameFrom, limit, depth)
      invariant forall c {:trigger Free(g, c)} :: Free(g, c) ==> roles[c.row, c.col] != Barrier
      invariant forall r, c {:trigger roles[r, c]} :: 0 <= r < roles.Length0 && 0 <= c < roles.Length1 ==>
        roles[r, c] == Repaint(Cell(r, c), old(roles[r, c]), false, end, [], cameFrom'.Keys - cameFrom.Keys)
    {
      label Trying:
      var f, cf, rk := TryNeighbor(roles, g, nbrs, start, end, current, ns, i, cameFrom', limit, depth, rank');
      ExtendsTrans(cameFrom, cameFrom', cf);
      KeptTrans(rank, rank', rk);
      ghost var path := Chain(cf, rk, end);
      forall r, c | 0 <= r < roles.Length0 && 0 <= c < roles.Length1
        ensures roles[r, c] == Repaint(Cell(r, c), old(roles[r, c]), f, end, path, cf.Keys - cameFrom.Keys)
      {
        ScanPaints(Cell(r, c), old(roles[r, c]), old@Trying(roles[r, c]), roles[r, c], f, end, path,
                   cameFrom.Keys, cameFrom'.Keys, cf.Keys);
      }
      assert forall r, c {:trigger roles[r, c]} :: 0 <= r < roles.Length0 && 0 <= c < roles.Length1 ==>
        roles[r, c] == Repaint(Cell(r, c), old(roles[r, c]), f, end, path, cf.Keys - cameFrom.Keys);
      if f {
        return true, cf, rk;
      }
      cameFrom', rank' := cf, rk;
      i := i + 1;
    }
    found := false;
  }

  /** depth_limited_search with the start added to the guard, on the lists
      of the grid: it computes what `Search` describes, keeps the came-from
      map a tree of depths rooted at the start, and paints as `Repaint` says;
      on success the path back from the goal runs through `current`. */
  method DepthLimitedSearch(roles: array2<Role>, ghost g: Grid, nbrs: Adjacency, start: Cell, end: Cell, current: Cell,
                            cameFrom: map<Cell, Cell>, limit: int, depth: int, ghost rank: map<Cell, nat>)
    returns (found: bool, cameFrom': map<Cell, Cell>, ghost rank': map<Cell, nat>)
    requires Refreshed(g, nbrs) && g.rows == roles.Length0 && g.cols == roles.Length1 && Listed(nbrs)
    requires forall c {:trigger Free(g, c)} :: Free(g, c) ==> roles[c.row, c.col] != Barrier
    requires DepthTree(nbrs, start, cameFrom, rank, limit) && current in rank && rank[current] == depth
    modifies roles
    decreases limit - depth, 3, 0
    ensures Outcome(found, cameFrom') == Search(nbrs, end, {start}, current, cameFrom, limit, depth)
    ensures DepthTree(nbrs, start, cameFrom', rank', limit) && Extends(cameFrom, cameFrom') && Kept(rank, rank')
    ensures found ==> end in rank' && (current == end || current in Chain(cameFrom', rank', end))
    ensures forall c {:trigger Free(g, c)} :: Free(g, c) ==> roles[c.row, c.col] != Barrier
    ensures forall r, c {:trigger roles[r, c]} :: 0 <= r < roles.Length0 && 0 <= c < roles.Length1 ==>
      roles[r, c] == Repaint(Cell(r, c), old(roles[r, c]), found, end, Chain(cameFrom', rank', end),
                             cameFrom'.Keys - cameFrom.Keys)
  {
    if current == end {
      ReachGoal(roles, g, nbrs, start, end, cameFrom, limit, rank);
      assert cameFrom.Keys - cameFrom.Keys == {};
      return true, cameFrom, rank;
    }
    if depth >= limit {
      return false, cameFrom, rank;
    }
    found, cameFrom', rank' := TryAll(roles, g, nbrs, start, end, current, cameFrom, limit, depth, rank);
  }

  /** The outermost depth_limited_search call: from the start, with an
      empty predecessor map and depth 0. */
  method SearchFrom(roles: array2<Role>, ghost g: Grid, nbrs: Adjacency, start: Cell, end: Cell, limit: int)
    returns (found: bool, cameFrom: map<Cell, Cell>, ghost rank: map<Cell, nat>)
    requires Refreshed(g, nbrs) && g.rows == roles.Length0 && g.cols == roles.Length1 && Listed(nbrs) && start in nbrs
    requires forall c {:trigger Free(g, c)} :: Free(g, c) ==> roles[c.row, c.col] != Barrier
    modifies roles
    ensures Outcome(found, cameFrom) == Search(nbrs, end, {start}, start, map[], limit, 0)
    ensures DepthTree(nbrs, start, cameFrom, rank, limit) && (found ==> end in rank)
    ensures forall r, c {:trigger roles[r, c]} :: 0 <= r < roles.Length0 && 0 <= c < roles.Length1 ==>
      roles[r, c] == Repaint(Cell(r, c), old(roles[r, c]), found, end, Chain(cameFrom, rank, end), cameFrom.Keys)
  {
    found, cameFrom, rank := DepthLimitedSearch(roles, g, nbrs, start, end, start, map[], limit, 0, map[start := 0]);
  }

  /** What the outermost depth_limited_search call yields, read off its
      predecessor map: success means the start is the goal or the goal got
      an entry, every entry is connected to the start, and on success the
      chain back from the goal is a walk of at most `limit` steps. */
  lemma DlsOutcome(g: Grid, nbrs: Adjacency, start: Cell, end: Cell, limit: int,
                   found: bool, cameFrom: map<Cell, Cell>, rank: map<Cell, nat>)
    requires Refreshed(g, nbrs) && Listed(nbrs) && start in nbrs
    requires Outcome(found, cameFrom) == Search(nbrs, end, {start}, start, map[], limit, 0)
    requires DepthTree(nbrs, start, cameFrom, rank, limit)
    requires found ==> end in rank
    ensures found <==> start == end || end in cameFrom
    ensures start !in cameFrom
    ensures limit <= 0 ==> (found <==> start == end)
    ensures forall c :: c in cameFrom ==> Connected(g, start, c)
    ensures found ==> WalkFromTo(g, [end] + Chain(cameFrom, rank, end), start, end)
                      && Distinct([end] + Chain(cameFrom, rank, end))
    ensures found && start != end ==> 0 < |Chain(cameFrom, rank, end)| <= limit
  {
    SearchGrows(nbrs, end, {start}, start, map[], limit, 0);
    if limit <= 0 {
      DepthCutoff(nbrs, end, {start}, start, map[], limit, 0);
    }
    TreeConnected(g, nbrs, start, cameFrom, rank);
    if found {
      TreePath(g, nbrs, start, cameFrom, rank, end);
      ChainLength(nbrs, start, cameFrom, rank, end);
    }
  }

  /** dls: refresh the neighbour lists, run depth_limited_search from the
      start with an empty came-from map (here with the start in the guard),
      then paint the start and the goal as end.  It succeeds exactly when the
      start is the goal or the goal was recorded; every recorded cell is
      connected to the start; on success the painted path leads from the
      start to the goal without repeating a cell and has at most `limit`
      steps. */
  method Dls(roles: array2<Role>, start: Cell, end: Cell, limit: int)
    returns (found: bool, ghost nbrs: Adjacency, ghost cameFrom: map<Cell, Cell>, ghost path: seq<Cell>)
    requires OnBoard(roles, start) && roles[start.row, start.col] != Barrier
    requires OnBoard(roles, end) && roles[end.row, end.col] != Barrier
    modifies roles
    ensures Refreshed(old(GridOf(roles)), nbrs) && Listed(nbrs) && start in nbrs
    ensures Outcome(found, cameFrom) == Search(nbrs, end, {start}, start, map[], limit, 0)
    ensures found <==> start == end || end in cameFrom
    ensures start !in cameFrom
    ensures limit <= 0 ==> (found <==> start == end)
    ensures forall c :: c in cameFrom ==> Connected(old(GridOf(roles)), start, c)
    ensures found ==> WalkFromTo(old(GridOf(roles)), [end] + path, start, end) && Distinct([end] + path)
    ensures found && start != end ==> 0 < |path| <= limit
    ensures forall r, c {:trigger roles[r, c]} :: 0 <= r < roles.Length0 && 0 <= c < roles.Length1 ==>
      roles[r, c] == if Cell(r, c) == start || Cell(r, c) == end then End
                     else Repaint(Cell(r, c), old(roles[r, c]), found, end, path, cameFrom.Keys)
  {
    var g := GridOf(roles);
    assert g == old(GridOf(roles));
    var lists := UpdateNeighbors(g);
    nbrs := lists;
    RefreshedListed(g, lists);
    assert InBounds(g, start) && InBounds(g, end);
    var cf;
    ghost var rank';
    found, cf, rank' := SearchFrom(roles, g, lists, start, end, limit);
    cameFrom := cf;
    DlsOutcome(g, lists, start, end, limit, found, cf, rank');
    path := Chain(cf, rank', end);
    Paint(roles, start, End);
    Paint(roles, end, End);
  }
}
