/** Score maps shared by the cost-aware searches (astar's g scores, ucs's
    costs): a score per discovered cell, a predecessor per scored cell, and
    the bookkeeping that shows the searches stop. */
module Scores {
  import opened SearchGrid
  import opened PathReconstruction

  /** Scores and the came-from map: the start scores 0 and has no
      predecessor, every scored cell other than the start has a predecessor
      it is a listed neighbour of, scoring less, and a score never exceeds
      the number of scored cells. */
  ghost predicate Scored(nbrs: Adjacency, start: Cell, gs: map<Cell, nat>, cameFrom: map<Cell, Cell>) {
    && (forall v :: v in gs ==> v in nbrs)
    && start in gs && gs[start] == 0
    && (forall v :: v in gs ==> gs[v] < |gs.Keys|)
    && PredTree(nbrs, start, cameFrom, gs)
  }

  /** `t` is a better score for `n` than the one it has (none counts as
      infinite). */
  predicate Lowers(gs: map<Cell, nat>, n: Cell, t: int) {
    n !in gs || t < gs[n]
  }

  /** Scores only decreased, and the scored cells did not shrink. */
  ghost predicate Lowered(gs: map<Cell, nat>, gs': map<Cell, nat>) {
    forall v :: v in gs ==> v in gs' && gs'[v] <= gs[v]
  }

  /** A new score no larger than the number of scored cells, and better than
      the one it replaces, stays below the number of scored cells. */
  lemma ScoreBoundStep(gs: map<Cell, nat>, n: Cell, t: nat, gs': map<Cell, nat>)
    requires forall v :: v in gs ==> gs[v] < |gs.Keys|
    requires t <= |gs.Keys| && Lowers(gs, n, t) && gs' == gs[n := t]
    ensures forall v :: v in gs' ==> gs'[v] < |gs'.Keys|
  {
    assert gs'.Keys == gs.Keys + {n};
    if n !in gs {
      assert |gs'.Keys| == |gs.Keys| + 1;
    }
  }

  /** Lowering the score of `n` to above the score of `current` and
      recording `current` as its predecessor keeps the map ranked by score. */
  lemma RankedStep(cameFrom: map<Cell, Cell>, gs: map<Cell, nat>, current: Cell, n: Cell, t: nat)
    requires Ranked(cameFrom, gs)
    requires current in gs && n != current && gs[current] < t && Lowers(gs, n, t)
    ensures Ranked(cameFrom[n := current], gs[n := t])
  {
    var gs', cameFrom' := gs[n := t], cameFrom[n := current];
    forall v | v in cameFrom' ensures v in gs' && cameFrom'[v] in gs' && gs'[cameFrom'[v]] < gs'[v] {
      if v != n {
        assert v in cameFrom && cameFrom'[v] == cameFrom[v];
      }
    }
  }

  /** Recording a strictly better score for `n`, reached through `current`,
      keeps the scores consistent. */
  lemma ScoredStep(nbrs: Adjacency, start: Cell, gs: map<Cell, nat>, cameFrom: map<Cell, Cell>,
                   current: Cell, n: Cell, t: nat)
    requires Scored(nbrs, start, gs, cameFrom)
    requires current in gs && Step(nbrs, current, n) && n in nbrs && n != current
    requires gs[current] < t <= |gs.Keys| && Lowers(gs, n, t)
    ensures Scored(nbrs, start, gs[n := t], cameFrom[n := current])
  {
    var gs' := gs[n := t];
    assert n != start;
    ScoreBoundStep(gs, n, t, gs');
    RankedStep(cameFrom, gs, current, n, t);
  }

  /** The pairs (cell, k) with k below the cell's score (below the number of
      cells when it has none).  Every improvement of a score removes one. */
  function Budget(cells: set<Cell>, gs: map<Cell, nat>): set<(Cell, int)> {
    set v, k | v in cells && 0 <= k < |cells| && (v !in gs || k < gs[v]) :: (v, k)
  }

  lemma SubsetSize(a: set<Cell>, b: set<Cell>)
    requires a <= b
    ensures |a| <= |b|
  {
    assert b == a + (b - a);
  }

  /** Scores that only decreased leave a budget no larger ... */
  lemma BudgetMonotone(cells: set<Cell>, gs0: map<Cell, nat>, gs: map<Cell, nat>)
    requires Lowered(gs0, gs)
    ensures Budget(cells, gs) <= Budget(cells, gs0)
  {
  }

  /** ... and a strictly smaller one once some cell got a new or lower score
      that is below the number of cells. */
  lemma BudgetShrinks(cells: set<Cell>, gs0: map<Cell, nat>, gs: map<Cell, nat>, w: Cell)
    requires Lowered(gs0, gs) && w in cells && w in gs && (w !in gs0 || gs[w] < gs0[w])
    requires gs.Keys <= cells && forall v :: v in gs ==> gs[v] < |gs.Keys|
    ensures Budget(cells, gs) < Budget(cells, gs0)
  {
    SubsetSize(gs.Keys, cells);
    BudgetMonotone(cells, gs0, gs);
    assert (w, gs[w] as int) in Budget(cells, gs0) - Budget(cells, gs);
  }
}
