/** ucs: uniform-cost search over a priority queue of (cost, cell) pairs with
    lazy deletion: a cell popped again after it was expanded is skipped. */
module UniformCost {
  import opened SearchGrid
  import opened PathReconstruction
  import opened Scores

  /** An entry of the priority queue: the cost it was pushed with and the cell. */
  datatype Pending = Pending(cost: nat, cell: Cell)

  /** pq.get(): remove and return an entry of least cost.  Among entries of
      equal cost the queue compares the cells themselves, an order that is not
      part of this model: any cheapest entry may come out. */
  method PopCheapest(pq: seq<Pending>) returns (e: Pending, rest: seq<Pending>, ghost i: nat)
    requires |pq| > 0
    ensures i < |pq| && e == pq[i] && rest == pq[..i] + pq[i + 1..]
    ensures forall x :: x in pq ==> e.cost <= x.cost
  {
    var m := 0;
    var j := 1;
    while j < |pq|
      invariant 0 <= m < j <= |pq|
      invariant forall k :: 0 <= k < j ==> pq[m].cost <= pq[k].cost
    {
      if pq[j].cost < pq[m].cost {
        m := j;
      }
      j := j + 1;
    }
    var k :| 0 <= k < |pq| && pq[k].cost == pq[m].cost;
    e, rest, i := pq[k], pq[..k] + pq[k + 1..], k;
  }

  /** Every queued entry is for a scored cell and carries a cost no lower than
      the cell's cost now, no lower than the last cost popped, and below the
      number of scored cells, which the last cost popped is below too. */
  ghost predicate Keyed(pq: seq<Pending>, cost: map<Cell, nat>, last: int) {
    && last < |cost.Keys|
    && forall i :: 0 <= i < |pq| ==>
         pq[i].cell in cost && cost[pq[i].cell] <= pq[i].cost && last <= pq[i].cost < |cost.Keys|
  }

  /** What the main loop of ucs keeps about the expanded cells: they are
      scored at no more than the last cost popped, every other scored cell
      still has an entry under its cost, every listed neighbour of an
      expanded cell (but those in `except`) is scored at most one more than
      it, and the cells painted closed were expanded. */
  ghost predicate Expanded(nbrs: Adjacency, end: Cell, pq: seq<Pending>, cost: map<Cell, nat>,
                           visited: set<Cell>, closed: set<Cell>, last: int, except: set<Cell>)
  {
    && closed <= visited <= cost.Keys
    && (forall v :: v in visited ==> cost[v] <= last)
    && (forall v :: v in cost && v !in visited ==> Pending(cost[v], v) in pq)
    && (forall u, n :: u in visited && u !in except && Step(nbrs, u, n) ==> n in cost && cost[n] <= cost[u] + 1)
  }

  /** Every recorded predecessor was expanded and costs exactly one less. */
  ghost predicate UnitTree(cost: map<Cell, nat>, cameFrom: map<Cell, Cell>, visited: set<Cell>) {
    forall v :: v in cameFrom ==>
      v in cost && cameFrom[v] in visited && cameFrom[v] in cost && cost[v] == cost[cameFrom[v]] + 1
  }

  /** Taking a cheapest entry off the queue: what is left is keyed against its
      cost, which is no lower than the last one, every scored cell not
      expanded, other than the popped one, still has an entry under its
      cost, and a cell not expanded yet comes out under its cost. */
  lemma PopKeyed(pq: seq<Pending>, cost: map<Cell, nat>, last: int, visited: set<Cell>, i: nat)
    requires Keyed(pq, cost, last) && i < |pq|
    requires forall x :: x in pq ==> pq[i].cost <= x.cost
    requires forall v :: v in cost && v !in visited ==> Pending(cost[v], v) in pq
    ensures Keyed(pq[..i] + pq[i + 1..], cost, pq[i].cost) && last <= pq[i].cost
    ensures pq[i].cell in cost && cost[pq[i].cell] <= pq[i].cost
    ensures pq[i].cell !in visited ==> cost[pq[i].cell] == pq[i].cost
    ensures forall v :: v in cost && v !in visited && v != pq[i].cell ==> Pending(cost[v], v) in pq[..i] + pq[i + 1..]
  {
    var r := pq[..i] + pq[i + 1..];
    assert forall k :: 0 <= k < |r| ==> r[k] == if k < i then pq[k] else pq[k + 1];
    forall k | 0 <= k < |r| ensures pq[i].cost <= r[k].cost {
      assert r[k] in pq;
    }
    forall v | v in cost && v !in visited && v != pq[i].cell ensures Pending(cost[v], v) in r {
      var k :| 0 <= k < |pq| && pq[k] == Pending(cost[v], v);
      if k < i {
        assert r[k] == pq[k];
      } else {
        assert r[k - 1] == pq[k];
      }
    }
  }

  /** After the pop, the expanded cells keep their facts against the rest of
      the queue and the popped cost, and so does the popped cell once added to
      them, except for its neighbours. */
  lemma PopExpanded(nbrs: Adjacency, end: Cell, pq: seq<Pending>, cost: map<Cell, nat>, visited: set<Cell>,
                    closed: set<Cell>, last: int, i: nat)
    requires Keyed(pq, cost, last) && i < |pq| && Expanded(nbrs, end, pq, cost, visited, closed, last, {})
    requires forall x :: x in pq ==> pq[i].cost <= x.cost
    ensures Keyed(pq[..i] + pq[i + 1..], cost, pq[i].cost) && last <= pq[i].cost
    ensures pq[i].cell !in visited ==> cost[pq[i].cell] == pq[i].cost
    ensures pq[i].cell in visited ==>
      Expanded(nbrs, end, pq[..i] + pq[i + 1..], cost, visited, closed, pq[i].cost, {})
    ensures pq[i].cell !in visited ==>
      Expanded(nbrs, end, pq[..i] + pq[i + 1..], cost, visited + {pq[i].cell}, closed, pq[i].cost, {pq[i].cell})
  {
    PopKeyed(pq, cost, last, visited, i);
  }

  /** One pass of the neighbour loop of ucs: when the popped cost plus one
      beats the neighbour's cost, record it (cost, predecessor), push the pair
      and paint the neighbour open; then paint `current` closed unless it is
      the start. */
  method UcsRelax(roles: array2<Role>, start: Cell, current: Cell, cc: nat, n: Cell,
                  pq: seq<Pending>, cost: map<Cell, nat>, cameFrom: map<Cell, Cell>)
    returns (pq': seq<Pending>, cost': map<Cell, nat>, cameFrom': map<Cell, Cell>)
    requires OnBoard(roles, n) && OnBoard(roles, current) && n != current
    modifies roles
    ensures Lowers(cost, n, cc + 1) ==>
      cost' == cost[n := cc + 1] && cameFrom' == cameFrom[n := current] && pq' == pq + [Pending(cc + 1, n)]
    ensures !Lowers(cost, n, cc + 1) ==> cost' == cost && cameFrom' == cameFrom && pq' == pq
    ensures forall r, c {:trigger roles[r, c]} :: 0 <= r < roles.Length0 && 0 <= c < roles.Length1 ==>
      roles[r, c] == if Cell(r, c) == n && Lowers(cost, n, cc + 1) then Open
                     else if Cell(r, c) == current && current != start then Closed
                     else old(roles[r, c])
  {
    pq', cost', cameFrom' := pq, cost, cameFrom;
    var newCost := cc + 1;
    if n !in cost || newCost < cost[n] {
      cost' := cost[n := newCost];
      cameFrom' := cameFrom[n := current];
      pq' := pq + [Pending(newCost, n)];
      Paint(roles, n, Open);
    }
    if current != start {
      Paint(roles, current, Closed);
    }
  }

  /** One pass of the neighbour loop keeps the costs consistent and the queue
      keyed against the popped cost, and leaves the neighbour scored. */
  lemma UcsRelaxKeeps(nbrs: Adjacency, start: Cell, current: Cell, cc: nat, n: Cell,
                      pq: seq<Pending>, cost: map<Cell, nat>, cameFrom: map<Cell, Cell>,
                      pq': seq<Pending>, cost': map<Cell, nat>, cameFrom': map<Cell, Cell>)
    requires Scored(nbrs, start, cost, cameFrom) && Keyed(pq, cost, cc)
    requires current in cost && cost[current] <= cc && Step(nbrs, current, n) && n in nbrs && n != current
    requires Lowers(cost, n, cc + 1) ==>
      cost' == cost[n := cc + 1] && cameFrom' == cameFrom[n := current] && pq' == pq + [Pending(cc + 1, n)]
    requires !Lowers(cost, n, cc + 1) ==> cost' == cost && cameFrom' == cameFrom && pq' == pq
    ensures Scored(nbrs, start, cost', cameFrom') && Keyed(pq', cost', cc) && n in cost'
  {
    if Lowers(cost, n, cc + 1) {
      ScoredStep(nbrs, start, cost, cameFrom, current, n, cc + 1);
      assert cost.Keys <= cost'.Keys;
      SubsetSize(cost.Keys, cost'.Keys);
      forall k | 0 <= k < |pq'|
        ensures pq'[k].cell in cost' && cost'[pq'[k].cell] <= pq'[k].cost && cc <= pq'[k].cost < |cost'.Keys|
      {
        if k < |pq| {
          assert pq'[k] == pq[k];
        }
      }
    }
  }

  /** What the neighbour loop of ucs keeps after relaxing `ns[..i]`, relative
      to the costs and queue it started from: lowered costs, `current` scored
      at no more than the popped cost, the queue only appended to, every cell
      whose cost is new or changed among the `improved` ones, each of which is
      queued under its cost, was not expanded and is not the start, every
      relaxed neighbour scored at most one more than the popped cost, and,
      unless some cost changed (as witnessed by `w`), nothing queued at all. */
  ghost predicate UcsRelaxed(start: Cell, current: Cell, cc: int, ns: seq<Cell>, i: int, visited: set<Cell>,
                             pq: seq<Pending>, cost: map<Cell, nat>,
                             pq': seq<Pending>, cost': map<Cell, nat>, improved: set<Cell>, changed: bool, w: Cell)
  {
    && 0 <= i <= |ns|
    && Lowered(cost, cost') && current in cost' && cost'[current] <= cc
    && pq <= pq'
    && (forall v :: v in cost' && v !in improved ==> v in cost && cost'[v] == cost[v])
    && (forall v :: v in improved ==> v in cost' && Pending(cost'[v], v) in pq' && v !in visited && v != start)
    && (forall k :: 0 <= k < i ==> ns[k] in cost' && cost'[ns[k]] <= cc + 1)
    && (changed ==> w in cost' && (w !in cost || cost'[w] < cost[w]))
    && (!changed ==> cost' == cost && pq' == pq)
  }

  /** Relaxing `n` lowers costs only, and a lowered cost witnesses a change. */
  lemma UcsRelaxLowers(cost: map<Cell, nat>, cost': map<Cell, nat>, n: Cell, t: nat, cost'': map<Cell, nat>,
                       changed: bool, w: Cell)
    requires Lowered(cost, cost')
    requires Lowers(cost', n, t) ==> cost'' == cost'[n := t]
    requires !Lowers(cost', n, t) ==> cost'' == cost'
    requires changed ==> w in cost' && (w !in cost || cost'[w] < cost[w])
    ensures Lowered(cost, cost'')
    ensures var changed', w' := changed || Lowers(cost', n, t), if Lowers(cost', n, t) then n else w;
      changed' ==> w' in cost'' && (w' !in cost || cost''[w'] < cost[w'])
  {
  }

  /** Relaxing `n` opens it exactly when its cost improves; an expanded cell
      or the start never improves, since their costs are at most the popped
      one. */
  lemma UcsRelaxOpens(start: Cell, cc: int, visited: set<Cell>, cost: map<Cell, nat>,
                      pq': seq<Pending>, cost': map<Cell, nat>, improved: set<Cell>, n: Cell,
                      pq'': seq<Pending>, cost'': map<Cell, nat>)
    requires visited <= cost.Keys && (forall v :: v in visited ==> cost[v] <= cc) && Lowered(cost, cost')
    requires start in cost' && cost'[start] == 0 && 0 <= cc
    requires forall v :: v in cost' && v !in improved ==> v in cost && cost'[v] == cost[v]
    requires forall v :: v in improved ==> v in cost' && Pending(cost'[v], v) in pq' && v !in visited && v != start
    requires Lowers(cost', n, cc + 1) ==> cost'' == cost'[n := cc + 1] && pq'' == pq' + [Pending(cc + 1, n)]
    requires !Lowers(cost', n, cc + 1) ==> cost'' == cost' && pq'' == pq'
    ensures var improved' := if Lowers(cost', n, cc + 1) then improved + {n} else improved;
      && (forall v :: v in cost'' && v !in improved' ==> v in cost && cost''[v] == cost[v])
      && (forall v :: v in improved' ==> v in cost'' && Pending(cost''[v], v) in pq'' && v !in visited && v != start)
  {
    if Lowers(cost', n, cc + 1) {
      assert n !in visited && n != start;
    }
  }

  /** Relaxing the next neighbour keeps `UcsRelaxed`. */
  lemma UcsRelaxedStep(start: Cell, current: Cell, cc: int, ns: seq<Cell>, i: int, visited: set<Cell>,
                       pq: seq<Pending>, cost: map<Cell, nat>,
                       pq': seq<Pending>, cost': map<Cell, nat>, improved: set<Cell>, changed: bool, w: Cell,
                       pq'': seq<Pending>, cost'': map<Cell, nat>)
    requires UcsRelaxed(start, current, cc, ns, i, visited, pq, cost, pq', cost', improved, changed, w)
    requires i < |ns| && current !in ns && 0 <= cc && start in cost' && cost'[start] == 0
    requires visited <= cost.Keys && forall v :: v in visited ==> cost[v] <= cc
    requires Lowers(cost', ns[i], cc + 1) ==> cost'' == cost'[ns[i] := cc + 1] && pq'' == pq' + [Pending(cc + 1, ns[i])]
    requires !Lowers(cost', ns[i], cc + 1) ==> cost'' == cost' && pq'' == pq'
    ensures UcsRelaxed(start, current, cc, ns, i + 1, visited, pq, cost, pq'', cost'',
                       if Lowers(cost', ns[i], cc + 1) then improved + {ns[i]} else improved,
                       changed || Lowers(cost', ns[i], cc + 1), if Lowers(cost', ns[i], cc + 1) then ns[i] else w)
  {
    var n := ns[i];
    UcsRelaxLowers(cost, cost', n, cc + 1, cost'', changed, w);
    UcsRelaxOpens(start, cc, visited, cost, pq', cost', improved, n, pq'', cost'');
    forall k | 0 <= k < i + 1 ensures ns[k] in cost'' && cost''[ns[k]] <= cc + 1 {
      if k < i {
        assert ns[k] in cost';
      }
    }
  }

  /** Relaxing `n` from an expanded `current` popped at its cost keeps every
      predecessor expanded and one cheaper: an expanded cell never improves. */
  lemma UcsUnitStep(current: Cell, cc: nat, n: Cell, visited: set<Cell>,
                    cost: map<Cell, nat>, cameFrom: map<Cell, Cell>, cost': map<Cell, nat>, cameFrom': map<Cell, Cell>)
    requires UnitTree(cost, cameFrom, visited)
    requires current in visited && current in cost && cost[current] == cc && n != current
    requires visited <= cost.Keys && forall v :: v in visited ==> cost[v] <= cc
    requires Lowers(cost, n, cc + 1) ==> cost' == cost[n := cc + 1] && cameFrom' == cameFrom[n := current]
    requires !Lowers(cost, n, cc + 1) ==> cost' == cost && cameFrom' == cameFrom
    ensures UnitTree(cost', cameFrom', visited)
  {
    if Lowers(cost, n, cc + 1) {
      assert n !in visited;
    }
  }

  /** The roles after one more pass of the neighbour loop: `n` is open if it
      improved, `current` closed unless it is the start. */
  lemma RelaxPaints(x: Cell, start: Cell, current: Cell, n: Cell, lowers: bool, improved: set<Cell>, passed: bool,
                    was: Role, before: Role, after: Role)
    requires n != current && current !in improved
    requires before == if x in improved then Open else if x == current && current != start && passed then Closed else was
    requires after == if x == n && lowers then Open else if x == current && current != start then Closed else before
    ensures after == if x in (if lowers then improved + {n} else improved) then Open
                     else if x == current && current != start then Closed
                     else was
  {
  }

  /** The next pass of the neighbour loop of ucs, with the facts it keeps. */
  method UcsRelaxNext(roles: array2<Role>, nbrs: Adjacency, start: Cell, current: Cell, cc: nat,
                      ns: seq<Cell>, i: int, ghost visited: set<Cell>, ghost pq: seq<Pending>, ghost cost: map<Cell, nat>,
                      pq': seq<Pending>, cost': map<Cell, nat>, cameFrom': map<Cell, Cell>,
                      ghost improved: set<Cell>, ghost changed: bool, ghost w: Cell)
    returns (pq'': seq<Pending>, cost'': map<Cell, nat>, cameFrom'': map<Cell, Cell>)
    requires 0 <= i < |ns| && current !in ns && Step(nbrs, current, ns[i]) && ns[i] in nbrs
    requires OnBoard(roles, ns[i]) && OnBoard(roles, current)
    requires Scored(nbrs, start, cost', cameFrom') && Keyed(pq', cost', cc)
    requires UcsRelaxed(start, current, cc, ns, i, visited, pq, cost, pq', cost', improved, changed, w)
    requires visited <= cost.Keys && forall v :: v in visited ==> cost[v] <= cc
    requires UnitTree(cost', cameFrom', visited) && current in visited && cost[current] == cc
    modifies roles
    ensures Scored(nbrs, start, cost'', cameFrom'') && Keyed(pq'', cost'', cc) && UnitTree(cost'', cameFrom'', visited)
    ensures UcsRelaxed(start, current, cc, ns, i + 1, visited, pq, cost, pq'', cost'',
                       if Lowers(cost', ns[i], cc + 1) then improved + {ns[i]} else improved,
                       changed || Lowers(cost', ns[i], cc + 1), if Lowers(cost', ns[i], cc + 1) then ns[i] else w)
    ensures forall r, c {:trigger roles[r, c]} :: 0 <= r < roles.Length0 && 0 <= c < roles.Length1 ==>
      roles[r, c] == if Cell(r, c) == ns[i] && Lowers(cost', ns[i], cc + 1) then Open
                     else if Cell(r, c) == current && current != start then Closed
                     else old(roles[r, c])
  {
    var n := ns[i];
    pq'', cost'', cameFrom'' := UcsRelax(roles, start, current, cc, n, pq', cost', cameFrom');
    UcsRelaxKeeps(nbrs, start, current, cc, n, pq', cost', cameFrom', pq'', cost'', cameFrom'');
    assert current !in improved && cost'[current] == cc;
    UcsUnitStep(current, cc, n, visited, cost', cameFrom', cost'', cameFrom'');
    UcsRelaxedStep(start, current, cc, ns, i, visited, pq, cost, pq', cost', improved, changed, w, pq'', cost'');
  }

  /** The neighbour loop of ucs for a cell `current` popped with cost `cc`:
      every listed neighbour is relaxed in turn. */
  method UcsRelaxAll(roles: array2<Role>, nbrs: Adjacency, start: Cell, current: Cell, cc: nat, ns: seq<Cell>,
                     pq: seq<Pending>, cost: map<Cell, nat>, cameFrom: map<Cell, Cell>, ghost visited: set<Cell>)
    returns (pq': seq<Pending>, cost': map<Cell, nat>, cameFrom': map<Cell, Cell>,
             ghost improved: set<Cell>, ghost changed: bool, ghost w: Cell)
    requires current !in ns && forall n :: n in ns ==> n in nbrs && Step(nbrs, current, n) && OnBoard(roles, n)
    requires OnBoard(roles, current)
    requires Scored(nbrs, start, cost, cameFrom) && Keyed(pq, cost, cc)
    requires current in visited && visited <= cost.Keys && forall v :: v in visited ==> cost[v] <= cc
    requires UnitTree(cost, cameFrom, visited) && cost[current] == cc
    modifies roles
    ensures Scored(nbrs, start, cost', cameFrom') && Keyed(pq', cost', cc) && UnitTree(cost', cameFrom', visited)
    ensures UcsRelaxed(start, current, cc, ns, |ns|, visited, pq, cost, pq', cost', improved, changed, w)
    ensures forall r, c {:trigger roles[r, c]} :: 0 <= r < roles.Length0 && 0 <= c < roles.Length1 ==>
      roles[r, c] == if Cell(r, c) in improved then Open
                     else if Cell(r, c) == current && current != start && |ns| > 0 then Closed
                     else old(roles[r, c])
  {
    pq', cost', cameFrom' := pq, cost, cameFrom;
    improved := {};
    changed, w := false, current;
    var i := 0;
    while i < |ns|
      invariant Scored(nbrs, start, cost', cameFrom') && Keyed(pq', cost', cc) && UnitTree(cost', cameFrom', visited)
      invariant UcsRelaxed(start, current, cc, ns, i, visited, pq, cost, pq', cost', improved, changed, w)
      invariant forall r, c {:trigger roles[r, c]} :: 0 <= r < roles.Length0 && 0 <= c < roles.Length1 ==>
        roles[r, c] == if Cell(r, c) in improved then Open
                       else if Cell(r, c) == current && current != start && i > 0 then Closed
                       else old(roles[r, c])
    {
      var n := ns[i];
      label Relaxing:
      var pq'', cost'', cameFrom'' :=
        UcsRelaxNext(roles, nbrs, start, current, cc, ns, i, visited, pq, cost, pq', cost', cameFrom', improved, changed, w);
      ghost var improved' := if Lowers(cost', n, cc + 1) then improved + {n} else improved;
      forall r, c | 0 <= r < roles.Length0 && 0 <= c < roles.Length1
        ensures roles[r, c] == if Cell(r, c) in improved' then Open
                               else if Cell(r, c) == current && current != start then Closed
                               else old(roles[r, c])
      {
        RelaxPaints(Cell(r, c), start, current, n, Lowers(cost', n, cc + 1), improved, i > 0,
                    old(roles[r, c]), old@Relaxing(roles[r, c]), roles[r, c]);
      }
      if Lowers(cost', n, cc + 1) {
        changed, w := true, n;
      }
      improved := improved';
      pq', cost', cameFrom' := pq'', cost'', cameFrom'';
      i := i + 1;
    }
  }

  /** The neighbour loop of ucs for a cell `current` popped with cost `cc`.
      Costs only decrease, every neighbour ends up scored at most one more
      than `cc`, the cells whose cost is new or changed are queued under
      their new cost and painted open, every predecessor stays expanded and
      one cheaper,
      `current` is painted closed unless it is the start or has no
      neighbour, and the budget shrinks unless nothing improved, in which
      case nothing was queued. */
  method UcsExpand(roles: array2<Role>, ghost grid: Grid, nbrs: Adjacency, start: Cell, current: Cell, cc: nat,
                   pq: seq<Pending>, cost: map<Cell, nat>, cameFrom: map<Cell, Cell>, ghost visited: set<Cell>)
    returns (pq': seq<Pending>, cost': map<Cell, nat>, cameFrom': map<Cell, Cell>, ghost improved: set<Cell>)
    requires Refreshed(grid, nbrs) && grid.rows == roles.Length0 && grid.cols == roles.Length1
    requires Scored(nbrs, start, cost, cameFrom) && Keyed(pq, cost, cc)
    requires current in visited && visited <= cost.Keys && forall v :: v in visited ==> cost[v] <= cc
    requires UnitTree(cost, cameFrom, visited) && cost[current] == cc
    modifies roles
    ensures Scored(nbrs, start, cost', cameFrom') && Keyed(pq', cost', cc) && UnitTree(cost', cameFrom', visited)
    ensures Lowered(cost, cost') && pq <= pq'
    ensures forall v :: v in cost' && v !in improved ==> v in cost && cost'[v] == cost[v]
    ensures forall v :: v in improved ==> v in cost' && Pending(cost'[v], v) in pq' && v !in visited && v != start
    ensures forall n :: n in nbrs[current] ==> n in cost' && cost'[n] <= cc + 1
    ensures Budget(nbrs.Keys, cost') <= Budget(nbrs.Keys, cost)
    ensures cost' != cost ==> Budget(nbrs.Keys, cost') < Budget(nbrs.Keys, cost)
    ensures cost' == cost ==> pq' == pq
    ensures forall r, c {:trigger roles[r, c]} :: 0 <= r < roles.Length0 && 0 <= c < roles.Length1 ==>
      roles[r, c] == if Cell(r, c) in improved then Open
                     else if Cell(r, c) == current && current != start && |nbrs[current]| > 0 then Closed
                     else old(roles[r, c])
  {
    var ns := nbrs[current];
    ListedAreFree(grid, nbrs, current);
    assert current !in ns by {
      assert nbrs[current] == Neighbors(grid, current);
    }
    assert forall n :: n in ns ==> n in nbrs && Step(nbrs, current, n) && OnBoard(roles, n);
    ghost var changed, w;
    pq', cost', cameFrom', improved, changed, w :=
      UcsRelaxAll(roles, nbrs, start, current, cc, ns, pq, cost, cameFrom, visited);
    BudgetMonotone(nbrs.Keys, cost, cost');
    if changed {
      BudgetShrinks(nbrs.Keys, cost, cost', w);
    }
  }

  /** After expanding `current`, the expanded cells (closed ones among them)
      keep their facts against the new costs and queue, now with no exception. */
  lemma UcsExpandedStep(nbrs: Adjacency, end: Cell, current: Cell, cc: int, visited: set<Cell>,
                        closed: set<Cell>, closed': set<Cell>,
                        pq: seq<Pending>, cost: map<Cell, nat>, pq': seq<Pending>, cost': map<Cell, nat>,
                        improved: set<Cell>)
    requires Expanded(nbrs, end, pq, cost, visited, closed, cc, {current})
    requires current in visited && current in nbrs && closed' <= closed + {current} && cost[current] == cc
    requires Lowered(cost, cost') && pq <= pq'
    requires forall v :: v in cost' && v !in improved ==> v in cost && cost'[v] == cost[v]
    requires forall v :: v in improved ==> v in cost' && Pending(cost'[v], v) in pq' && v !in visited
    requires forall n :: n in nbrs[current] ==> n in cost' && cost'[n] <= cc + 1
    ensures Expanded(nbrs, end, pq', cost', visited, closed', cc, {})
  {
    forall v | v in cost' && v !in visited ensures Pending(cost'[v], v) in pq' {
      if v !in improved {
        var k :| 0 <= k < |pq| && pq[k] == Pending(cost[v], v);
        assert pq'[k] == pq[k];
      }
    }
    forall u, n | u in visited && Step(nbrs, u, n) ensures n in cost' && cost'[n] <= cost'[u] + 1 {
      assert u !in improved;
      if u != current {
        assert n in cost && cost[n] <= cost[u] + 1;
      }
    }
  }

  /** The roles ucs has painted after expanding `current`: improved cells
      are open, `current` closed when it had a neighbour and is not the start,
      the rest as before. */
  lemma UcsRoleStep(x: Cell, was: Role, start: Cell, current: Cell, visited: set<Cell>, closed: set<Cell>,
                    cost: map<Cell, nat>, cost': map<Cell, nat>, improved: set<Cell>, hasNeighbours: bool)
    requires current in cost && current in visited && closed <= visited && current !in closed
    requires cost.Keys <= cost'.Keys && forall v :: v in cost' && v !in improved ==> v in cost
    requires forall v :: v in improved ==> v in cost' && v !in visited && v != start
    ensures ExploreRole(x, was, start, if hasNeighbours then closed + {current} else closed, cost'.Keys) ==
      if x in improved then Open
      else if x == current && current != start && hasNeighbours then Closed
      else ExploreRole(x, was, start, closed, cost.Keys)
  {
  }

  /** Once the queue is empty every scored cell is expanded, the expanded
      cells hold every listed neighbour of each of them, and not the goal. */
  lemma UcsExhausted(nbrs: Adjacency, end: Cell, cost: map<Cell, nat>, visited: set<Cell>, closed: set<Cell>, last: int)
    requires Expanded(nbrs, end, [], cost, visited, closed, last, {}) && end !in visited
    ensures visited == cost.Keys && ClosedUnder(nbrs, cost.Keys) && end !in cost
  {
    forall u, n | u in cost.Keys && u in nbrs && n in nbrs[u] ensures n in cost.Keys {
      assert Step(nbrs, u, n);
    }
  }

  /** Expanding a cell popped for the first time, with the bookkeeping of
      the main loop: the cell is closed when it had a neighbour. */
  method UcsVisit(roles: array2<Role>, ghost grid: Grid, nbrs: Adjacency, start: Cell, end: Cell,
                  current: Cell, cc: nat, pq: seq<Pending>, cost: map<Cell, nat>, cameFrom: map<Cell, Cell>,
                  visited: set<Cell>, ghost closed: set<Cell>, ghost pops: seq<nat>, ghost order: seq<Cell>)
    returns (pq': seq<Pending>, cost': map<Cell, nat>, cameFrom': map<Cell, Cell>,
             ghost improved: set<Cell>, ghost closed': set<Cell>)
    requires Refreshed(grid, nbrs) && grid.rows == roles.Length0 && grid.cols == roles.Length1
    requires Opened(nbrs, start, end, current, cc, pq, cost, cameFrom, visited, closed, pops, order)
    requires end !in visited
    modifies roles
    ensures Frontier(nbrs, start, end, pq', cost', cameFrom', visited, closed', cc, pops, order)
    ensures closed' == if |nbrs[current]| > 0 then closed + {current} else closed
    ensures cost.Keys <= cost'.Keys && forall v :: v in cost' && v !in improved ==> v in cost && cost'[v] == cost[v]
    ensures forall v :: v in improved ==> v in cost' && v !in visited && v != start
    ensures forall v :: v in visited ==> cost'[v] == cost[v]
    ensures Budget(nbrs.Keys, cost') <= Budget(nbrs.Keys, cost)
    ensures cost' != cost ==> Budget(nbrs.Keys, cost') < Budget(nbrs.Keys, cost)
    ensures cost' == cost ==> pq' == pq
    ensures forall r, c, w ::
      0 <= r < roles.Length0 && 0 <= c < roles.Length1 &&
      old(roles[r, c]) == ExploreRole(Cell(r, c), w, start, closed, cost.Keys) ==>
      roles[r, c] == ExploreRole(Cell(r, c), w, start, closed', cost'.Keys)
  {
    pq', cost', cameFrom', improved := UcsExpand(roles, grid, nbrs, start, current, cc, pq, cost, cameFrom, visited);
    closed' := if |nbrs[current]| > 0 then closed + {current} else closed;
    UcsExpandedStep(nbrs, end, current, cc, visited, closed, closed', pq, cost, pq', cost', improved);
    InOrderKept(order, visited, cost, cost');
    forall r, c, w | 0 <= r < roles.Length0 && 0 <= c < roles.Length1 &&
      old(roles[r, c]) == ExploreRole(Cell(r, c), w, start, closed, cost.Keys)
      ensures roles[r, c] == ExploreRole(Cell(r, c), w, start, closed', cost'.Keys)
    {
      UcsRoleStep(Cell(r, c), w, start, current, visited, closed, cost, cost', improved, |nbrs[current]| > 0);
    }
  }

  /** The costs popped so far never decrease and none exceeds `last`. */
  ghost predicate PoppedInOrder(pops: seq<nat>, last: int) {
    && (forall i, j :: 0 <= i < j < |pops| ==> pops[i] <= pops[j])
    && (forall i :: 0 <= i < |pops| ==> pops[i] <= last)
  }

  lemma PopInOrder(pops: seq<nat>, last: int, c: nat)
    requires PoppedInOrder(pops, last) && last <= c
    ensures PoppedInOrder(pops + [c], c)
  {
  }

  /** `order` lists the expanded cells, each once. */
  ghost predicate ExpandedOnce(order: seq<Cell>, visited: set<Cell>) {
    Distinct(order) && forall c :: c in order <==> c in visited
  }

  lemma ExpandOnce(order: seq<Cell>, visited: set<Cell>, c: Cell)
    requires ExpandedOnce(order, visited) && c !in visited
    ensures ExpandedOnce(order + [c], visited + {c})
  {
  }

  /** The expanded cells, in the order they were expanded, have costs that
      never decrease. */
  ghost predicate ExpandedInOrder(order: seq<Cell>, cost: map<Cell, nat>) {
    && (forall i :: 0 <= i < |order| ==> order[i] in cost)
    && (forall i, j :: 0 <= i < j < |order| ==> cost[order[i]] <= cost[order[j]])
  }

  lemma ExpandInOrder(order: seq<Cell>, cost: map<Cell, nat>, c: Cell)
    requires ExpandedInOrder(order, cost) && c in cost
    requires forall i :: 0 <= i < |order| ==> cost[order[i]] <= cost[c]
    ensures ExpandedInOrder(order + [c], cost)
  {
  }

  /** Expanding a cell leaves the costs of the expanded ones as they were,
      so their order stays. */
  lemma InOrderKept(order: seq<Cell>, visited: set<Cell>, cost: map<Cell, nat>, cost': map<Cell, nat>)
    requires ExpandedInOrder(order, cost) && forall c :: c in order ==> c in visited
    requires forall v :: v in visited ==> v in cost && v in cost' && cost'[v] == cost[v]
    ensures ExpandedInOrder(order, cost')
  {
    assert forall i :: 0 <= i < |order| ==> order[i] in visited;
  }

  /** Along a route from the start, the `k`-th cell is expanded at a cost of
      at most `k`, unless the cheapest queued cost `cc` is itself at most
      `k`: the first cell of the route not expanded is queued under its
      cost, at most one more than its expanded predecessor on the route. */
  lemma {:induction false} UcsRouteBound(nbrs: Adjacency, start: Cell, pq: seq<Pending>, cost: map<Cell, nat>,
                                         visited: set<Cell>, cc: int, p: seq<Cell>, k: nat)
    requires start in cost && cost[start] == 0 && visited <= cost.Keys
    requires forall x :: x in pq ==> cc <= x.cost
    requires forall v :: v in cost && v !in visited ==> Pending(cost[v], v) in pq
    requires forall u, n :: u in visited && Step(nbrs, u, n) ==> n in cost && cost[n] <= cost[u] + 1
    requires IsRoute(nbrs, p) && p[|p| - 1] == start && k < |p|
    ensures cc <= k || (p[|p| - 1 - k] in visited && cost[p[|p| - 1 - k]] <= k)
  {
    if k == 0 {
      if start !in visited {
        assert Pending(cost[start], start) in pq;
      }
    } else {
      UcsRouteBound(nbrs, start, pq, cost, visited, cc, p, k - 1);
      var u, n := p[|p| - k], p[|p| - 1 - k];
      assert Step(nbrs, u, n);
      if cc > k - 1 && n !in visited {
        assert Pending(cost[n], n) in pq;
      }
    }
  }

  /** When the goal comes off the queue for the first time with cost `cc`,
      no route from the start to it is shorter than `cc` steps. */
  lemma UcsShortest(nbrs: Adjacency, start: Cell, end: Cell, pq: seq<Pending>, cost: map<Cell, nat>,
                    visited: set<Cell>, cc: int)
    requires start in cost && cost[start] == 0 && visited <= cost.Keys && end !in visited
    requires forall x :: x in pq ==> cc <= x.cost
    requires forall v :: v in cost && v !in visited ==> Pending(cost[v], v) in pq
    requires forall u, n :: u in visited && Step(nbrs, u, n) ==> n in cost && cost[n] <= cost[u] + 1
    ensures forall p :: RouteFromTo(nbrs, p, start, end) ==> cc <= |p| - 1
  {
    forall p | RouteFromTo(nbrs, p, start, end) ensures cc <= |p| - 1 {
      UcsRouteBound(nbrs, start, pq, cost, visited, cc, p, |p| - 1);
    }
  }

  /** The state at the head of ucs's main loop: the queue keyed against the
      costs, every predecessor expanded and one cheaper, the expanded cells
      (not the goal) as `Expanded` says, the costs popped in order with
      `last` the latest, and `order` listing the expanded cells once each,
      sorted by cost. */
  ghost predicate Frontier(nbrs: Adjacency, start: Cell, end: Cell, pq: seq<Pending>, cost: map<Cell, nat>,
                           cameFrom: map<Cell, Cell>, visited: set<Cell>, closed: set<Cell>, last: int,
                           pops: seq<nat>, order: seq<Cell>)
  {
    && Scored(nbrs, start, cost, cameFrom) && Keyed(pq, cost, last) && UnitTree(cost, cameFrom, visited)
    && Expanded(nbrs, end, pq, cost, visited, closed, last, {}) && end !in visited
    && PoppedInOrder(pops, last) && ExpandedOnce(order, visited) && ExpandedInOrder(order, cost)
    && last == (if |pops| > 0 then pops[|pops| - 1] else 0) && |order| <= |pops|
  }

  /** The state once `current`, popped at its cost `cc`, has joined the
      expanded cells and the order, before its neighbours are relaxed. */
  ghost predicate Opened(nbrs: Adjacency, start: Cell, end: Cell, current: Cell, cc: nat, pq: seq<Pending>,
                         cost: map<Cell, nat>, cameFrom: map<Cell, Cell>, visited: set<Cell>, closed: set<Cell>,
                         pops: seq<nat>, order: seq<Cell>)
  {
    && Scored(nbrs, start, cost, cameFrom) && Keyed(pq, cost, cc) && UnitTree(cost, cameFrom, visited)
    && Expanded(nbrs, end, pq, cost, visited, closed, cc, {current})
    && current in visited && current !in closed && current in cost && cost[current] == cc
    && ExpandedOnce(order, visited) && ExpandedInOrder(order, cost)
    && PoppedInOrder(pops, cc) && |pops| > 0 && pops[|pops| - 1] == cc && |order| <= |pops|
  }

  /** pq.get() at the head of ucs's main loop, with what it tells about the
      state: the cost popped is no lower than the last one and comes last in
      the trace of popped costs; a cell not expanded yet comes out under its
      cost, is expanded, and joins the order of expansion, which stays sorted
      by cost; when that cell is the goal, no route from the start reaches it
      in fewer steps than its cost. */
  method UcsPop(nbrs: Adjacency, start: Cell, end: Cell, pq: seq<Pending>, cost: map<Cell, nat>,
                ghost cameFrom: map<Cell, Cell>, visited: set<Cell>, ghost closed: set<Cell>, ghost last: int,
                ghost pops: seq<nat>, ghost order: seq<Cell>)
    returns (current: Cell, cc: nat, rest: seq<Pending>)
    requires |pq| > 0 && Frontier(nbrs, start, end, pq, cost, cameFrom, visited, closed, last, pops, order)
    ensures |rest| == |pq| - 1 && last <= cc
    ensures current in visited ==>
      Frontier(nbrs, start, end, rest, cost, cameFrom, visited, closed, cc, pops + [cc], order)
    ensures current !in visited ==>
      Opened(nbrs, start, end, current, cc, rest, cost, cameFrom, visited + {current}, closed,
             pops + [cc], order + [current])
    ensures current == end && current !in visited ==> forall p :: RouteFromTo(nbrs, p, start, end) ==> cc <= |p| - 1
  {
    var e;
    ghost var i;
    e, rest, i := PopCheapest(pq);
    current, cc := e.cell, e.cost;
    if current == end && current !in visited {
      UcsShortest(nbrs, start, end, pq, cost, visited, cc);
    }
    PopExpanded(nbrs, end, pq, cost, visited, closed, last, i);
    PopInOrder(pops, last, cc);
    if current !in visited {
      ExpandOnce(order, visited, current);
      ExpandInOrder(order, cost, current);
    }
  }

  /** The main loop of ucs, from the queue seeded with the start until the
      goal is expanded or the queue runs out.  The popped costs never
      decrease, no cell is expanded twice, the cells are expanded in order of
      cost, and every expanded cell costs at most the last cost popped.
      Every predecessor is expanded and one cheaper.  When the goal is
      expanded it is the last pop, at its cost, and no route reaches it in
      fewer steps.  When the queue runs out every scored cell was expanded,
      the scored cells hold every listed neighbour of each of them, and not
      the goal. */
  method UcsLoop(roles: array2<Role>, ghost grid: Grid, nbrs: Adjacency, start: Cell, end: Cell)
    returns (found: bool, cost: map<Cell, nat>, cameFrom: map<Cell, Cell>,
             visited: set<Cell>, ghost closed: set<Cell>, ghost pops: seq<nat>, ghost order: seq<Cell>)
    requires Refreshed(grid, nbrs) && grid.rows == roles.Length0 && grid.cols == roles.Length1
    requires InBounds(grid, start)
    modifies roles
    ensures Scored(nbrs, start, cost, cameFrom) && closed <= visited <= cost.Keys
    ensures forall v :: v in cameFrom ==> cost[v] == cost[cameFrom[v]] + 1
    ensures found ==> end in visited && |pops| > 0 && cost[end] == pops[|pops| - 1]
    ensures found ==> forall p :: RouteFromTo(nbrs, p, start, end) ==> cost[end] <= |p| - 1
    ensures !found ==> ClosedUnder(nbrs, cost.Keys) && end !in cost && visited == cost.Keys
    ensures PoppedInOrder(pops, if |pops| > 0 then pops[|pops| - 1] else 0) && |order| <= |pops|
    ensures ExpandedOnce(order, visited) && ExpandedInOrder(order, cost)
    ensures forall v :: v in visited ==> cost[v] <= if |pops| > 0 then pops[|pops| - 1] else 0
    ensures forall r, c {:trigger roles[r, c]} :: 0 <= r < roles.Length0 && 0 <= c < roles.Length1 ==>
      roles[r, c] == ExploreRole(Cell(r, c), old(roles[r, c]), start, closed, cost.Keys)
  {
    var pq := [Pending(0, start)];
    cameFrom := map[];
    cost := map[start := 0];
    visited := {};
    closed, pops, order := {}, [], [];
    ghost var last := 0;
    assert pq[0] == Pending(cost[start], start);
    while |pq| > 0
      invariant Frontier(nbrs, start, end, pq, cost, cameFrom, visited, closed, last, pops, order)
      invariant forall r, c {:trigger roles[r, c]} :: 0 <= r < roles.Length0 && 0 <= c < roles.Length1 ==>
        roles[r, c] == ExploreRole(Cell(r, c), old(roles[r, c]), start, closed, cost.Keys)
      decreases Budget(nbrs.Keys, cost), |pq|
    {
      var current, currentCost, rest := UcsPop(nbrs, start, end, pq, cost, cameFrom, visited, closed, last, pops, order);
      pops, last := pops + [currentCost], currentCost;
      pq := rest;
      if current in visited {
        continue;
      }
      visited := visited + {current};
      order := order + [current];
      if current == end {
        return true, cost, cameFrom, visited, closed, pops, order;
      }
      var pq', cost', cameFrom', improved, closed' :=
        UcsVisit(roles, grid, nbrs, start, end, current, currentCost, pq, cost, cameFrom, visited, closed, pops, order);
      pq, cost, cameFrom, closed := pq', cost', cameFrom', closed';
    }
    UcsExhausted(nbrs, end, cost, visited, closed, last);
    found := false;
  }

  /** What ucs's loop leaves behind, read on the grid: the goal was expanded
      exactly when it is connected to the start, every scored cell is
      connected to the start and, when the queue ran dry, every connected
      cell was scored; on success the chain back from the goal is a walk that
      repeats no cell and is no longer than any walk from start to goal, its
      length being the last cost popped. */
  lemma UcsOutcome(g: Grid, nbrs: Adjacency, start: Cell, end: Cell, found: bool,
                   cost: map<Cell, nat>, cameFrom: map<Cell, Cell>, visited: set<Cell>)
    requires Refreshed(g, nbrs) && InBounds(g, start)
    requires Scored(nbrs, start, cost, cameFrom) && visited <= cost.Keys
    requires forall v :: v in cameFrom ==> cost[v] == cost[cameFrom[v]] + 1
    requires found ==> end in visited
    requires found ==> forall p :: RouteFromTo(nbrs, p, start, end) ==> cost[end] <= |p| - 1
    requires !found ==> ClosedUnder(nbrs, cost.Keys) && end !in cost
    ensures found <==> Connected(g, start, end)
    ensures forall c :: c in cost ==> Connected(g, start, c)
    ensures !found ==> forall c :: Connected(g, start, c) ==> c in cost
    ensures found ==> forall v :: v in cameFrom ==> InBounds(g, cameFrom[v])
    ensures found ==> WalkFromTo(g, [end] + Chain(cameFrom, cost, end), start, end)
                      && Distinct([end] + Chain(cameFrom, cost, end))
    ensures found ==> |Chain(cameFrom, cost, end)| == cost[end]
    ensures found ==> forall p :: WalkFromTo(g, p, start, end) ==> |Chain(cameFrom, cost, end)| <= |p| - 1
  {
    TreeConnected(g, nbrs, start, cameFrom, cost);
    if found {
      TreePath(g, nbrs, start, cameFrom, cost, end);
      ChainLength(nbrs, start, cameFrom, cost, end);
      forall p | WalkFromTo(g, p, start, end) ensures |Chain(cameFrom, cost, end)| <= |p| - 1 {
        RouteIsWalk(g, nbrs, p);
      }
    } else {
      ComponentWithin(g, nbrs, start, cost.Keys);
    }
  }

  /** ucs: uniform-cost search from the start.  It reports whether the goal
      is connected to the start; when it is, the painted path together with
      the goal is a shortest walk from the start, visiting no cell twice, and
      its length is the last cost popped; the goal is repainted as end and
      the start as start; the other scored cells are painted open, and the
      expanded ones that had a neighbour closed.  When it is not, the scored
      cells are exactly the start's component and all were expanded.  The
      costs popped never decrease, and no cell is expanded twice. */
  method Ucs(roles: array2<Role>, start: Cell, end: Cell)
    returns (found: bool, ghost discovered: set<Cell>, ghost expanded: set<Cell>, ghost path: seq<Cell>,
             ghost pops: seq<nat>, ghost order: seq<Cell>)
    requires OnBoard(roles, start) && roles[start.row, start.col] != Barrier
    requires OnBoard(roles, end) && roles[end.row, end.col] != Barrier
    modifies roles
    ensures found <==> Connected(old(GridOf(roles)), start, end)
    ensures found ==> WalkFromTo(old(GridOf(roles)), [end] + path, start, end) && Distinct([end] + path)
    ensures found ==> forall p :: WalkFromTo(old(GridOf(roles)), p, start, end) ==> |path| <= |p| - 1
    ensures forall c :: c in discovered ==> Connected(old(GridOf(roles)), start, c)
    ensures !found ==> forall c :: Connected(old(GridOf(roles)), start, c) ==> c in discovered
    ensures forall i, j :: 0 <= i < j < |pops| ==> pops[i] <= pops[j]
    ensures found ==> |pops| > 0 && |path| == pops[|pops| - 1]
    ensures Distinct(order) && |order| <= |pops| && forall c :: c in order ==> c in discovered
    ensures forall c :: c in expanded ==> c in order
    ensures found ==> end in order
    ensures !found ==> forall c :: c in discovered ==> c in order
    ensures forall r, c :: 0 <= r < roles.Length0 && 0 <= c < roles.Length1 ==>
      roles[r, c] == if found && Cell(r, c) == start then Start
                     else if found && Cell(r, c) == end then End
                     else if found && Cell(r, c) in path then Path
                     else ExploreRole(Cell(r, c), old(roles[r, c]), start, expanded, discovered)
  {
    var g := GridOf(roles);
    assert g == old(GridOf(roles));
    var nbrs := UpdateNeighbors(g);
    var cost, cameFrom, visited;
    found, cost, cameFrom, visited, expanded, pops, order := UcsLoop(roles, g, nbrs, start, end);
    discovered := cost.Keys;
    UcsOutcome(g, nbrs, start, end, found, cost, cameFrom, visited);
    if found {
      path := Chain(cameFrom, cost, end);
      label Finishing:
      ghost var draws := FinishPath(cameFrom, start, end, roles, cost, true);
      forall r, c | 0 <= r < roles.Length0 && 0 <= c < roles.Length1
        ensures roles[r, c] == if Cell(r, c) == start then Start else if Cell(r, c) == end then End
                               else if Cell(r, c) in path then Path
                               else ExploreRole(Cell(r, c), old(roles[r, c]), start, expanded, discovered)
      {
        assert old@Finishing(roles[r, c]) == ExploreRole(Cell(r, c), old(roles[r, c]), start, expanded, discovered);
      }
    } else {
      path := [];
    }
  }
}
