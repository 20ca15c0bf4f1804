/** astar: a best-first search ordered by f = g + Manhattan distance to the
    goal, with ties broken by insertion order. */
module AStar {
  import opened SearchGrid
  import opened Heuristics
  import opened PathReconstruction
  import opened Scores

  /** An entry of the open set: the key (f, count) and the cell. */
  datatype Entry = Entry(f: int, count: int, cell: Cell)

  /** The order the priority queue releases entries in: by f, then by the
      insertion counter.  Counters are distinct, so cells are never compared. */
  predicate KeyLe(a: Entry, b: Entry) {
    a.f < b.f || (a.f == b.f && a.count <= b.count)
  }

  /** The cells that have an entry in the queue. */
  ghost function Cells(q: seq<Entry>): set<Cell> {
    set i | 0 <= i < |q| :: q[i].cell
  }

  /** open_set.get(): remove and return an entry with the least key. */
  method PopMin(q: seq<Entry>) returns (e: Entry, rest: seq<Entry>, ghost i: nat)
    requires |q| > 0
    ensures i < |q| && e == q[i] && rest == q[..i] + q[i + 1..]
    ensures forall x :: x in q ==> KeyLe(e, x)
  {
    var m := 0;
    var j := 1;
    while j < |q|
      invariant 0 <= m < j <= |q|
      invariant forall k :: 0 <= k < j ==> KeyLe(q[m], q[k])
    {
      if !KeyLe(q[m], q[j]) {
        m := j;
      }
      j := j + 1;
    }
    e, rest, i := q[m], q[..m] + q[m + 1..], m;
  }

  /** The open set and its hash agree: every cell has at most one entry,
      the hash holds exactly the queued cells, and the counters are distinct
      and no larger than the last one handed out. */
  ghost predicate Queued(q: seq<Entry>, hash: set<Cell>, count: int) {
    && 0 <= count && hash == Cells(q)
    && (forall i, j :: 0 <= i < j < |q| ==> q[i].cell != q[j].cell && q[i].count != q[j].count)
    && (forall i :: 0 <= i < |q| ==> 0 <= q[i].count <= count)
  }

  /** Entries of equal f leave the queue in the order they were put in. */
  lemma InsertionOrder(q: seq<Entry>, hash: set<Cell>, count: int, i: nat)
    requires Queued(q, hash, count) && i < |q|
    requires forall x :: x in q ==> KeyLe(q[i], x)
    ensures forall j :: 0 <= j < |q| && j != i && q[j].f == q[i].f ==> q[i].count < q[j].count
  {
    forall j | 0 <= j < |q| && j != i && q[j].f == q[i].f ensures q[i].count < q[j].count {
      assert KeyLe(q[i], q[j]);
      if j < i {
        assert q[j].count != q[i].count;
      } else {
        assert q[i].count != q[j].count;
      }
    }
  }

  /** The cells left after removing an entry whose cell has no other entry. */
  lemma PopCells(q: seq<Entry>, i: nat)
    requires i < |q| && forall k :: 0 <= k < |q| && k != i ==> q[k].cell != q[i].cell
    ensures Cells(q[..i] + q[i + 1..]) == Cells(q) - {q[i].cell}
  {
    var r := q[..i] + q[i + 1..];
    forall x | x in Cells(r) ensures x in Cells(q) - {q[i].cell} {
      var k :| 0 <= k < |r| && r[k].cell == x;
      if k < i {
        assert r[k] == q[k];
      } else {
        assert r[k] == q[k + 1];
      }
    }
    forall x | x in Cells(q) - {q[i].cell} ensures x in Cells(r) {
      var k :| 0 <= k < |q| && q[k].cell == x;
      if k < i {
        assert r[k] == q[k];
      } else {
        assert r[k - 1] == q[k];
      }
    }
  }

  /** Removing an entry removes its cell from the hash. */
  lemma PopQueued(q: seq<Entry>, hash: set<Cell>, count: int, i: nat)
    requires Queued(q, hash, count) && i < |q|
    ensures Queued(q[..i] + q[i + 1..], hash - {q[i].cell}, count)
  {
    var r := q[..i] + q[i + 1..];
    assert forall k :: 0 <= k < |q| && k != i ==> q[k].cell != q[i].cell by {
      forall k | 0 <= k < |q| && k != i ensures q[k].cell != q[i].cell {
        if k < i {
          assert q[k].cell != q[i].cell;
        } else {
          assert q[i].cell != q[k].cell;
        }
      }
    }
    PopCells(q, i);
    assert forall k :: 0 <= k < |r| ==> r[k] == if k < i then q[k] else q[k + 1];
  }

  /** Putting an entry for a cell with no entry, under a fresh counter. */
  lemma PushQueued(q: seq<Entry>, hash: set<Cell>, count: int, e: Entry)
    requires Queued(q, hash, count) && e.cell !in hash && e.count == count + 1
    ensures Queued(q + [e], hash + {e.cell}, count + 1)
  {
    var r := q + [e];
    assert forall k :: 0 <= k < |q| ==> r[k] == q[k];
    forall x | x in hash + {e.cell} ensures x in Cells(r) {
      if x == e.cell {
        assert r[|q|].cell == x;
      } else {
        var k :| 0 <= k < |q| && q[k].cell == x;
        assert r[k].cell == x;
      }
    }
  }

  /** f scores: exactly the scored cells have one, and it is the g score
      plus the Manhattan distance to the goal. */
  ghost predicate FScored(end: Cell, gs: map<Cell, nat>, fs: map<Cell, int>) {
    && fs.Keys == gs.Keys
    && (forall v :: v in gs ==> fs[v] == gs[v] + Manhattan(v, end))
  }

  /** Every scored cell off the open set (but those in `except`, popped and
      not yet expanded) has all its listed neighbours scored, and the goal is
      never taken off the open set without the search stopping. */
  ghost predicate Settled(nbrs: Adjacency, end: Cell, gs: map<Cell, nat>, hash: set<Cell>, except: set<Cell>) {
    && (forall u, n :: u in gs && u !in hash && u !in except && Step(nbrs, u, n) ==> n in gs)
    && (end in gs ==> end in hash)
  }

  /** The state of astar is consistent: scores, f scores and the open set
      agree, and every queued cell is scored. */
  ghost predicate Consistent(nbrs: Adjacency, start: Cell, end: Cell, q: seq<Entry>, hash: set<Cell>,
                             gs: map<Cell, nat>, fs: map<Cell, int>, cameFrom: map<Cell, Cell>, count: int)
  {
    Scored(nbrs, start, gs, cameFrom) && FScored(end, gs, fs) && Queued(q, hash, count) && hash <= gs.Keys
  }

  /** The invariant of the main loop of astar (`except` holds the cell popped
      and not yet expanded). */
  ghost predicate Searching(nbrs: Adjacency, start: Cell, end: Cell, q: seq<Entry>, hash: set<Cell>,
                            gs: map<Cell, nat>, fs: map<Cell, int>, cameFrom: map<Cell, Cell>, count: int,
                            except: set<Cell>)
  {
    Consistent(nbrs, start, end, q, hash, gs, fs, cameFrom, count) && Settled(nbrs, end, gs, hash, except)
  }

  /** Going through `current` improves the score of `n`. */
  predicate Improves(gs: map<Cell, nat>, current: Cell, n: Cell)
    requires current in gs
  {
    Lowers(gs, n, gs[current] + 1)
  }

  /** Setting the g score of a cell and its f score to match keeps f = g + h. */
  lemma FScoredStep(end: Cell, gs: map<Cell, nat>, fs: map<Cell, int>, n: Cell, t: nat)
    requires FScored(end, gs, fs)
    ensures FScored(end, gs[n := t], fs[n := t + Manhattan(n, end)])
  {
  }

  /** Recording a better score for `n` through `current` keeps the scores
      consistent. */
  lemma ImproveScores(nbrs: Adjacency, start: Cell, current: Cell, n: Cell,
                      gs: map<Cell, nat>, cameFrom: map<Cell, Cell>)
    requires Scored(nbrs, start, gs, cameFrom)
    requires current in gs && Step(nbrs, current, n) && n in nbrs && n != current && Improves(gs, current, n)
    ensures Scored(nbrs, start, gs[n := gs[current] + 1], cameFrom[n := current])
  {
    assert gs[current] < |gs.Keys|;
    ScoredStep(nbrs, start, gs, cameFrom, current, n, gs[current] + 1);
  }

  /** One pass of the neighbour loop of astar keeps the scores, the f
      scores and the open set consistent, and leaves the neighbour scored no
      higher than one above `current`. */
  lemma RelaxKeeps(nbrs: Adjacency, start: Cell, end: Cell, current: Cell, n: Cell,
                   q: seq<Entry>, hash: set<Cell>, gs: map<Cell, nat>, fs: map<Cell, int>,
                   cameFrom: map<Cell, Cell>, count: int,
                   q': seq<Entry>, hash': set<Cell>, gs': map<Cell, nat>, fs': map<Cell, int>,
                   cameFrom': map<Cell, Cell>, count': int)
    requires Consistent(nbrs, start, end, q, hash, gs, fs, cameFrom, count)
    requires current in gs && Step(nbrs, current, n) && n in nbrs && n != current
    requires Improves(gs, current, n) ==>
      gs' == gs[n := gs[current] + 1] && fs' == fs[n := gs[current] + 1 + Manhattan(n, end)]
      && cameFrom' == cameFrom[n := current]
    requires !Improves(gs, current, n) ==> gs' == gs && fs' == fs && cameFrom' == cameFrom
    requires Improves(gs, current, n) && n !in hash ==>
      q' == q + [Entry(fs'[n], count + 1, n)] && hash' == hash + {n} && count' == count + 1
    requires !(Improves(gs, current, n) && n !in hash) ==> q' == q && hash' == hash && count' == count
    ensures Consistent(nbrs, start, end, q', hash', gs', fs', cameFrom', count')
    ensures n in gs' && gs'[n] <= gs[current] + 1
  {
    if Improves(gs, current, n) {
      ImproveScores(nbrs, start, current, n, gs, cameFrom);
      FScoredStep(end, gs, fs, n, gs[current] + 1);
      RelaxQueued(q, hash, count, n, fs'[n], q', hash', count');
    }
  }

  /** Queueing a cell only when it has no entry keeps the open set and its
      hash in agreement. */
  lemma RelaxQueued(q: seq<Entry>, hash: set<Cell>, count: int, n: Cell, f: int,
                    q': seq<Entry>, hash': set<Cell>, count': int)
    requires Queued(q, hash, count)
    requires n !in hash ==> q' == q + [Entry(f, count + 1, n)] && hash' == hash + {n} && count' == count + 1
    requires n in hash ==> q' == q && hash' == hash && count' == count
    ensures Queued(q', hash', count') && hash' <= hash + {n}
  {
    if n !in hash {
      PushQueued(q, hash, count, Entry(f, count + 1, n));
    }
  }

  /** One pass of the neighbour loop of astar: when the route through
      `current` is strictly shorter, record it (predecessor, g, f) and, if the
      neighbour is not on the open set, put it there under a fresh counter and
      paint it open. */
  method Relax(roles: array2<Role>, start: Cell, end: Cell, current: Cell, n: Cell,
               q: seq<Entry>, hash: set<Cell>, gs: map<Cell, nat>, fs: map<Cell, int>,
               cameFrom: map<Cell, Cell>, count: int)
    returns (q': seq<Entry>, hash': set<Cell>, gs': map<Cell, nat>, fs': map<Cell, int>,
             cameFrom': map<Cell, Cell>, count': int)
    requires current in gs && OnBoard(roles, n)
    modifies roles
    ensures Improves(gs, current, n) ==>
      gs' == gs[n := gs[current] + 1] && fs' == fs[n := gs[current] + 1 + Manhattan(n, end)]
      && cameFrom' == cameFrom[n := current]
    ensures !Improves(gs, current, n) ==> gs' == gs && fs' == fs && cameFrom' == cameFrom
    ensures Improves(gs, current, n) && n !in hash ==>
      q' == q + [Entry(fs'[n], count + 1, n)] && hash' == hash + {n} && count' == count + 1
    ensures !(Improves(gs, current, n) && n !in hash) ==> q' == q && hash' == hash && count' == count
    ensures forall r, c {:trigger roles[r, c]} :: 0 <= r < roles.Length0 && 0 <= c < roles.Length1 ==>
      roles[r, c] == if Cell(r, c) in hash' - hash then Open else old(roles[r, c])
  {
    q', hash', gs', fs', cameFrom', count' := q, hash, gs, fs, cameFrom, count;
    var temp := gs[current] + 1;
    if n !in gs || temp < gs[n] {
      cameFrom' := cameFrom[n := current];
      gs' := gs[n := temp];
      fs' := fs[n := temp + Manhattan(n, end)];
      if n !in hash {
        count' := count + 1;
        q' := q + [Entry(fs'[n], count', n)];
        hash' := hash + {n};
        Paint(roles, n, Open);
      }
    }
  }

  /** After expanding `current`, every scored cell off the open set has all
      its listed neighbours scored. */
  lemma ExpandSettled(nbrs: Adjacency, end: Cell, current: Cell, gs: map<Cell, nat>, hash: set<Cell>,
                      gs': map<Cell, nat>, hash': set<Cell>)
    requires Settled(nbrs, end, gs, hash, {current}) && current in nbrs && Lowered(gs, gs')
    requires forall v :: v in gs' && v !in hash' ==> v in gs && v !in hash
    requires forall n :: n in nbrs[current] ==> n in gs'
    ensures Settled(nbrs, end, gs', hash', {})
  {
    forall u, n | u in gs' && u !in hash' && Step(nbrs, u, n) ensures n in gs' {
      if u != current {
        assert n in gs;
      }
    }
  }

  /** What the neighbour loop of astar keeps after relaxing `ns[..i]`,
      relative to the state `q, hash, gs` it started from: lowered scores, no cell taken off the open set, `current` and the start
      not put back on it, every relaxed neighbour scored, and, unless some
      score changed (as witnessed by `w`), nothing queued at all. */
  ghost predicate Relaxed(nbrs: Adjacency, start: Cell, end: Cell, current: Cell, ns: seq<Cell>, i: int,
                          q: seq<Entry>, hash: set<Cell>, gs: map<Cell, nat>,
                          q': seq<Entry>, hash': set<Cell>, gs': map<Cell, nat>,
                          changed: bool, w: Cell)
  {
    && 0 <= i <= |ns|
    && Lowered(gs, gs')
    && (forall v :: v in gs' && v !in hash' ==> v in gs && v !in hash)
    && hash <= hash' && current !in hash' && (start in hash' ==> start in hash)
    && (forall k :: 0 <= k < i ==> ns[k] in gs')
    && (changed ==> w in gs' && (w !in gs || gs'[w] < gs[w]))
    && (!changed ==> gs' == gs && q' == q)
  }

  /** Relaxing `n` only lowers scores, and scores `n`; when it improves, `n`
      witnesses a change against any earlier state whose scores were no lower. */
  lemma RelaxLowers(gs: map<Cell, nat>, gs': map<Cell, nat>, current: Cell, n: Cell, gs'': map<Cell, nat>,
                    changed: bool, w: Cell)
    requires current in gs' && Lowered(gs, gs')
    requires Improves(gs', current, n) ==> gs'' == gs'[n := gs'[current] + 1]
    requires !Improves(gs', current, n) ==> gs'' == gs'
    requires changed ==> w in gs' && (w !in gs || gs'[w] < gs[w])
    ensures Lowered(gs, gs'')
    ensures var changed', w' := changed || Improves(gs', current, n), if Improves(gs', current, n) then n else w;
      changed' ==> w' in gs'' && (w' !in gs || gs''[w'] < gs[w'])
  {
  }

  /** Relaxing `n` takes no cell off the open set and leaves no newly scored
      cell off it; `current` and a start scored 0 are not put on it. */
  lemma RelaxOpens(gs: map<Cell, nat>, hash: set<Cell>, gs': map<Cell, nat>, hash': set<Cell>,
                   start: Cell, current: Cell, n: Cell, gs'': map<Cell, nat>, hash'': set<Cell>)
    requires current in gs' && n != current && start in gs' && gs'[start] == 0 && hash' <= gs'.Keys
    requires forall v :: v in gs' && v !in hash' ==> v in gs && v !in hash
    requires hash <= hash' && current !in hash' && (start in hash' ==> start in hash)
    requires Improves(gs', current, n) ==> gs'' == gs'[n := gs'[current] + 1]
    requires !Improves(gs', current, n) ==> gs'' == gs'
    requires Improves(gs', current, n) && n !in hash' ==> hash'' == hash' + {n}
    requires !(Improves(gs', current, n) && n !in hash') ==> hash'' == hash'
    ensures forall v :: v in gs'' && v !in hash'' ==> v in gs && v !in hash
    ensures hash <= hash'' && current !in hash'' && (start in hash'' ==> start in hash)
  {
    if Improves(gs', current, n) {
      assert n != start;
    }
  }

  /** Relaxing the next neighbour keeps `Relaxed`. */
  lemma RelaxedStep(nbrs: Adjacency, start: Cell, end: Cell, current: Cell, ns: seq<Cell>, i: int,
                    q: seq<Entry>, hash: set<Cell>, gs: map<Cell, nat>,
                    q': seq<Entry>, hash': set<Cell>, gs': map<Cell, nat>, changed: bool, w: Cell,
                    q'': seq<Entry>, hash'': set<Cell>, gs'': map<Cell, nat>)
    requires Relaxed(nbrs, start, end, current, ns, i, q, hash, gs, q', hash', gs', changed, w)
    requires i < |ns| && current !in ns && current in gs' && start in gs' && gs'[start] == 0 && hash' <= gs'.Keys
    requires Improves(gs', current, ns[i]) ==> gs'' == gs'[ns[i] := gs'[current] + 1]
    requires !Improves(gs', current, ns[i]) ==> gs'' == gs'
    requires Improves(gs', current, ns[i]) && ns[i] !in hash' ==> hash'' == hash' + {ns[i]}
    requires !(Improves(gs', current, ns[i]) && ns[i] !in hash') ==> q'' == q' && hash'' == hash'
    ensures Relaxed(nbrs, start, end, current, ns, i + 1, q, hash, gs, q'', hash'', gs'',
                    changed || Improves(gs', current, ns[i]), if Improves(gs', current, ns[i]) then ns[i] else w)
  {
    var n := ns[i];
    RelaxLowers(gs, gs', current, n, gs'', changed, w);
    RelaxOpens(gs, hash, gs', hash', start, current, n, gs'', hash'');
    forall k | 0 <= k < i + 1 ensures ns[k] in gs'' {
      if k < i {
        assert ns[k] in gs';
      }
    }
  }

  /** The roles after one more pass of the neighbour loop of astar: a cell
      newly put on the open set is painted open. */
  lemma RelaxPaints(x: Cell, hash0: set<Cell>, hash: set<Cell>, hash': set<Cell>, was: Role, before: Role, after: Role)
    requires hash0 <= hash <= hash'
    requires before == if x in hash - hash0 then Open else was
    requires after == if x in hash' - hash then Open else before
    ensures after == if x in hash' - hash0 then Open else was
  {
  }

  /** The next pass of the neighbour loop of astar, with the facts it keeps. */
  method RelaxNext(roles: array2<Role>, nbrs: Adjacency, start: Cell, end: Cell, current: Cell, ns: seq<Cell>, i: int,
                   ghost q: seq<Entry>, ghost hash: set<Cell>, ghost gs: map<Cell, nat>,
                   q': seq<Entry>, hash': set<Cell>, gs': map<Cell, nat>, fs': map<Cell, int>,
                   cameFrom': map<Cell, Cell>, count': int, ghost changed: bool, ghost w: Cell)
    returns (q'': seq<Entry>, hash'': set<Cell>, gs'': map<Cell, nat>, fs'': map<Cell, int>,
             cameFrom'': map<Cell, Cell>, count'': int)
    requires 0 <= i < |ns| && current !in ns && Step(nbrs, current, ns[i]) && ns[i] in nbrs && OnBoard(roles, ns[i])
    requires Consistent(nbrs, start, end, q', hash', gs', fs', cameFrom', count') && current in gs'
    requires Relaxed(nbrs, start, end, current, ns, i, q, hash, gs, q', hash', gs', changed, w)
    modifies roles
    ensures Consistent(nbrs, start, end, q'', hash'', gs'', fs'', cameFrom'', count'')
    ensures Relaxed(nbrs, start, end, current, ns, i + 1, q, hash, gs, q'', hash'', gs'',
                    changed || Improves(gs', current, ns[i]), if Improves(gs', current, ns[i]) then ns[i] else w)
    ensures hash' <= hash''
    ensures forall r, c {:trigger roles[r, c]} :: 0 <= r < roles.Length0 && 0 <= c < roles.Length1 ==>
      roles[r, c] == if Cell(r, c) in hash'' - hash' then Open else old(roles[r, c])
  {
    var n := ns[i];
    q'', hash'', gs'', fs'', cameFrom'', count'' := Relax(roles, start, end, current, n, q', hash', gs', fs', cameFrom', count');
    RelaxKeeps(nbrs, start, end, current, n, q', hash', gs', fs', cameFrom', count',
               q'', hash'', gs'', fs'', cameFrom'', count'');
    RelaxedStep(nbrs, start, end, current, ns, i, q, hash, gs, q', hash', gs', changed, w, q'', hash'', gs'');
  }

  /** The neighbour loop of astar: every listed neighbour is relaxed in turn. */
  method RelaxAll(roles: array2<Role>, nbrs: Adjacency, start: Cell, end: Cell, current: Cell, ns: seq<Cell>,
                  q: seq<Entry>, hash: set<Cell>, gs: map<Cell, nat>, fs: map<Cell, int>,
                  cameFrom: map<Cell, Cell>, count: int)
    returns (q': seq<Entry>, hash': set<Cell>, gs': map<Cell, nat>, fs': map<Cell, int>,
             cameFrom': map<Cell, Cell>, count': int, ghost changed: bool, ghost w: Cell)
    requires current !in ns && forall n :: n in ns ==> n in nbrs && Step(nbrs, current, n) && OnBoard(roles, n)
    requires Consistent(nbrs, start, end, q, hash, gs, fs, cameFrom, count) && current in gs && current !in hash
    modifies roles
    ensures Consistent(nbrs, start, end, q', hash', gs', fs', cameFrom', count')
    ensures Relaxed(nbrs, start, end, current, ns, |ns|, q, hash, gs, q', hash', gs', changed, w)
    ensures forall r, c {:trigger roles[r, c]} :: 0 <= r < roles.Length0 && 0 <= c < roles.Length1 ==>
      roles[r, c] == if Cell(r, c) in hash' - hash then Open else old(roles[r, c])
  {
    q', hash', gs', fs', cameFrom', count' := q, hash, gs, fs, cameFrom, count;
    changed, w := false, current;
    var i := 0;
    while i < |ns|
      invariant Consistent(nbrs, start, end, q', hash', gs', fs', cameFrom', count')
      invariant Relaxed(nbrs, start, end, current, ns, i, q, hash, gs, q', hash', gs', changed, w)
      invariant forall r, c {:trigger roles[r, c]} :: 0 <= r < roles.Length0 && 0 <= c < roles.Length1 ==>
        roles[r, c] == if Cell(r, c) in hash' - hash then Open else old(roles[r, c])
    {
      var n := ns[i];
      label Relaxing:
      var q'', hash'', gs'', fs'', cameFrom'', count'' :=
        RelaxNext(roles, nbrs, start, end, current, ns, i, q, hash, gs, q', hash', gs', fs', cameFrom', count', changed, w);
      forall r, c | 0 <= r < roles.Length0 && 0 <= c < roles.Length1
        ensures roles[r, c] == if Cell(r, c) in hash'' - hash then Open else old(roles[r, c])
      {
        RelaxPaints(Cell(r, c), hash, hash', hash'', old(roles[r, c]), old@Relaxing(roles[r, c]), roles[r, c]);
      }
      if Improves(gs', current, n) {
        changed, w := true, n;
      }
      q', hash', gs', fs', cameFrom', count' := q'', hash'', gs'', fs'', cameFrom'', count'';
      i := i + 1;
    }
  }

  /** The neighbour loop of astar and the closing of `current`: every listed
      neighbour is relaxed in turn, then `current` is painted closed unless it
      is the start.  Scores only decrease, every neighbour ends up scored, the
      cells newly put on the open set are painted open, and the budget shrinks
      unless nothing improved, in which case nothing was queued. */
  method AstarExpand(roles: array2<Role>, ghost grid: Grid, nbrs: Adjacency, start: Cell, end: Cell, current: Cell,
                     q: seq<Entry>, hash: set<Cell>, gs: map<Cell, nat>, fs: map<Cell, int>,
                     cameFrom: map<Cell, Cell>, count: int)
    returns (q': seq<Entry>, hash': set<Cell>, gs': map<Cell, nat>, fs': map<Cell, int>,
             cameFrom': map<Cell, Cell>, count': int)
    requires Refreshed(grid, nbrs) && grid.rows == roles.Length0 && grid.cols == roles.Length1
    requires Searching(nbrs, start, end, q, hash, gs, fs, cameFrom, count, {current})
    requires current in gs && current !in hash && current != end
    modifies roles
    ensures Searching(nbrs, start, end, q', hash', gs', fs', cameFrom', count', {})
    ensures Lowered(gs, gs')
    ensures forall v :: v in gs' && v !in hash' ==> v in gs && v !in hash
    ensures hash <= hash' && current !in hash' && (start in hash' ==> start in hash)
    ensures Budget(nbrs.Keys, gs') <= Budget(nbrs.Keys, gs)
    ensures gs' != gs ==> Budget(nbrs.Keys, gs') < Budget(nbrs.Keys, gs)
    ensures gs' == gs ==> q' == q
    ensures forall r, c {:trigger roles[r, c]} :: 0 <= r < roles.Length0 && 0 <= c < roles.Length1 ==>
      roles[r, c] == if Cell(r, c) in hash' - hash then Open
                     else if Cell(r, c) == current && current != start then Closed
                     else old(roles[r, c])
  {
    var ns := nbrs[current];
    ListedAreFree(grid, nbrs, current);
    assert current !in ns by {
      assert nbrs[current] == Neighbors(grid, current);
    }
    assert forall n :: n in ns ==> n in nbrs && Step(nbrs, current, n) && OnBoard(roles, n);
    ghost var changed, w;
    q', hash', gs', fs', cameFrom', count', changed, w :=
      RelaxAll(roles, nbrs, start, end, current, ns, q, hash, gs, fs, cameFrom, count);
    ExpandSettled(nbrs, end, current, gs, hash, gs', hash');
    BudgetMonotone(nbrs.Keys, gs, gs');
    if changed {
      BudgetShrinks(nbrs.Keys, gs, gs', w);
    }
    if current != start {
      Paint(roles, current, Closed);
    }
  }

  /** Taking a cell other than the goal off the open set leaves it the only
      scored cell off the open set whose neighbours may be unscored. */
  lemma PopSettled(nbrs: Adjacency, end: Cell, gs: map<Cell, nat>, hash: set<Cell>, current: Cell)
    requires Settled(nbrs, end, gs, hash, {}) && current != end
    ensures Settled(nbrs, end, gs, hash - {current}, {current})
  {
  }

  /** Once the open set is empty every listed neighbour of a scored cell is
      scored, and the goal is not. */
  lemma AstarExhausted(nbrs: Adjacency, start: Cell, end: Cell, hash: set<Cell>, gs: map<Cell, nat>,
                       fs: map<Cell, int>, cameFrom: map<Cell, Cell>, count: int)
    requires Searching(nbrs, start, end, [], hash, gs, fs, cameFrom, count, {})
    ensures ClosedUnder(nbrs, gs.Keys) && end !in gs
  {
    assert hash == {};
    forall u, n | u in gs.Keys && u in nbrs && n in nbrs[u] ensures n in gs.Keys {
      assert Step(nbrs, u, n);
    }
  }

  /** The roles astar has painted after popping `current` and expanding it:
      scored cells off the open set are closed, those on it open. */
  lemma AstarRoleStep(x: Cell, was: Role, start: Cell, current: Cell, before: set<Cell>, hash: set<Cell>,
                      gs: map<Cell, nat>, hash': set<Cell>, gs': map<Cell, nat>)
    requires current in before && hash == before - {current} && before <= gs.Keys
    requires hash <= hash' && current !in hash' && (start in hash' ==> start in hash)
    requires hash' <= gs'.Keys && Lowered(gs, gs')
    requires forall v :: v in gs' && v !in hash' ==> v in gs && v !in hash
    ensures ExploreRole(x, was, start, gs'.Keys - hash', gs'.Keys) ==
      if x in hash' - hash then Open
      else if x == current && current != start then Closed
      else ExploreRole(x, was, start, gs.Keys - before, gs.Keys)
  {
  }

  /** The main loop of astar, from the seeded open set until the goal is
      popped or the open set runs out.  When the goal is popped it is scored;
      when the open set runs out the scored cells hold every listed neighbour
      of each of them and not the goal.  Scored cells are painted open while
      on the open set and closed once expanded. */
  method AstarLoop(roles: array2<Role>, ghost grid: Grid, nbrs: Adjacency, start: Cell, end: Cell)
    returns (found: bool, gs: map<Cell, nat>, cameFrom: map<Cell, Cell>, ghost closed: set<Cell>)
    requires Refreshed(grid, nbrs) && grid.rows == roles.Length0 && grid.cols == roles.Length1
    requires InBounds(grid, start)
    modifies roles
    ensures Scored(nbrs, start, gs, cameFrom) && closed <= gs.Keys
    ensures found ==> end in gs
    ensures !found ==> ClosedUnder(nbrs, gs.Keys) && end !in gs && closed == gs.Keys
    ensures forall r, c {:trigger roles[r, c]} :: 0 <= r < roles.Length0 && 0 <= c < roles.Length1 ==>
      roles[r, c] == ExploreRole(Cell(r, c), old(roles[r, c]), start, closed, gs.Keys)
  {
    var count := 0;
    var q := [Entry(0, count, start)];
    cameFrom := map[];
    gs := map[start := 0];
    var fs: map<Cell, int> := map[start := Manhattan(start, end)];
    var hash := {start};
    assert Cells(q) == {start} by {
      assert q[0].cell == start;
    }
    while |q| > 0
      invariant Searching(nbrs, start, end, q, hash, gs, fs, cameFrom, count, {})
      invariant forall r, c {:trigger roles[r, c]} :: 0 <= r < roles.Length0 && 0 <= c < roles.Length1 ==>
        roles[r, c] == ExploreRole(Cell(r, c), old(roles[r, c]), start, gs.Keys - hash, gs.Keys)
      decreases Budget(nbrs.Keys, gs), |q|
    {
      var e, rest, idx := PopMin(q);
      var current := e.cell;
      PopQueued(q, hash, count, idx);
      assert current in hash by {
        assert q[idx].cell in Cells(q);
      }
      ghost var before := hash;
      q := rest;
      if current in hash {
        hash := hash - {current};
      }
      if current == end {
        return true, gs, cameFrom, gs.Keys - before;
      }
      PopSettled(nbrs, end, gs, before, current);
      label Expanding:
      var q', hash', gs', fs', cameFrom', count' :=
        AstarExpand(roles, grid, nbrs, start, end, current, q, hash, gs, fs, cameFrom, count);
      forall r, c | 0 <= r < roles.Length0 && 0 <= c < roles.Length1
        ensures roles[r, c] == ExploreRole(Cell(r, c), old(roles[r, c]), start, gs'.Keys - hash', gs'.Keys)
      {
        AstarRoleStep(Cell(r, c), old(roles[r, c]), start, current, before, hash, gs, hash', gs');
        assert old@Expanding(roles[r, c]) == ExploreRole(Cell(r, c), old(roles[r, c]), start, gs.Keys - before, gs.Keys);
      }
      q, hash, gs, fs, cameFrom, count := q', hash', gs', fs', cameFrom', count';
    }
    AstarExhausted(nbrs, start, end, hash, gs, fs, cameFrom, count);
    found, closed := false, gs.Keys;
  }

  /** astar: a best-first search from the start.  It reports whether the goal
      is connected to the start; when it is, the painted path together with
      the goal is a walk from the start that visits no cell twice, the goal is
      repainted as end and the start as start; the other scored cells are
      painted open while queued and closed once expanded.  When it is not,
      the scored cells are exactly the start's component. */
  method Astar(roles: array2<Role>, start: Cell, end: Cell)
    returns (found: bool, ghost discovered: set<Cell>, ghost expanded: set<Cell>, ghost path: seq<Cell>)
    requires OnBoard(roles, start) && roles[start.row, start.col] != Barrier
    requires OnBoard(roles, end) && roles[end.row, end.col] != Barrier
    modifies roles
    ensures found <==> Connected(old(GridOf(roles)), start, end)
    ensures found ==> WalkFromTo(old(GridOf(roles)), [end] + path, start, end) && Distinct([end] + path)
    ensures forall c :: c in discovered ==> Connected(old(GridOf(roles)), start, c)
    ensures !found ==> forall c :: Connected(old(GridOf(roles)), start, c) ==> c in discovered
    ensures forall r, c :: 0 <= r < roles.Length0 && 0 <= c < roles.Length1 ==>
      roles[r, c] == if found && Cell(r, c) == start then Start
                     else if found && Cell(r, c) == end then End
                     else if found && Cell(r, c) in path then Path
                     else ExploreRole(Cell(r, c), old(roles[r, c]), start, expanded, discovered)
  {
    var g := GridOf(roles);
    assert g == old(GridOf(roles));
    var nbrs := UpdateNeighbors(g);
    var gs, cameFrom;
    found, gs, cameFrom, expanded := AstarLoop(roles, g, nbrs, start, end);
    discovered := gs.Keys;
    TreeConnected(g, nbrs, start, cameFrom, gs);
    if found {
      TreePath(g, nbrs, start, cameFrom, gs, end);
      path := Chain(cameFrom, gs, end);
      label Finishing:
      ghost var draws := FinishPath(cameFrom, start, end, roles, gs, true);
      forall r, c | 0 <= r < roles.Length0 && 0 <= c < roles.Length1
        ensures roles[r, c] == if Cell(r, c) == start then Start else if Cell(r, c) == end then End
                               else if Cell(r, c) in path then Path
                               else ExploreRole(Cell(r, c), old(roles[r, c]), start, expanded, discovered)
      {
        assert old@Finishing(roles[r, c]) == ExploreRole(Cell(r, c), old(roles[r, c]), start, expanded, discovered);
      }
    } else {
      ComponentWithin(g, nbrs, start, gs.Keys);
      path := [];
    }
  }
}
