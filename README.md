# Grid search engine — a verified model

This project models the search engine of a grid path-finding visualiser:
the functions of `searching_algorithms.py` that look for a path from a start
cell to an end cell on a rectangular grid with barriers, moving between
edge-adjacent cells, and paint cells as they go (open when discovered,
closed when expanded, path when on the path found, start/end at the ends).

Modelled, one module per concern:

- `SearchGrid` (grid.dfy) — cells, roles (the `make_*` colours) as an
  `array2<Role>`, the barrier snapshot a search takes when it refreshes the
  neighbour lists (`update_neighbors` over every spot), the neighbour lists
  themselves, walks and routes between cells.
- `Heuristics` (heuristics.dfy) — `h_manhattan_distance`.
- `PathReconstruction` (reconstruct.dfy) — `reconstruct_path`, the
  predecessor chain it follows and the predecessor trees the searches build.
- `Scores` (scores.dfy) — the score maps shared by `astar` (g scores) and
  `ucs` (costs): every scored cell other than the start has a predecessor
  that scores less, and a finite measure that shrinks on each improvement.
- `UninformedSearch` (uninformed.dfy) — `bfs` (FIFO queue) and `dfs` (LIFO
  stack).
- `AStar` (astar.dfy) — `astar`, with its open set as a sequence of
  `(f, count, cell)` entries and the `open_set_hash` set.
- `DepthLimited` (dls.dfy) — `depth_limited_search` and `dls`.
- `UniformCost` (ucs.dfy) — `ucs`, with lazy deletion through `visited`.

The searches are imperative methods over the role array, as in the source.
Their loops are split into a loop method and a method per step so that each
step's contract is proved on its own. Each search is proved against its
specification:

- It succeeds exactly when the goal is connected to the start through free
  cells. `dls` is the exception: it succeeds exactly when the goal is the
  start or is recorded in the came-from map.
- Every discovered cell is connected to the start.
- The painted path is a walk from the start to the goal that repeats no
  cell. For `bfs` and `ucs` it is also a shortest one.
- After the search, the role of every cell is stated exactly.

Grid dimensions are unbounded `nat`s and scores are unbounded integers; the
source's `float("inf")` initial scores are modelled by the absence of a map
entry.

In two places the code does not give what these algorithms usually
guarantee, and the model follows the code:

- `ucs` keys its queue by `(cost, spot)` (searching_algorithms.py:227, 252),
  not by insertion order, so which of several cells of equal cost comes out
  first is left open.
- A depth-limited search usually finds the goal whenever a path of at most
  `limit` steps leads to it. `depth_limited_search` does not, because it
  never removes a came-from entry on backtrack
  (searching_algorithms.py:199-206): a cell first reached by a long branch
  stays blocked for shorter ones. `DepthLimited.ShortPathMissed` shows a
  3 by 3 grid where the goal is two steps away and the search with limit 3
  fails; `DepthLimited.GuardedShortPathMissed` shows the same for the search
  the model runs.

`dls` takes `limit=10` by default (searching_algorithms.py:210), and the
visualiser calls it without a limit (main.py:83). The model keeps the limit
a parameter; `DepthLimited.AsWrittenCycle` uses 10.

## Model

| member | source | states |
|---|---|---|
| SearchGrid.GridOf | searching_algorithms.py:27-29 | the barrier snapshot has the board's dimensions, and a cell is free in it exactly when it is on the board and not painted barrier |
| SearchGrid.Neighbors | searching_algorithms.py:27-29 | a neighbour list has at most four cells and holds exactly the free cells that share an edge with the cell |
| SearchGrid.UpdateNeighbors | searching_algorithms.py:27-29 | after the refresh loops every cell of the grid, and no other, has a list, and that list is its neighbour list |
| SearchGrid.Paint | searching_algorithms.py:49 | a `make_*` call changes the role of that one cell and no other |
| SearchGrid.ListedAreFree | searching_algorithms.py:44-45 | every listed neighbour is inside the grid and not a barrier of the snapshot |
| SearchGrid.RouteIsWalk | searching_algorithms.py:44-48 | a sequence of cells that starts in the grid is a route through the refreshed lists exactly when it is a walk on the grid |
| SearchGrid.ReachableIffConnected | searching_algorithms.py:44-48 | the goal can be reached through the lists from the start exactly when it is connected to it on the grid |
| SearchGrid.ClosedSetHoldsRoute | searching_algorithms.py:35-54 | a route that starts in a set holding every listed neighbour of its members stays in that set |
| SearchGrid.ClosedSetHoldsReachable | searching_algorithms.py:35-54 | every cell reachable from a member of such a set is in the set |
| SearchGrid.ComponentWithin | searching_algorithms.py:35-54 | every cell connected to a member of such a set is in the set |
| SearchGrid.RouteExtend | searching_algorithms.py:47-48 | a route from s to t followed by a listed neighbour n of t is a route from s to n |
| Heuristics.Manhattan | searching_algorithms.py:98-109 | the distance is 0 exactly when the two cells coincide |
| Heuristics.ManhattanSymmetric | searching_algorithms.py:107-109 | the distance does not depend on the order of the two cells |
| Heuristics.ManhattanStep | searching_algorithms.py:173 | moving to a neighbour changes the distance to the goal by at most one, in either direction |
| Heuristics.ManhattanAdmissible | searching_algorithms.py:107-109 | the distance between the ends of a walk never exceeds the walk's number of steps |
| Heuristics.ManhattanBelowReachCost | searching_algorithms.py:150 | the heuristic of the start never exceeds the number of steps of any walk from the start to the goal |
| PathReconstruction.ChainShape | searching_algorithms.py:10-14 | the cells the loop paints are, in order, `came_from[v]`, its predecessor and so on; the last has no entry; ranks strictly fall along the chain; `v` is not on it and no cell repeats |
| PathReconstruction.ChainSimple | searching_algorithms.py:10-14 | the goal followed by its chain repeats no cell |
| PathReconstruction.ChainIsFollow | searching_algorithms.py:11-12 | the i-th painted cell is where i+1 iterations of the loop body leave `current` |
| PathReconstruction.TwoCycleNotRanked | searching_algorithms.py:10-14 | a came-from map with a two-cell cycle has no ranking, so the termination argument does not apply to it |
| PathReconstruction.TwoCycleNeverEnds | searching_algorithms.py:11-12 | on a two-cell cycle the loop condition still holds after any number of iterations: the loop never ends |
| PathReconstruction.ReconstructPath | searching_algorithms.py:10-14 | on a ranked map the loop ends, paints exactly the chain of `current` as path, leaves every other cell alone and calls draw once per painted cell |
| PathReconstruction.FinishPath | searching_algorithms.py:161-164 | after the goal is reached: the chain is painted as path, the goal repainted as end (not in bfs), and the start repainted as start |
| PathReconstruction.ChainIsRoute | searching_algorithms.py:171 | in a predecessor tree rooted at the start, a ranked cell followed by its chain is a route from the start to it |
| PathReconstruction.ChainLength | searching_algorithms.py:201-202 | when every predecessor ranks exactly one below its cell and the start ranks 0, the chain of a cell is as long as its rank |
| PathReconstruction.TreeConnected | searching_algorithms.py:47 | every cell of a predecessor tree is connected to its root on the grid |
| PathReconstruction.TreePath | searching_algorithms.py:40 | the goal followed by its chain is a walk on the grid from the start to the goal that repeats no cell |
| Scores.ScoreBoundStep | searching_algorithms.py:170-172 | an improved score no larger than the number of scored cells keeps every score below that number |
| Scores.RankedStep | searching_algorithms.py:171 | recording `current` as predecessor of a cell whose score drops above `current`'s keeps the came-from map ranked by score |
| Scores.ScoredStep | searching_algorithms.py:168-172 | recording an improvement through a listed neighbour keeps the start at score 0 with no predecessor, and keeps the came-from map a predecessor tree ranked by score |
| Scores.BudgetMonotone | searching_algorithms.py:154-184 | when scores only fall and no score is lost, the termination measure does not grow |
| Scores.BudgetShrinks | searching_algorithms.py:154-184 | a strictly lower or new score makes the termination measure strictly smaller |
| AStar.PopMin | searching_algorithms.py:156 | `open_set.get()` removes one entry whose key (f, count) is least among all entries |
| AStar.InsertionOrder | searching_algorithms.py:176-177 | of the entries with equal f, the one released first is the one pushed first |
| AStar.PopQueued | searching_algorithms.py:156-159 | after a pop and the removal from `open_set_hash`, the hash is again exactly the set of queued cells |
| AStar.PushQueued | searching_algorithms.py:176-178 | a push with the next counter keeps the hash equal to the queued cells and the counters distinct |
| AStar.FScoredStep | searching_algorithms.py:172-173 | setting g and f together keeps f = g + Manhattan distance to the goal for every scored cell |
| AStar.ImproveScores | searching_algorithms.py:168-172 | an improvement through `current` keeps the scores and the came-from map a predecessor tree ranked by g |
| AStar.RelaxKeeps | searching_algorithms.py:167-179 | relaxing one neighbour keeps scores, f scores and open set consistent, and leaves the neighbour scored at most g(current)+1 |
| AStar.RelaxQueued | searching_algorithms.py:175-178 | a push only when the cell is not in the hash keeps hash and queue in step and adds at most that cell |
| AStar.Relax | searching_algorithms.py:167-179 | one pass of the neighbour loop: on an improvement came_from, g and f are updated and, if not in the hash, the neighbour is pushed with the next counter and painted open; otherwise nothing changes |
| AStar.ExpandSettled | searching_algorithms.py:167-179 | after the neighbour loop every listed neighbour of the expanded cell is scored |
| AStar.RelaxLowers | searching_algorithms.py:170-172 | g scores only decrease, and a changed score is witnessed |
| AStar.RelaxOpens | searching_algorithms.py:175-178 | no cell leaves the open set during expansion, and neither `current` nor the start is put back on it |
| AStar.RelaxedStep | searching_algorithms.py:167-179 | the neighbour loop's invariant survives one more neighbour |
| AStar.RelaxPaints | searching_algorithms.py:179 | the cells painted open so far are exactly the ones added to the hash |
| AStar.RelaxNext | searching_algorithms.py:167-179 | one neighbour relaxed, with consistency and the loop invariant kept |
| AStar.RelaxAll | searching_algorithms.py:167-179 | the neighbour loop keeps the state consistent, lowers scores only and paints open exactly the cells added to the hash |
| AStar.AstarExpand | searching_algorithms.py:167-182 | expanding a non-goal cell keeps the loop invariant, lowers scores only, shrinks the termination measure whenever a score changed, and paints newly queued cells open and `current` closed unless it is the start |
| AStar.PopSettled | searching_algorithms.py:158-161 | popping a non-goal cell leaves the goal, if scored, on the open set |
| AStar.AstarExhausted | searching_algorithms.py:154-184 | when the queue is empty the scored cells hold every listed neighbour of each of them, and not the goal |
| AStar.AstarRoleStep | searching_algorithms.py:179-182 | after each expansion every scored cell is open if in the hash, closed otherwise (the start keeps its role) |
| AStar.AstarLoop | searching_algorithms.py:154-184 | the main loop ends; on success the goal is scored; on failure the scored cells hold every neighbour of each of them and not the goal; roles are stated exactly |
| AStar.Astar | searching_algorithms.py:126-184 | succeeds exactly when the goal is connected to the start; discovered cells are connected; the painted path is a walk from start to goal repeating no cell; every role is stated |
| DepthLimited.RefreshedListed | searching_algorithms.py:212-214 | after the refresh every listed neighbour has a list of its own |
| DepthLimited.SearchGrows | searching_algorithms.py:186-208 | a call only adds came-from entries, never removes or rewrites one, never records a guarded cell, and succeeds exactly when it starts at the goal or records it |
| DepthLimited.ScanGrows | searching_algorithms.py:199-206 | the same for the neighbour loop, which succeeds only by recording the goal |
| DepthLimited.DepthCutoff | searching_algorithms.py:195-196 | at or below the limit no neighbour is tried: the call succeeds exactly when it is at the goal and the map is unchanged |
| DepthLimited.AsWrittenCycle | searching_algorithms.py:215-216 | as written, dls on a 1 by 3 row from the right cell to the left one with limit 10 succeeds with the cycle (0,1)→(0,2)→(0,1) in the came-from map, so reconstruct_path started at the goal never meets a cell without entry |
| DepthLimited.GuardedRow3 | searching_algorithms.py:199-203 | with the start guarded, the same run records only (0,1)→(0,2) and (0,0)→(0,1), and the chain from the goal reaches the start, which has no entry, after two steps |
| DepthLimited.CornerBranch | searching_algorithms.py:197-206 | on a 3 by 3 grid, entering (2, 0) at depth 2 with limit 3 when (1, 0) has an entry records only (2, 1), where the depth runs out, and fails |
| DepthLimited.CentreBranch | searching_algorithms.py:197-206 | on a 3 by 3 grid, entering (1, 1) at depth 2 with limit 3 records (0, 1) if it has no entry yet and (1, 2), skips the cells that have one, and fails |
| DepthLimited.ShortPathMissed | searching_algorithms.py:186-216 | as written, on a 3 by 3 grid without barriers, dls from (0, 0) with limit 3 fails although (0, 2) is two steps away: (0, 1) is recorded at depth 3 by a longer branch and then skipped |
| DepthLimited.GuardedShortPathMissed | searching_algorithms.py:186-216 | with the start guarded the same search fails too, (0, 1) being recorded from (1, 1) at depth 3 |
| DepthLimited.RecordKeepsTree | searching_algorithms.py:201-202 | recording `current` for an unrecorded neighbour one level deeper keeps a predecessor tree of depths within the limit, extending the old one |
| DepthLimited.TryPaints | searching_algorithms.py:203-206 | painting a neighbour open, searching from it and closing it on failure leaves it closed or on the path |
| DepthLimited.ScanPaints | searching_algorithms.py:199-206 | the cells closed by successive failed neighbours add up |
| DepthLimited.ScanSkips | searching_algorithms.py:200 | a recorded or guarded neighbour is skipped |
| DepthLimited.ScanTries | searching_algorithms.py:201-205 | a tried neighbour ends the loop with success or leaves the rest of it to run on the grown map |
| DepthLimited.Explore | searching_algorithms.py:202-203 | the neighbour is painted open and the recursive call computes what `Search` says, keeping the tree |
| DepthLimited.Descend | searching_algorithms.py:202-206 | the recursive step: result as `Search` says, tree kept, on success `current` is on the goal's chain, on failure the neighbour is closed |
| DepthLimited.Record | searching_algorithms.py:201-205 | recording a neighbour and searching from it computes what the neighbour loop says, and repaints exactly the newly recorded cells |
| DepthLimited.TryNeighbor | searching_algorithms.py:199-206 | one pass of the neighbour loop computes what `Scan` says and repaints as `Repaint` says |
| DepthLimited.ReachGoal | searching_algorithms.py:192-195 | at the goal the chain is painted as path and the goal as end |
| DepthLimited.TryAll | searching_algorithms.py:199-208 | the neighbour loop computes what `Scan` says, keeps the tree and repaints every cell as stated |
| DepthLimited.DepthLimitedSearch | searching_algorithms.py:186-208 | the recursive search computes what `Search` says, keeps the came-from map a tree of depths no deeper than the limit, and on success `current` is the goal or on its chain |
| DepthLimited.SearchFrom | searching_algorithms.py:215-216 | the outermost call starts from the start with an empty came-from map at depth 0; it computes what `Search` says from there, leaves a depth tree rooted at the start, and repaints exactly the recorded cells and, on success, the path |
| DepthLimited.DlsOutcome | searching_algorithms.py:215-216 | reading the outermost call's result: success exactly when start is end or end is recorded, and never past a limit of 0 unless start is end; the start never gets an entry; every recorded cell is connected to the start; on success the chain back from the goal is a walk repeating no cell, of at most `limit` steps |
| DepthLimited.Dls | searching_algorithms.py:210-219 | succeeds exactly when start is end or end is recorded; with limit 0 exactly when start is end; recorded cells are connected; the painted path is a walk repeating no cell of at most `limit` steps; start and end end up painted end |
| UniformCost.PopCheapest | searching_algorithms.py:235 | `pq.get()` removes one entry of least cost |
| UniformCost.PopKeyed | searching_algorithms.py:233-235 | the popped cost is no lower than the last one; a cell not yet expanded comes out at exactly its cost; every other unexpanded scored cell keeps an entry under its cost |
| UniformCost.PopExpanded | searching_algorithms.py:235-239 | after the pop the expanded cells still cost at most the popped cost and their neighbours at most one more; a new cell joins `visited` at the popped cost, its own neighbours still to be relaxed |
| UniformCost.UcsRelax | searching_algorithms.py:247-256 | one pass of the neighbour loop: a lower cost is recorded with its predecessor, pushed with that cost and painted open, and `current` is painted closed unless it is the start |
| UniformCost.UcsRelaxKeeps | searching_algorithms.py:247-252 | relaxing one neighbour keeps the cost tree and every queued cost at least the recorded one, and scores the neighbour |
| UniformCost.UcsRelaxLowers | searching_algorithms.py:249-250 | costs only decrease, and a change is witnessed |
| UniformCost.UcsRelaxOpens | searching_algorithms.py:249-253 | every newly scored cell is queued under its cost and was not expanded |
| UniformCost.UcsRelaxedStep | searching_algorithms.py:247-253 | the neighbour loop's invariant survives one more neighbour |
| UniformCost.RelaxPaints | searching_algorithms.py:253-256 | the cells painted open are the improved ones, and `current` is closed once a neighbour was looked at |
| UniformCost.UcsRelaxNext | searching_algorithms.py:247-256 | one neighbour relaxed, with the invariants kept and every predecessor still expanded and one cheaper |
| UniformCost.UcsRelaxAll | searching_algorithms.py:247-256 | the neighbour loop keeps the invariants and every predecessor expanded and one cheaper, opens exactly the improved cells, and closes `current` only if it has a neighbour |
| UniformCost.UcsExpand | searching_algorithms.py:247-256 | expanding scores every listed neighbour at most one above `current`, changes only the costs of unexpanded cells, each of which it queues under its new cost, keeps every predecessor expanded and one cheaper, shrinks the termination measure whenever a cost changed and otherwise leaves the queue unchanged |
| UniformCost.UcsExpandedStep | searching_algorithms.py:247-252 | after the expansion every scored cell not expanded has an entry under its cost, and every listed neighbour of every expanded cell is scored at most one above it |
| UniformCost.UcsRoleStep | searching_algorithms.py:253-256 | roles stay: open for scored cells not closed, closed for expanded cells with a neighbour |
| UniformCost.UcsExhausted | searching_algorithms.py:233-258 | when the queue is empty every scored cell was expanded, the scored cells hold all their neighbours, and the goal is not among them |
| UniformCost.UcsVisit | searching_algorithms.py:239-256 | visiting a new non-goal cell restores the loop state at the same last cost, keeps the costs of expanded cells, closes the cell exactly when it has a neighbour and opens exactly the improved cells |
| UniformCost.PopInOrder | searching_algorithms.py:235 | a popped cost no lower than the last keeps the popped costs non-decreasing |
| UniformCost.ExpandOnce | searching_algorithms.py:236-239 | a cell expanded only when not yet visited keeps the expansion order free of repeats |
| UniformCost.ExpandInOrder | searching_algorithms.py:235-239 | a cell expanded at a cost no lower than that of every cell expanded before keeps the expansion order sorted by cost |
| UniformCost.InOrderKept | searching_algorithms.py:247-256 | an expansion that leaves the costs of expanded cells unchanged keeps the expansion order sorted by cost |
| UniformCost.UcsUnitStep | searching_algorithms.py:249-251 | relaxing a neighbour from an expanded cell popped at its cost keeps every predecessor expanded and exactly one cheaper: an expanded cell never improves |
| UniformCost.UcsRouteBound | searching_algorithms.py:233-256 | along a route from the start, the k-th cell is already expanded at a cost of at most k, unless the cheapest queued cost is at most k |
| UniformCost.UcsShortest | searching_algorithms.py:235-241 | when the goal comes off the queue for the first time at cost c, no route from the start reaches it in fewer than c steps |
| UniformCost.UcsPop | searching_algorithms.py:235-241 | `pq.get()` with its bookkeeping: an already visited cell is skipped with the loop state kept; a new one comes out at its cost, joins `visited` and the expansion order, which stays sorted by cost; when it is the goal no route from the start is shorter than its cost |
| UniformCost.UcsLoop | searching_algorithms.py:233-258 | the main loop ends; popped costs never decrease; no cell is expanded twice, cells are expanded in order of cost and none costs more than the last pop; every predecessor is one cheaper; on success the goal was the last pop, at its cost, and no route from the start reaches it in fewer steps; on failure every scored cell was expanded, the scored cells hold all their neighbours, and not the goal |
| UniformCost.UcsOutcome | searching_algorithms.py:233-258 | reading the loop's result on the grid: success exactly when the goal is connected to the start; every scored cell is connected; after a failure every connected cell is scored; on success the chain back from the goal is a walk repeating no cell, as long as the goal's cost and no longer than any walk from start to goal |
| UniformCost.Ucs | searching_algorithms.py:221-258 | succeeds exactly when the goal is connected to the start; the painted path is a walk from start to goal repeating no cell, no longer than any walk between them, and as long as the last cost popped; popped costs never decrease; no cell is expanded twice and every expanded cell was discovered; on failure the discovered cells are the start's component and all were expanded; every role is stated |
| UninformedSearch.AddedExactly | searching_algorithms.py:44-48 | the neighbour loop pushes each unvisited listed neighbour exactly once |
| UninformedSearch.Expand | searching_algorithms.py:44-52 | the pushed cells are exactly the unvisited listed neighbours, in list order; each joins `visited`, records `current` and is painted open; `current` is closed unless it is the start |
| UninformedSearch.PushUnvisited | searching_algorithms.py:44-49 | the neighbour loop pushes exactly the listed cells that are neither visited nor barriers, once each and in list order; each joins `visited`, records `current` and is painted open, and no other cell changes |
| UninformedSearch.ExploredTree | searching_algorithms.py:46-47 | the came-from map is a predecessor tree ranked by depth, each predecessor one level up |
| UninformedSearch.ExploreStep | searching_algorithms.py:44-52 | expanding a non-goal cell keeps: `start` visited with no entry, came_from keys equal to visited minus start, every cell pushed once |
| UninformedSearch.QueueStep | searching_algorithms.py:37-48 | popping the head and pushing cells one level deeper keeps the queue sorted by depth over two adjacent levels |
| UninformedSearch.NeighborBoundStep | searching_algorithms.py:44-48 | a neighbour of an expanded cell is at most one level deeper than it |
| UninformedSearch.PopFront | searching_algorithms.py:37 | popping the head of a queue without repeats leaves the other cells |
| UninformedSearch.LayeredStep | searching_algorithms.py:35-52 | a bfs iteration keeps the explored state and the layering |
| UninformedSearch.LayeringStep | searching_algorithms.py:35-52 | a bfs iteration keeps the layering |
| UninformedSearch.LayerBound | searching_algorithms.py:31-48 | a cell k steps along a route from the start is visited at depth at most k |
| UninformedSearch.BfsShortest | searching_algorithms.py:31-48 | when the goal reaches the head of the queue its depth is at most the length of any route to it |
| UninformedSearch.PushedAreNeighbors | searching_algorithms.py:44-48 | since listed neighbours are never barriers, the barrier test drops nothing: the pushed cells are the unvisited listed neighbours |
| UninformedSearch.ExploreRoleStep | searching_algorithms.py:49-52 | roles after an expansion: discovered cells open, expanded ones closed, the start unchanged |
| UninformedSearch.VisitedGrows | searching_algorithms.py:45-46 | an expansion that pushes something shrinks the unvisited cells, otherwise leaves them |
| UninformedSearch.VisitedConnected | searching_algorithms.py:44-48 | every visited cell is connected to the start |
| UninformedSearch.ExhaustedClosed | searching_algorithms.py:35-54 | once the frontier is empty the visited cells hold every listed neighbour of each of them |
| UninformedSearch.ExhaustedIsComponent | searching_algorithms.py:54 | bfs and dfs return False only when the visited cells are exactly those connected to the start and the goal is not among them |
| UninformedSearch.BfsFound | searching_algorithms.py:39-42 | when bfs pops the goal its chain is a walk from the start no longer than any walk to it |
| UninformedSearch.BfsExpand | searching_algorithms.py:37-52 | one bfs iteration keeps the explored state and layering, paints as stated, and makes progress |
| UninformedSearch.BfsLoop | searching_algorithms.py:35-54 | the bfs loop ends, either with the goal at the head of the queue or with the queue empty |
| UninformedSearch.BfsOutcome | searching_algorithms.py:31-54 | when bfs's loop ends it has found the goal exactly when the goal is connected to the start; every visited cell is connected, and after a failed search every connected cell was visited; on success the chain back from the goal is a walk no longer than any walk from start to goal |
| UninformedSearch.Bfs | searching_algorithms.py:16-54 | succeeds exactly when the goal is connected; the path is a shortest walk from start to goal; every role is stated, the goal staying open |
| UninformedSearch.PopBack | searching_algorithms.py:77 | popping the top of a stack without repeats leaves the other cells |
| UninformedSearch.DfsFound | searching_algorithms.py:79-83 | when dfs pops the goal its chain is a walk from the start repeating no cell |
| UninformedSearch.DfsExpand | searching_algorithms.py:77-93 | one dfs iteration keeps the explored state, paints as stated, and makes progress |
| UninformedSearch.DfsLoop | searching_algorithms.py:75-95 | the dfs loop ends, either with the goal on top of the stack or with the stack empty |
| UninformedSearch.Dfs | searching_algorithms.py:56-95 | succeeds exactly when the goal is connected; the path is a walk from start to goal repeating no cell; every role is stated |

## Left out

- greedy, iddfs and ida: called from main.py:97-111 but not defined in the source (only TODO comments at searching_algorithms.py:261-266).
- h_euclidian_distance: floating point, and no search calls it.
- main.py: the pygame window, buttons, mouse and keyboard handling; the start and end cells are never barriers there (main.py:162-169), which every search takes as a precondition.
- draw: the callback only renders. It is counted (`draws`) only in `ReconstructPath`; the searches do not model its calls.
- Spot and Grid: not part of this model. `update_neighbors` is modelled as listing the free cells below, above, right and left of a cell, in that order; that order is assumed.
- PriorityQueue: modelled as a sequence with extract-min; its locking is not modelled.
- UniformCost.PopCheapest: among entries of equal cost the queue compares Spot objects, whose order is not part of this model, so any cheapest entry may come out.
- AStar.Astar: does not state that the path found is a shortest one; only that it is a walk from start to goal repeating no cell. A cell whose g score improves while it is in `open_set_hash` is not pushed again (searching_algorithms.py:175-178), so its queue entry keeps the older, larger f key. The usual argument that A* with a consistent heuristic pops each cell at its final score therefore does not apply.
- AStar.AstarLoop: the entry that seeds the queue carries key f = 0 (searching_algorithms.py:143) while the f score of the start is its heuristic; queue keys are not tied to f scores.
- DepthLimited.Dls: does not claim that a goal within `limit` steps is always found; as written it is not, since came-from entries survive backtracking (DepthLimited.ShortPathMissed, DepthLimited.GuardedShortPathMissed).
- DepthLimited.DepthLimitedSearch: the `is_barrier()` test is modelled on the role array but always passes, since listed neighbours are never barriers.
- DepthLimited.Dls: the model runs the corrected search, with the start never recorded; the as-written search is the pure `Search` with an empty guard (see Findings).
- DepthLimited.DepthLimitedSearch: runs the corrected search, with the start in the guard, so the start is never recorded (see Findings).
- DepthLimited.TryNeighbor: skips the start as a guarded cell, as the corrected search does (see Findings).
- DepthLimited.TryAll: computes the neighbour loop of the corrected search, with the start in the guard (see Findings).
- DepthLimited.SearchFrom: starts the corrected search, with the start in the guard (see Findings).

## Findings

| source | as written | input that shows it | evidently intended | confidence | as-written member | corrected member |
|---|---|---|---|---|---|---|
| searching_algorithms.py:215-216 | `dls` starts with an empty `came_from`, so the start has no entry and a neighbour may record `came_from[start] = neighbour` (line 202); the map then holds a two-cell cycle and `reconstruct_path` loops forever | a 1 by 3 row without barriers, start (0,2), end (0,0), limit 10: the search records (0,1)→(0,2), then (0,2)→(0,1) (the neighbour of (0,1) to its right comes first), then (0,0)→(0,1), and succeeds | the start is never recorded, so the came-from map is a tree rooted at the start and the path back from the goal ends there | not executed | DepthLimited.AsWrittenCycle | DepthLimited.Dls |
