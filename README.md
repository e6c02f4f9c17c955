# Graph and game-tree search algorithms, modelled in Dafny

This project models the search algorithms of a small collection of
visualisation apps. Each app pairs one algorithm with a user interface;
only the algorithms are modelled here:

- uninformed search:
  - breadth-first search over a FIFO of whole paths (`BFS.py`);
  - recursive depth-first search sharing one visited set (`DFS.py`);
  - bidirectional search with two FIFOs and two parent maps (`BMS.py`);
- informed and bounded search:
  - A* with a closed set and a best-cost map (`a_star.py`);
  - four priority-queue branch-and-bound searches (`Branch_and_Bound.py`,
    `branch_and_bound_heuristics.py`, `branch_and_bound_greedy_exit.py`,
    `branch_and_bound_greedy_heuristics.py`);
  - beam search (`Beam_Search.py`);
  - hill climbing (`Hill_Climbing.py`);
- game-tree evaluation: minimax (`Min_Max.py`) and alpha-beta pruning
  (`alpha_beta_pruning.py`).

The shared graph (module `Graph`, `graph.dfy`) has two parts:

- an adjacency map from each node to the ordered sequence of its
  neighbours, in the order the graph library reports them;
- a weight for each ordered pair of nodes.

Each search requires only the properties it relies on:

- `Closed`: every neighbour is a node;
- `Undirected`: adjacency is symmetric;
- `Weighted`: every edge `(u, v)` has a weight. Weights are natural numbers;
  zero weights are allowed, and `(u, v)` and `(v, u)` may carry different weights.

Heuristics are maps from nodes to natural numbers, and leaf scores are
integers. The infinite sentinels `float('inf')` and `float('-inf')` are the
`PosInf` and `NegInf` of `ExtendedInt.ExtInt`. A walk's cost (`PathCost`)
is the sum of its edge weights.

Each file follows the form of its source:

- The stateful searches are methods with loops and invariants.
- The loop body of the longer searches is a separate `Pass` or `Round`
  method, and the invariant it keeps is proved by a few lemmas.
- The four branch-and-bound searches share one priority queue of entries
  (`PathQueue`, `path_queue.dfy`). An entry is `(key, cost, node, path)`,
  and `Keying` says how its key is computed:
  - `ByCost`: by cost, in `Branch_and_Bound.py`;
  - `ByEstimate(h)`: by cost plus heuristic, in the heuristic and
    greedy-exit files and in A*;
  - `ByHeuristic(h)`: by heuristic only, in the greedy-heuristic file.
- `heappop` may return any entry whose key is minimal. Every property
  therefore holds whichever way the heap breaks ties.
- The searches terminate because of a potential over the simple
  extensions of the queued paths. For A* the measure is the number of
  unvisited nodes and the queue length.
- The `visited` set that `DFS.py` threads through its recursive calls is
  a class, `DepthFirst.VisitedSet`.
- Minimax and alpha-beta are recursive functions over a successor map
  and a score map. They require a ghost rank map that drops along every
  edge out of an unscored node, so the tree is assumed acyclic.

Several behaviours of the source are modelled exactly as written:

- The greedy-exit search never tightens its bound, so its prune never
  fires. The guard is kept in the model.
- Bidirectional search returns a path from `goal` to `start` when the two
  sides meet during the goal-side expansion. The ghost out-parameter
  `fromGoalSide` says which direction was returned.
- Minimax and alpha-beta return minus or plus infinity for a childless
  node without a score.
- `best_path, best_cost if best_path else None` is the pair
  `(None, None)` when no path was found.

## Model

| member | source | states |
|---|---|---|
| Graph.SumWeightsIsCost | branch_and_bound_greedy_heuristics.py:36 | the sum of `weight(path[i], path[i+1])` over consecutive pairs equals the path's cost |
| PathQueue.MinExists | Branch_and_Bound.py:28 | a non-empty heap always has an entry with no smaller key, so the pop is defined |
| PathQueue.Key | Branch_and_Bound.py:45 | the key a push uses: the cost (`Branch_and_Bound.py`), the cost plus the heuristic (`a_star.py:48`, g+h variants), or the heuristic alone (greedy heuristic) |
| PathQueue.MinAt | Branch_and_Bound.py:28 | `heappop` may return the entry at `i` when no queued entry has a smaller key |
| PathQueue.Extensions | Branch_and_Bound.py:41-45 | the entries the branching loop pushes: one per neighbour not on the path, in adjacency order, extending path and cost by that edge |
| PathQueue.Remove | Branch_and_Bound.py:28 | popping entry `i` keeps every other entry in order and removes exactly that entry from the multiset |
| PathQueue.Branch | Branch_and_Bound.py:41-45 | the branching loop appends exactly one entry per neighbour not already on the path, in adjacency order |
| PathQueue.ExtensionsTracked | Branch_and_Bound.py:41-45 | every pushed entry extends the popped path by a node not on it, stays a simple path from `start`, carries its summed weight as cost, and is keyed by the search's keying |
| PathQueue.ExtensionsHave | Branch_and_Bound.py:41-42 | every neighbour not yet on the path gets an entry extending the path by that neighbour |
| PathQueue.ExpansionTracked | branch_and_bound_heuristics.py:46-51 | replacing a popped entry by its extensions keeps every queued entry well formed |
| PathQueue.ExpansionShrinks | Branch_and_Bound.py:26-45 | expanding a popped entry strictly decreases the termination measure, because each simple path is pushed at most once |
| PathQueue.ExtensionsLighter | Branch_and_Bound.py:41-45 | the extensions of an entry together weigh less than the entry in the termination potential |
| PathQueue.FullPathStops | Branch_and_Bound.py:42 | a path that already holds every node has no extension |
| PathQueue.PopShrinks | Branch_and_Bound.py:37-38 | a pop without expansion strictly decreases the termination measure |
| PathQueue.PrefixedAfterPop | Branch_and_Bound.py:28 | a queued prefix of a path that was not the popped entry stays queued |
| PathQueue.PrefixedAfterExpansion | Branch_and_Bound.py:41-45 | when the popped entry is a proper prefix of a simple start-goal path, one of its extensions is a longer prefix of it |
| BranchBound.BranchAndBound | Branch_and_Bound.py:19-47 | a path is returned exactly when the goal is reachable; it is simple, runs from `start` to `goal`, costs no more than any start-goal walk, and is returned with its summed weight; otherwise the result is `(None, None)` |
| BranchBound.BranchAndBoundHeuristic | branch_and_bound_heuristics.py:24-53 | the same guarantees as plain branch and bound, for any heuristic: pruning compares the raw cost and the queue is always drained |
| BranchBound.Search | Branch_and_Bound.py:19-47 | the shared search for both keyings: result exists exactly when the goal is reachable, is a simple path, is optimal over all start-goal walks and comes with its cost; `(None, None)` otherwise |
| BranchBound.PassStep | Branch_and_Bound.py:27-45 | the step one iteration takes, stated on the popped index: the bound update, the prune and the expansion |
| BranchBound.Pass | Branch_and_Bound.py:27-45 | one iteration pops an entry with a minimal key (`PassStep`); `best_cost` and `best_path` change only when it is a goal entry strictly cheaper than `best_cost`, and then take its cost and path; it is dropped when it costs at least the updated `best_cost` (so a goal entry is never expanded), and otherwise exactly its extensions are pushed; the queue stays well formed, every cheaper simple path stays covered by a queued prefix, and the measure decreases |
| BranchBound.Initial | Branch_and_Bound.py:21-24 | the initial queue `[(0, start, [start])]` with `best_cost = inf` satisfies the invariant |
| BranchBound.Step | Branch_and_Bound.py:30-45 | after a prune or an expansion, every simple start-goal path is either no cheaper than `best_cost` or still has a queued prefix |
| BranchBound.StepCovered | Branch_and_Bound.py:30-45 | the same coverage step for one simple start-goal path |
| BranchBound.Pruned | Branch_and_Bound.py:36-38 | dropping an entry whose cost reaches `best_cost` keeps the invariant and decreases the measure |
| BranchBound.Expanded | Branch_and_Bound.py:40-45 | expanding an entry that is not at the goal keeps the invariant and decreases the measure |
| BranchBound.Exhausted | Branch_and_Bound.py:47 | when the queue is empty, a best path exists exactly when the goal is reachable, and it is optimal over every start-goal walk |
| GreedyExit.BranchAndBoundGreedyExit | branch_and_bound_greedy_exit.py:24-52 | a returned path is simple, runs from `start` to `goal`, comes with its summed weight and costs at most `exit_bound`; `(None, None)` exactly when no simple path is within the bound; with an infinite bound a path is returned exactly when the goal is reachable |
| GreedyExit.Pass | branch_and_bound_greedy_exit.py:32-49 | one iteration pops an entry with a minimal key (`PassStep`) and returns it exactly when it is at the goal within the bound; otherwise exactly its extensions are pushed, every simple path within the bound stays covered by a queued prefix, and the measure decreases |
| GreedyExit.PassStep | branch_and_bound_greedy_exit.py:32-49 | the step one iteration takes, stated on the popped index: return within the bound, or expansion |
| GreedyExit.Step | branch_and_bound_greedy_exit.py:36-49 | expanding an entry other than a goal within the bound (an over-bound goal included) keeps every simple path within the bound covered |
| GreedyExit.StepCovered | branch_and_bound_greedy_exit.py:36-49 | the same coverage step for one simple path within the bound |
| GreedyExit.Expanded | branch_and_bound_greedy_exit.py:44-49 | that expansion keeps every entry well formed and decreases the measure |
| GreedyExit.PrefixAtEnd | branch_and_bound_greedy_exit.py:36-37 | a queued prefix of a simple path that already ends at the path's last node is the whole path |
| GreedyExit.Initial | branch_and_bound_greedy_exit.py:26-29 | the initial queue covers every simple path within any bound |
| GreedyExit.Unbounded | branch_and_bound_greedy_exit.py:24 | with the default bound `inf`, a simple path within the bound exists exactly when the goal is reachable |
| GreedyHeuristic.BranchAndBoundGreedyHeuristic | branch_and_bound_greedy_heuristics.py:24-45 | a path is returned exactly when the goal is reachable; it is simple, runs from `start` to `goal` and is returned with its summed weight; otherwise `(None, None)` |
| GreedyHeuristic.Pass | branch_and_bound_greedy_heuristics.py:30-43 | one iteration pops an entry with the least heuristic (`GreedyExit.PassStep` with an infinite bound) and returns it exactly when it is at the goal; otherwise exactly its extensions are pushed, every queued entry stays a simple path from `start` keyed by its heuristic, every simple path to the goal stays covered by a queued prefix, and the measure decreases |
| AStar.AStarSearch | a_star.py:24-52 | a path is returned exactly when the goal is reachable; it is a walk from `start` to `goal` returned with its summed weight; otherwise the result is `(None, inf)` |
| AStar.Pass | a_star.py:31-50 | one iteration pops an entry with a minimal key (`PassStep`) and returns it exactly when it is at the goal, before the closed-set test; a popped node already visited changes nothing else; otherwise the node is closed and the queue and `best_cost` become those of relaxing its neighbours; the invariant holds and either the unvisited nodes or the queue shrink |
| AStar.PassStep | a_star.py:31-50 | the step one iteration takes, stated on the popped index: goal test, closed-set skip, or closing and relaxation |
| AStar.Relax | a_star.py:44-50 | the neighbour loop as a fold: a neighbour gets its new cost recorded and an entry pushed when it has no recorded cost or the new one is strictly lower |
| AStar.ExploreNeighbors | a_star.py:44-50 | the neighbour loop appends exactly the pushes of the relaxation and leaves `best_cost` as the relaxation's map |
| AStar.RelaxKeys | a_star.py:44-47 | after the loop, `best_cost` records exactly the old nodes plus every neighbour |
| AStar.RelaxMonotone | a_star.py:46-47 | a recorded best cost never increases |
| AStar.RelaxImproves | a_star.py:45-50 | every pushed entry is a neighbour whose path extends the popped path by one edge, whose cost adds that edge's weight, whose key is cost plus heuristic, and whose cost is new or strictly below the old best |
| AStar.RelaxPushesNew | a_star.py:46-50 | a neighbour with no recorded cost is always pushed |
| AStar.RelaxWalked | a_star.py:45-50 | every pushed entry carries a walk from `start` and that walk's summed weight |
| AStar.StillQueued | a_star.py:32 | a node queued in an entry other than the popped one stays queued |
| AStar.Skipped | a_star.py:39-40 | skipping a popped node that is already visited keeps the invariant |
| AStar.ClosingAccounts | a_star.py:41-50 | after a node is closed, every node with a recorded cost is visited or queued |
| AStar.Closing | a_star.py:41-50 | closing a popped unvisited node other than the goal and relaxing its neighbours keeps the invariant |
| AStar.Initial | a_star.py:26-28 | the initial queue, empty closed set and `{start: 0}` satisfy the invariant |
| AStar.Exhausted | a_star.py:52 | when the queue is empty, the goal is unreachable |
| BreadthFirst.Bfs | BFS.py:19-43 | returns `[start]` when `start == goal`; a returned path is a walk from `start` to `goal` with no more nodes than any other such walk; `None` exactly when the goal is unreachable |
| BreadthFirst.Extensions | BFS.py:33-36 | one copied path per neighbour, in adjacency order, each extending the popped path by that neighbour |
| BreadthFirst.ExpandPath | BFS.py:33-39 | the neighbour loop returns the extended path as soon as the goal is a neighbour, and otherwise appends every extension |
| BreadthFirst.InitialInv | BFS.py:20-24 | the queue `[[start]]` and an empty visited set satisfy the invariant |
| BreadthFirst.FoundIsShortest | BFS.py:38-39 | the path returned at enqueue time is a shortest start-goal walk |
| BreadthFirst.Exhausted | BFS.py:43 | when the queue is empty, the goal is unreachable |
| BreadthFirst.StepInv | BFS.py:27-41 | popping a path, expanding it if its node is unvisited, and marking that node visited keeps the invariant |
| BreadthFirst.StepWalks | BFS.py:30-41 | every queued path stays a walk from `start` that avoids the goal, and visited nodes stay in the graph |
| BreadthFirst.StepLayered | BFS.py:27-36 | queued paths stay ordered by length, at most one apart |
| BreadthFirst.StepClosed | BFS.py:30-41 | the neighbours of visited nodes stay visited or queued |
| BreadthFirst.StepQueued | BFS.py:27-36 | a node queued within a length bound stays queued within it, unless it was the node just visited |
| BreadthFirst.StepCovered | BFS.py:27-41 | every walk from `start` no longer than the queue's shortest path ends at a visited or queued node |
| BreadthFirst.StepCoveredLonger | BFS.py:33-36 | a walk one node longer than the popped path ends at a visited node or at a node queued within its length |
| BreadthFirst.HeadExtended | BFS.py:33-36 | every neighbour of the popped path's node is queued with a path one node longer |
| DepthFirst.VisitedSet.constructor | DFS.py:21-22 | a fresh visited set is empty |
| DepthFirst.VisitedSet.Add | DFS.py:24 | adding a node adds exactly that node |
| DepthFirst.VisitedSet.Contains | DFS.py:30 | membership in the shared visited set |
| DepthFirst.Dfs | DFS.py:18-34 | marks the current node visited; returns the current path at the goal; a returned path extends the given one to the goal without repeating a node; when nothing is found, the goal was not reached and every neighbour of a node this call marked is marked |
| DepthFirst.DfsSearch | DFS.py:18-34 | a returned path is a simple path from `start` to `goal`; `None` exactly when the goal is unreachable; `[start]` when `start == goal` |
| Bidirectional.BidirectionalSearch | BMS.py:19-44 | returns `[start]` when `start == goal`; a returned path is simple and runs from `start` to `goal`, or from `goal` to `start` when the sides met during the goal-side expansion; `None` exactly when the goal is unreachable |
| Bidirectional.Round | BMS.py:31-42 | one round runs `Expand` on the start side against the goal map; if that meets nothing it runs `Expand` on the goal side against the grown start map; each side's new state is the pass over its popped node's neighbours, or the stopping point of that pass (`MetAt`) when the sides meet, with the goal side then untouched after a start-side meeting; it returns a simple path in the direction of the expanding side, or keeps both sides' invariants with disjoint maps while the measure decreases |
| Bidirectional.Expand | BMS.py:47-58 | pops the front node and records each new neighbour's parent and enqueues it; when a newly recorded neighbour is in the other map, the pass stops there, no earlier neighbour met, and the path is `construct_path` at that neighbour, simple and between the two roots (`MetAt`); otherwise the side's state is the pass over all neighbours |
| Bidirectional.Scan | BMS.py:50-56 | the neighbour loop's state is the pass over a prefix of the neighbours; it stops early exactly at the first newly recorded neighbour that the other map holds, with `construct_path` at that neighbour as a simple path between the roots |
| Bidirectional.MetAt | BMS.py:50-56 | where a meeting stops the pass: the neighbours before it met nothing, the meeting neighbour was new here and recorded on the other side, the state is the pass up to it, and the path is `construct_path` there |
| Bidirectional.Visit | BMS.py:50-53 | the neighbour loop as a fold: each neighbour not yet recorded gets `current` as parent and is appended to the queue |
| Bidirectional.ChainFrom | BMS.py:64-67 | the nodes the `while node` loop visits from a node up to the root |
| Bidirectional.VisitGrows | BMS.py:50-53 | existing parents are unchanged and every new entry's parent is the popped node |
| Bidirectional.VisitKeys | BMS.py:50-53 | the parent map gains exactly the neighbours |
| Bidirectional.VisitQueue | BMS.py:52-53 | the queue keeps its old contents and gains exactly the newly recorded nodes |
| Bidirectional.VisitCount | BMS.py:51-53 | the queue grows by as many nodes as the parent map gains, so each node is queued at most once |
| Bidirectional.VisitTree | BMS.py:51-52 | the parent map stays a tree of graph edges rooted at the side's root |
| Bidirectional.Settle | BMS.py:48-53 | the pass keeps the parent map within the graph and does not raise the side's measure |
| Bidirectional.Progress | BMS.py:48-53 | popping one node and recording as many new nodes as are queued strictly decreases the side's measure |
| Bidirectional.Finish | BMS.py:47-58 | a pass that meets nothing keeps the side's invariant, with the popped node expanded |
| Bidirectional.Fresh | BMS.py:24-29 | a side with only its root queued and recorded satisfies the invariant |
| Bidirectional.Exhausted | BMS.py:31 | when a side's queue is empty, its parent map is closed under adjacency |
| Bidirectional.Stalled | BMS.py:31-44 | when either queue empties with disjoint maps, the goal is unreachable |
| Bidirectional.DeadEnd | BMS.py:44 | a node outside a set closed under adjacency that holds the root cannot be reached |
| Bidirectional.GoalSideReachable | BMS.py:40-42 | a path found from the goal side still witnesses that the goal is reachable |
| Bidirectional.Join | BMS.py:55-56 | the path built at a meeting node is the reversed parent chain from it followed by the other map's chain from its parent, and is simple from the first map's root to the other map's root |
| Bidirectional.ConstructPath | BMS.py:61-77 | the result is the reversed parent chain from the meeting node, followed by the other map's chain from the meeting node's parent |
| Bidirectional.ChainFacts | BMS.py:64-67 | a parent chain starts at its node, ends at the root, follows recorded parents, and strictly descends in depth |
| Bidirectional.ChainWalk | BMS.py:64-67 | a parent chain is a walk with no repeated node |
| Bidirectional.ReversedChain | BMS.py:62-68 | the reversed chain runs from the root to the meeting node without repeating a node |
| Bidirectional.ParentChain | BMS.py:71-75 | the other side's chain starts next to the meeting node, ends at its root and never contains the meeting node |
| Bidirectional.JoinDistinct | BMS.py:77 | the two halves share no node, so their concatenation repeats none |
| Bidirectional.MeetingPath | BMS.py:61-77 | the constructed path is simple, with the meeting node exactly once, and runs between the two roots |
| BeamSearch.Search | Beam_Search.py:24-49 | the search's result is the layered run from the beam `[(start, [start])]` |
| BeamSearch.BeamRun | Beam_Search.py:25-49 | the rounds of the `while current_nodes` loop: return the first member at the goal, stop on an empty next beam, otherwise continue from it |
| BeamSearch.Candidates | Beam_Search.py:31-39 | the `next_nodes` list: each member's extensions in beam order |
| BeamSearch.NextBeam | Beam_Search.py:42 | the candidates stably sorted by heuristic and cut to `beam_width` |
| BeamSearch.Take | Beam_Search.py:42 | the slice `[:beam_width]` |
| BeamSearch.BeamRunSound | Beam_Search.py:25-49 | a path returned by the layered run is a simple path from `start` to `goal` |
| BeamSearch.StartIsGoal | Beam_Search.py:25-33 | when `start == goal` the run returns `[start]` |
| BeamSearch.ExpandBeam | Beam_Search.py:31-39 | the beam loop returns the path of the first member at the goal; otherwise it builds every candidate |
| BeamSearch.ExpandInto | Beam_Search.py:35-39 | expanding one member appends its extensions to the candidate list |
| BeamSearch.FirstGoal | Beam_Search.py:31-33 | `None` exactly when no member is at the goal; otherwise the path of the first such member |
| BeamSearch.FirstGoalAt | Beam_Search.py:31-33 | the first member at the goal determines the result |
| BeamSearch.NoGoalExtends | Beam_Search.py:31-33 | passing a member that is not at the goal changes nothing |
| BeamSearch.ExtendMembers | Beam_Search.py:36-39 | a member's extensions are exactly its neighbours not on its path, each with the path extended by it |
| BeamSearch.CandidatesAreExtensions | Beam_Search.py:31-39 | every candidate extends some beam member by a neighbour not on its path, and every such extension is a candidate |
| BeamSearch.Insert | Beam_Search.py:42 | insertion keeps every element and adds exactly one |
| BeamSearch.InsertSorted | Beam_Search.py:42 | inserting into a list sorted by heuristic keeps it sorted |
| BeamSearch.InsertWithKey | Beam_Search.py:42 | among the entries of any one heuristic value, insertion puts the new entry first and keeps the others in order; the sort inserts from the back, so equal keys keep their original order |
| BeamSearch.SortByHeuristic | Beam_Search.py:42 | sorting is a permutation |
| BeamSearch.SortIsStableSort | Beam_Search.py:42 | the sort is ordered by heuristic, is a permutation, and keeps the original order among candidates with equal heuristic |
| BeamSearch.TakeSorted | Beam_Search.py:42 | the cut keeps at most `beam_width` candidates, sorted, and none dropped has a smaller heuristic than one kept |
| BeamSearch.NextBeamKeepsBest | Beam_Search.py:42 | the next beam holds at most `beam_width` candidates, sorted, and every dropped candidate's heuristic is at least that of every kept one |
| BeamSearch.NextBeamInv | Beam_Search.py:38-47 | after round `k` every beam path is simple, starts at `start` and has `k + 1` nodes |
| HillClimbing.HillClimbingSearch | Hill_Climbing.py:24-46 | the result is the climb from `start` when it ends at the goal, and `None` otherwise |
| HillClimbing.Climb | Hill_Climbing.py:25-41 | the walk the loop takes: stop at the goal, at a node without neighbours or when the best neighbour is no better; otherwise move to the first best neighbour |
| HillClimbing.BestNeighbour | Hill_Climbing.py:35 | the chosen neighbour has the minimal heuristic among the neighbours |
| HillClimbing.BestNeighbourIsFirst | Hill_Climbing.py:35 | the chosen neighbour is the first one with that minimal heuristic |
| HillClimbing.ClimbStep | Hill_Climbing.py:40-41 | moving to a strictly better neighbour appends it to the climb |
| HillClimbing.ClimbDescends | Hill_Climbing.py:37-41 | the climb is a walk from its start, the heuristic strictly decreases along it, and no node repeats |
| HillClimbing.ClimbIsWalk | Hill_Climbing.py:29-41 | consecutive nodes of the climb are adjacent |
| HillClimbing.ClimbDecreases | Hill_Climbing.py:37-41 | the heuristic strictly decreases along the climb |
| HillClimbing.ClimbMoves | Hill_Climbing.py:35-41 | every step of the climb moves from a non-goal node to its first best neighbour |
| HillClimbing.MovesToBestCons | Hill_Climbing.py:35-41 | prepending a step to a best neighbour keeps every step a move to the best neighbour |
| HillClimbing.ClimbStops | Hill_Climbing.py:28-38 | the climb ends at the goal, at a node without neighbours, or where the best neighbour is no better |
| HillClimbing.HillClimbingResult | Hill_Climbing.py:43-46 | a climb that ends at the goal is a simple path from `start`, and `start == goal` yields `[start]` |
| MinMax.MinimaxValue | Min_Max.py:24-43 | a scored node returns its score; an unscored childless node returns `-inf` when maximising and `+inf` when minimising; a maximising value is at least every child's, a minimising one at most every child's, and with children it equals some child's value |
| MinMax.Minimax | Min_Max.py:24-43 | a scored node evaluates to its score; otherwise the running maximum or minimum of the children from `-inf` or `+inf` |
| MinMax.MaxFold | Min_Max.py:32-37 | the maximising loop as a fold |
| MinMax.MinFold | Min_Max.py:38-43 | the minimising loop as a fold |
| MinMax.MaxFoldIsMaximum | Min_Max.py:32-37 | the maximising loop returns a value at least its start and every child's, equal to its start or to one child's |
| MinMax.MinFoldIsMinimum | Min_Max.py:38-43 | the minimising loop returns a value at most its start and every child's, equal to its start or to one child's |
| AlphaBetaPruning.AlphaBetaIsMinimax | alpha_beta_pruning.py:24-49 | with the window `(-inf, +inf)` alpha-beta returns exactly the minimax value |
| AlphaBetaPruning.AlphaBeta | alpha_beta_pruning.py:24-49 | a scored node evaluates to its score; otherwise the maximising or minimising loop from `-inf` or `+inf` |
| AlphaBetaPruning.MaxLoop | alpha_beta_pruning.py:32-40 | the maximising loop: raise `alpha` to each child's value and stop on `beta <= alpha` |
| AlphaBetaPruning.MinLoop | alpha_beta_pruning.py:41-49 | the minimising loop: lower `beta` to each child's value and stop on `beta <= alpha` |
| AlphaBetaPruning.AlphaBetaWindow | alpha_beta_pruning.py:32-49 | for any window `alpha < beta`, the result equals the minimax value strictly inside the window, is at most `alpha` when the value is, and at least `beta` when the value is |
| AlphaBetaPruning.AlphaBetaBounds | alpha_beta_pruning.py:32-49 | the result is at most `alpha` exactly when the minimax value is, and at least `beta` exactly when the minimax value is |
| AlphaBetaPruning.AlphaBetaLeaf | alpha_beta_pruning.py:26-27 | a scored node returns its score whatever the window; an unscored childless node returns `-inf` maximising and `+inf` minimising |
| AlphaBetaPruning.CutoffSkipsRest | alpha_beta_pruning.py:36-48 | once a child's value closes the window (`beta <= alpha`), the children after it do not affect the result |
| AlphaBetaPruning.MaxLoopWindow | alpha_beta_pruning.py:32-40 | the maximising loop agrees with the maximum over the children within the window it started with |
| AlphaBetaPruning.MinLoopWindow | alpha_beta_pruning.py:41-49 | the minimising loop agrees with the minimum over the children within the window it started with |
| AlphaBetaPruning.MaxLoopStep | alpha_beta_pruning.py:35-37 | evaluating a child without a cutoff keeps the running maximum exact above the starting `alpha` |
| AlphaBetaPruning.MinLoopStep | alpha_beta_pruning.py:44-46 | evaluating a child without a cutoff keeps the running minimum exact below the starting `beta` |
| AlphaBetaPruning.MaxLoopCutoff | alpha_beta_pruning.py:38-39 | a beta cutoff happens only when the true maximum reaches `beta`, so the result still agrees with it |
| AlphaBetaPruning.MinLoopCutoff | alpha_beta_pruning.py:47-48 | an alpha cutoff happens only when the true minimum falls to `alpha`, so the result still agrees with it |
| AlphaBetaPruning.MaxLoopDone | alpha_beta_pruning.py:40 | a maximising loop that ran through every child returns a value agreeing with the true maximum |
| AlphaBetaPruning.MinLoopDone | alpha_beta_pruning.py:49 | a minimising loop that ran through every child returns a value agreeing with the true minimum |

## Left out

- The user interface, session state, the `add_node`/`add_edge` helpers and the plotting code are not modelled. The graph, heuristic map and score map are parameters.
- `Oracle.py` only calls the graph library's shortest-path routine, so it is not part of this model.
- Weights, heuristics and scores are floats in the source. Here they are integers: natural weights (zero included), natural heuristics and integer scores. The infinities are `ExtInt` values.
- `heapq` orders entries by the whole tuple. The tuples are `(cost, node, path)`, `(cost + h, cost, node, path)` and `(h, node, path)`, so ties on the key are broken by the cost where the tuple has one (A* and the g+h variants), then by node name, then by path. The model lets a pop return any entry with a minimal key (`PathQueue.MinAt`), so it also drops the cost tie-break. Every proved property holds for any such choice, but the exact tie-break is not pinned down.
- A lookup of a missing key raises `KeyError` in the source. The model makes the corresponding facts preconditions instead: every neighbour is a node, every node has a heuristic, and `start` is a node. The user interface only offers existing nodes.
- When `start == goal` but `start` is not a node, the source still returns `[start]` from some searches. Here `start` must be a node.
- Bidirectional search's `while node:` stops at a `None` parent. It would also stop at an empty node name, which the user interface never creates, so the model stops only at `None`.
- Bidirectional search mutates its deques and parent dictionaries in place. The model passes them as values that `Expand` returns updated; no other code shares them.
- The unused `visited` sets of the branch-and-bound files and the unused `random` imports are not modelled.
- `GreedyHeuristic.BranchAndBoundGreedyHeuristic` uses queue entries that carry a cost field the source's tuple does not have. The key ignores the cost, and the returned cost is recomputed from the path as in the source.
- Plain branch and bound and its heuristic variant are one method, `BranchBound.Search`, that takes the key function as a parameter. The two source functions differ only in their keys.
- Beam search's stable sort is modelled as an insertion sort that takes entries from the back and puts each one ahead of the equal-keyed entries that followed it.
- AStar.AStarSearch: does not state that the returned cost is minimal for a consistent heuristic. It states only that the path is a walk from `start` to `goal` carrying its own cost, and that a path is found exactly when the goal is reachable.
- DepthFirst.Dfs: does not state that the first neighbour, in adjacency order, that leads to the goal is the one followed. The loop does follow that order, as the source does.
- BeamSearch.Search: specified by the ghost function `BeamRun`, which replays the rounds. What is proved about the result is that a returned path is simple and runs from `start` to `goal`, and that `start == goal` returns `[start]`. The search is incomplete, so no reachability statement is made.
- HillClimbing.HillClimbingSearch: specified by the ghost function `Climb`, which replays the walk. The properties of the walk are proved as lemmas about `Climb`.
- Game trees must be acyclic, which the ghost rank map witnesses. On a cyclic graph the source recurses without end.
