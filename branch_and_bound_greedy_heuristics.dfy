/**
 * branch_and_bound_greedy_heuristics.py: simple paths ordered by the
 * heuristic of their last node alone, returning the first popped path
 * that reaches the goal together with its summed weight. Its `best_path`
 * is never assigned, so an exhausted queue yields `None, None`.
 */
module GreedyHeuristic {
  import opened Wrappers
  import opened ExtendedInt
  import opened Graph
  import opened PathQueue
  import GreedyExit

  /**
   * One pass of the `while queue` loop: pop an entry with the least
   * heuristic and hand it back if it reaches the goal; otherwise push its
   * extensions. The queue stays tracked, no path to the goal is lost and
   * the termination measure drops.
   */
  method Pass(g: Graph, h: map<Node, nat>, start: Node, goal: Node, queue: seq<Entry>)
      returns (queue': seq<Entry>, found: Option<Entry>)
    requires Closed(g) && queue != []
    requires AllTracked(g, start, ByHeuristic(h), queue)
    requires GreedyExit.CoveredWithin(g, start, goal, queue, PosInf)
    ensures found.Some? ==> Tracked(g, start, ByHeuristic(h), found.value) && found.value.node == goal
    ensures found.None? ==> AllTracked(g, start, ByHeuristic(h), queue')
    ensures found.None? ==> GreedyExit.CoveredWithin(g, start, goal, queue', PosInf)
    ensures found.None? ==> Measure(g, queue') < Measure(g, queue)
    ensures exists i :: GreedyExit.PassStep(g, ByHeuristic(h), goal, PosInf, queue, i, queue', found)
  {
    MinExists(queue);
    var i :| MinAt(queue, i);
    var e := queue[i];
    queue' := Remove(queue, i);
    if e.node == goal {
      found := Some(e);
      assert GreedyExit.PassStep(g, ByHeuristic(h), goal, PosInf, queue, i, queue', found);
      return;
    }
    found := None;
    GreedyExit.Expanded(g, start, goal, ByHeuristic(h), queue, i, PosInf);
    queue' := Branch(g, ByHeuristic(h), e, queue');
    assert GreedyExit.PassStep(g, ByHeuristic(h), goal, PosInf, queue, i, queue', found);
  }

  /**
   * `branch_and_bound_greedy_heuristic(graph, start, goal)` with the
   * heuristic table `h`. A returned path is simple, runs from `start` to
   * the goal and is reported with its cost; `None, None` comes back exactly
   * when the goal is unreachable.
   */
  method BranchAndBoundGreedyHeuristic(g: Graph, h: map<Node, nat>, start: Node, goal: Node)
      returns (path: Option<seq<Node>>, cost: Option<ExtInt>)
    requires Closed(g) && Weighted(g) && HasHeuristic(g, h) && start in g.adj
    ensures path.Some? <==> Reachable(g, start, goal)
    ensures path.Some? ==> SimplePath(g, start, goal, path.value) && cost == Some(Fin(PathCost(g, path.value)))
    ensures path.None? ==> cost.None?
  {
    var keying := ByHeuristic(h);
    var queue := [Entry(Key(keying, 0, start), 0, start, [start])];
    var bestPath: Option<seq<Node>> := None;
    var bestCost := PosInf;
    GreedyExit.Initial(g, start, goal, keying, PosInf);
    GreedyExit.Unbounded(g, start, goal);
    while queue != []
      invariant AllTracked(g, start, keying, queue)
      invariant GreedyExit.CoveredWithin(g, start, goal, queue, PosInf)
      decreases Measure(g, queue)
    {
      var found;
      queue, found := Pass(g, h, start, goal, queue);
      if found.Some? {
        var e := found.value;
        SumWeightsIsCost(g, e.path);
        return Some(e.path), Some(Fin(SumWeights(g, e.path)));
      }
    }
    path := bestPath;
    cost := if bestPath.Some? then Some(bestCost) else None;
  }
}
