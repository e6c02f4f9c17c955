/**
 * Branch_and_Bound.py and branch_and_bound_heuristics.py: a best-first
 * enumeration of the paths from `start` that repeat no node, keeping the
 * cheapest path found to the goal and pruning every path that costs at
 * least as much. The two files differ only in the key a path is queued
 * under (its cost, or its cost plus the heuristic of its last node), so
 * both are `Search` with a different `Keying`.
 */
module BranchBound {
  import opened Wrappers
  import opened ExtendedInt
  import opened Graph
  import opened PathQueue

  /** `best_path` is `None` exactly while `best_cost` is infinite, and otherwise a path to the goal costing `best_cost`. */
  ghost predicate Best(g: Graph, start: Node, goal: Node, bestPath: Option<seq<Node>>, bestCost: ExtInt) {
    match bestPath
    case None => bestCost == PosInf
    case Some(p) => SimplePath(g, start, goal, p) && bestCost == Fin(PathCost(g, p))
  }

  /**
   * No path to the goal has been lost: each one costs at least the bound,
   * or a prefix of it is still queued.
   */
  ghost predicate Covered(g: Graph, start: Node, goal: Node, q: seq<Entry>, bestCost: ExtInt) {
    forall p :: SimplePath(g, start, goal, p) ==> Le(bestCost, Fin(PathCost(g, p))) || Prefixed(q, p)
  }

  /**
   * One pass of the loop: the popped entry was either pruned, its cost
   * being no less than the (possibly lowered) bound, or it was not the goal
   * and its extensions were pushed. Either way no path is lost.
   */
  lemma StepCovered(g: Graph, start: Node, goal: Node, keying: Keying, q: seq<Entry>, i: nat,
                    best0: ExtInt, best: ExtInt, q': seq<Entry>, p: seq<Node>)
    requires Closed(g) && i < |q| && Tracked(g, start, keying, q[i]) && Le(best, best0)
    requires || (Le(best, Fin(q[i].cost)) && q' == Remove(q, i))
             || (q[i].node != goal && q' == Remove(q, i) + Extensions(g, keying, q[i], g.adj[q[i].node]))
    requires SimplePath(g, start, goal, p) && (Le(best0, Fin(PathCost(g, p))) || Prefixed(q, p))
    ensures Le(best, Fin(PathCost(g, p))) || Prefixed(q', p)
  {
    var c := Fin(PathCost(g, p));
    if Le(best0, c) {
      LeTotalOrder(best, best0, c);
    } else {
      var j :| 0 <= j < |q| && q[j].path <= p;
      var e := q[i];
      if j != i {
        var ext := q'[|q| - 1..];
        assert q' == Remove(q, i) + ext;
        PrefixedAfterPop(q, i, ext, p, j);
      } else if Le(best, Fin(e.cost)) {
        var m := |e.path|;
        PrefixCost(g, p, m);
        assert p[..m] == e.path;
        LeTotalOrder(best, Fin(e.cost), c);
      } else {
        assert Last(e.path) in g.adj;
        PrefixedAfterExpansion(g, start, goal, keying, q, i, p);
      }
    }
  }

  /** `StepCovered` for every path at once. */
  lemma Step(g: Graph, start: Node, goal: Node, keying: Keying, q: seq<Entry>, i: nat,
             best0: ExtInt, best: ExtInt, q': seq<Entry>)
    requires Closed(g) && i < |q| && Tracked(g, start, keying, q[i]) && Le(best, best0)
    requires || (Le(best, Fin(q[i].cost)) && q' == Remove(q, i))
             || (q[i].node != goal && q' == Remove(q, i) + Extensions(g, keying, q[i], g.adj[q[i].node]))
    requires Covered(g, start, goal, q, best0)
    ensures Covered(g, start, goal, q', best)
  {
    forall p | SimplePath(g, start, goal, p)
      ensures Le(best, Fin(PathCost(g, p))) || Prefixed(q', p)
    {
      StepCovered(g, start, goal, keying, q, i, best0, best, q', p);
    }
  }

  /** The queue holding only `[start]` is tracked and covers every path from `start`. */
  lemma Initial(g: Graph, start: Node, goal: Node, keying: Keying)
    requires start in g.adj
    ensures var q := [Entry(Key(keying, 0, start), 0, start, [start])];
      AllTracked(g, start, keying, q) && Covered(g, start, goal, q, PosInf)
  {
    var q := [Entry(Key(keying, 0, start), 0, start, [start])];
    forall p | SimplePath(g, start, goal, p) ensures Prefixed(q, p) {
      assert q[0].path <= p;
    }
  }

  /**
   * Once the queue is empty, the kept path is a cheapest walk to the goal,
   * and there is none exactly when the goal is unreachable.
   */
  lemma Exhausted(g: Graph, start: Node, goal: Node, bestPath: Option<seq<Node>>, bestCost: ExtInt)
    requires Best(g, start, goal, bestPath, bestCost) && Covered(g, start, goal, [], bestCost)
    ensures bestPath.Some? <==> Reachable(g, start, goal)
    ensures bestPath.Some? ==> forall w :: PathBetween(g, start, goal, w) ==> PathCost(g, bestPath.value) <= PathCost(g, w)
  {
    forall w | PathBetween(g, start, goal, w)
      ensures bestPath.Some? && PathCost(g, bestPath.value) <= PathCost(g, w)
    {
      var s := Shortcut(g, w);
      assert Le(bestCost, Fin(PathCost(g, s)));
    }
    if bestPath.Some? {
      assert PathBetween(g, start, goal, bestPath.value);
    }
  }

  /** A pruned entry: dropping it keeps the queue tracked and covering, and the measure drops. */
  lemma Pruned(g: Graph, start: Node, goal: Node, keying: Keying, q: seq<Entry>, i: nat, best0: ExtInt, best: ExtInt)
    requires Closed(g) && i < |q| && AllTracked(g, start, keying, q) && Covered(g, start, goal, q, best0)
    requires Le(best, best0) && Le(best, Fin(q[i].cost))
    ensures AllTracked(g, start, keying, Remove(q, i)) && Covered(g, start, goal, Remove(q, i), best)
    ensures Measure(g, Remove(q, i)) < Measure(g, q)
  {
    Step(g, start, goal, keying, q, i, best0, best, Remove(q, i));
    PopShrinks(g, q, i);
  }

  /** An expanded entry: replacing it by its extensions keeps the queue tracked and covering, and the measure drops. */
  lemma Expanded(g: Graph, start: Node, goal: Node, keying: Keying, q: seq<Entry>, i: nat, best: ExtInt)
    requires Closed(g) && i < |q| && AllTracked(g, start, keying, q) && Covered(g, start, goal, q, best)
    requires q[i].node != goal
    ensures q[i].node in g.adj
    ensures var q' := Remove(q, i) + Extensions(g, keying, q[i], g.adj[q[i].node]);
      AllTracked(g, start, keying, q') && Covered(g, start, goal, q', best) && Measure(g, q') < Measure(g, q)
  {
    var e := q[i];
    assert Last(e.path) in g.adj;
    LeTotalOrder(best, best, best);
    Step(g, start, goal, keying, q, i, best, best, Remove(q, i) + Extensions(g, keying, e, g.adj[e.node]));
    ExpansionTracked(g, start, keying, q, i);
    ExpansionShrinks(g, start, keying, q, i, g.adj[e.node]);
  }

  /**
   * What one pass did: the entry at `i` has a minimal key and was popped;
   * the bound fell to its cost, and the kept path became its path, exactly
   * when it is a goal path strictly cheaper than the bound; it was dropped
   * when it costs at least the bound so updated, and otherwise its
   * extensions were pushed behind the remaining entries.
   */
  ghost predicate PassStep(g: Graph, keying: Keying, goal: Node,
                           queue: seq<Entry>, bestPath: Option<seq<Node>>, bestCost: ExtInt, i: int,
                           queue': seq<Entry>, bestPath': Option<seq<Node>>, bestCost': ExtInt) {
    && MinAt(queue, i)
    && var e := queue[i];
       var better := e.node == goal && Lt(Fin(e.cost), bestCost);
       && bestCost' == (if better then Fin(e.cost) else bestCost)
       && bestPath' == (if better then Some(e.path) else bestPath)
       && (Le(bestCost', Fin(e.cost)) ==> queue' == Remove(queue, i))
       && (!Le(bestCost', Fin(e.cost)) ==>
             e.node in g.adj && queue' == Remove(queue, i) + Extensions(g, keying, e, g.adj[e.node]))
  }

  /**
   * One pass of the `while queue` loop: pop a minimal entry, lower the
   * bound if it is a cheaper path to the goal, then prune it if it costs at
   * least the bound and otherwise push its extensions. The queue's
   * termination measure drops and no path to the goal is lost.
   */
  method Pass(g: Graph, keying: Keying, start: Node, goal: Node,
              queue: seq<Entry>, bestPath: Option<seq<Node>>, bestCost: ExtInt)
      returns (queue': seq<Entry>, bestPath': Option<seq<Node>>, bestCost': ExtInt)
    requires Closed(g) && queue != []
    requires AllTracked(g, start, keying, queue)
    requires Best(g, start, goal, bestPath, bestCost)
    requires Covered(g, start, goal, queue, bestCost)
    ensures AllTracked(g, start, keying, queue')
    ensures Best(g, start, goal, bestPath', bestCost') && Le(bestCost', bestCost)
    ensures Covered(g, start, goal, queue', bestCost')
    ensures Measure(g, queue') < Measure(g, queue)
    ensures exists i :: PassStep(g, keying, goal, queue, bestPath, bestCost, i, queue', bestPath', bestCost')
  {
    MinExists(queue);
    var i :| MinAt(queue, i);
    var e := queue[i];
    queue' := Remove(queue, i);
    bestPath', bestCost' := bestPath, bestCost;
    if e.node == goal {
      if Lt(Fin(e.cost), bestCost) {
        bestCost' := Fin(e.cost);
        bestPath' := Some(e.path);
      }
    }
    LeTotalOrder(bestCost', bestCost, Fin(e.cost));
    if Le(bestCost', Fin(e.cost)) {
      Pruned(g, start, goal, keying, queue, i, bestCost, bestCost');
      assert PassStep(g, keying, goal, queue, bestPath, bestCost, i, queue', bestPath', bestCost');
      return;
    }
    Expanded(g, start, goal, keying, queue, i, bestCost);
    queue' := Branch(g, keying, e, queue');
    assert PassStep(g, keying, goal, queue, bestPath, bestCost, i, queue', bestPath', bestCost');
  }

  /**
   * The loop shared by both files. It finds a cheapest path to the goal
   * among all walks (so the pruning never discards the optimum), returns
   * it with its cost, and returns `None, None` exactly when the goal is
   * unreachable.
   */
  method Search(g: Graph, keying: Keying, start: Node, goal: Node) returns (path: Option<seq<Node>>, cost: Option<ExtInt>)
    requires Closed(g) && Weighted(g) && KeyReady(g, keying) && start in g.adj
    ensures path.Some? <==> Reachable(g, start, goal)
    ensures path.Some? ==> SimplePath(g, start, goal, path.value) && cost == Some(Fin(PathCost(g, path.value)))
    ensures path.Some? ==> forall w :: PathBetween(g, start, goal, w) ==> PathCost(g, path.value) <= PathCost(g, w)
    ensures path.None? ==> cost.None?
  {
    var queue := [Entry(Key(keying, 0, start), 0, start, [start])];
    var bestPath: Option<seq<Node>> := None;
    var bestCost := PosInf;
    Initial(g, start, goal, keying);
    while queue != []
      invariant AllTracked(g, start, keying, queue)
      invariant Best(g, start, goal, bestPath, bestCost)
      invariant Covered(g, start, goal, queue, bestCost)
      decreases Measure(g, queue)
    {
      queue, bestPath, bestCost := Pass(g, keying, start, goal, queue, bestPath, bestCost);
    }
    Exhausted(g, start, goal, bestPath, bestCost);
    path := bestPath;
    cost := if bestPath.Some? then Some(bestCost) else None;
  }

  /** `branch_and_bound(graph, start, goal)`: paths are queued by cost. */
  method BranchAndBound(g: Graph, start: Node, goal: Node) returns (path: Option<seq<Node>>, cost: Option<ExtInt>)
    requires Closed(g) && Weighted(g) && start in g.adj
    ensures path.Some? <==> Reachable(g, start, goal)
    ensures path.Some? ==> SimplePath(g, start, goal, path.value) && cost == Some(Fin(PathCost(g, path.value)))
    ensures path.Some? ==> forall w :: PathBetween(g, start, goal, w) ==> PathCost(g, path.value) <= PathCost(g, w)
    ensures path.None? ==> cost.None?
  {
    path, cost := Search(g, ByCost, start, goal);
  }

  /**
   * `branch_and_bound_heuristic(graph, start, goal)` with the heuristic
   * table `h`: paths are queued by cost plus the heuristic of their last
   * node, pruned on cost alone, so the heuristic changes the order of the
   * search but not its result's optimality.
   */
  method BranchAndBoundHeuristic(g: Graph, h: map<Node, nat>, start: Node, goal: Node)
      returns (path: Option<seq<Node>>, cost: Option<ExtInt>)
    requires Closed(g) && Weighted(g) && HasHeuristic(g, h) && start in g.adj
    ensures path.Some? <==> Reachable(g, start, goal)
    ensures path.Some? ==> SimplePath(g, start, goal, path.value) && cost == Some(Fin(PathCost(g, path.value)))
    ensures path.Some? ==> forall w :: PathBetween(g, start, goal, w) ==> PathCost(g, path.value) <= PathCost(g, w)
    ensures path.None? ==> cost.None?
  {
    path, cost := Search(g, ByEstimate(h), start, goal);
  }
}
