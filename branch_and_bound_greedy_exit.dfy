/**
 * branch_and_bound_greedy_exit.py: the g+h ordered enumeration of simple
 * paths, returning the first popped goal path whose cost is within
 * `exit_bound`. Its `best_cost` is never reassigned, so the bound stays
 * infinite and the pruning test never holds.
 */
module GreedyExit {
  import opened Wrappers
  import opened ExtendedInt
  import opened Graph
  import opened PathQueue

  /** Every path to the goal costing at most `bound` still has a prefix in the queue. */
  ghost predicate CoveredWithin(g: Graph, start: Node, goal: Node, q: seq<Entry>, bound: ExtInt) {
    forall p :: SimplePath(g, start, goal, p) && Le(Fin(PathCost(g, p)), bound) ==> Prefixed(q, p)
  }

  /** A prefix of a simple path that already ends at the path's last node is the whole path. */
  lemma PrefixAtEnd(p: seq<Node>, r: seq<Node>)
    requires Distinct(p) && |r| > 0 && r <= p && Last(r) == Last(p)
    ensures r == p
  {
    assert p[|r| - 1] == p[|p| - 1];
  }

  /**
   * Expanding a popped entry that is not a goal path within the bound
   * keeps every goal path within the bound prefixed.
   */
  lemma StepCovered(g: Graph, start: Node, goal: Node, keying: Keying, q: seq<Entry>, i: nat, bound: ExtInt, p: seq<Node>)
    requires Closed(g) && i < |q| && Tracked(g, start, keying, q[i])
    requires !(q[i].node == goal && Le(Fin(q[i].cost), bound))
    requires SimplePath(g, start, goal, p) && Le(Fin(PathCost(g, p)), bound) && Prefixed(q, p)
    ensures Prefixed(Remove(q, i) + Extensions(g, keying, q[i], g.adj[q[i].node]), p)
  {
    var j :| 0 <= j < |q| && q[j].path <= p;
    var e := q[i];
    if j != i {
      PrefixedAfterPop(q, i, Extensions(g, keying, e, g.adj[e.node]), p, j);
    } else {
      if e.node == goal {
        PrefixAtEnd(p, e.path);
      }
      assert Last(e.path) in g.adj;
      PrefixedAfterExpansion(g, start, goal, keying, q, i, p);
    }
  }

  /** `StepCovered` for every path at once. */
  lemma Step(g: Graph, start: Node, goal: Node, keying: Keying, q: seq<Entry>, i: nat, bound: ExtInt)
    requires Closed(g) && i < |q| && Tracked(g, start, keying, q[i])
    requires !(q[i].node == goal && Le(Fin(q[i].cost), bound))
    requires CoveredWithin(g, start, goal, q, bound)
    ensures CoveredWithin(g, start, goal, Remove(q, i) + Extensions(g, keying, q[i], g.adj[q[i].node]), bound)
  {
    forall p | SimplePath(g, start, goal, p) && Le(Fin(PathCost(g, p)), bound)
      ensures Prefixed(Remove(q, i) + Extensions(g, keying, q[i], g.adj[q[i].node]), p)
    {
      StepCovered(g, start, goal, keying, q, i, bound, p);
    }
  }

  /**
   * Replacing a popped entry that is not a goal path within the bound by
   * its extensions keeps the queue tracked and covering, and the measure
   * drops.
   */
  lemma Expanded(g: Graph, start: Node, goal: Node, keying: Keying, q: seq<Entry>, i: nat, bound: ExtInt)
    requires Closed(g) && i < |q| && AllTracked(g, start, keying, q) && CoveredWithin(g, start, goal, q, bound)
    requires !(q[i].node == goal && Le(Fin(q[i].cost), bound))
    ensures q[i].node in g.adj
    ensures var q' := Remove(q, i) + Extensions(g, keying, q[i], g.adj[q[i].node]);
      AllTracked(g, start, keying, q') && CoveredWithin(g, start, goal, q', bound) && Measure(g, q') < Measure(g, q)
  {
    assert Last(q[i].path) in g.adj;
    Step(g, start, goal, keying, q, i, bound);
    ExpansionTracked(g, start, keying, q, i);
    ExpansionShrinks(g, start, keying, q, i, g.adj[q[i].node]);
  }

  /** The queue holding only `[start]` is tracked and covers every path from `start`. */
  lemma Initial(g: Graph, start: Node, goal: Node, keying: Keying, bound: ExtInt)
    requires start in g.adj
    ensures var q := [Entry(Key(keying, 0, start), 0, start, [start])];
      AllTracked(g, start, keying, q) && CoveredWithin(g, start, goal, q, bound)
  {
    var q := [Entry(Key(keying, 0, start), 0, start, [start])];
    forall p | SimplePath(g, start, goal, p) ensures Prefixed(q, p) {
      assert q[0].path <= p;
    }
  }

  /** With an infinite bound, some path is within it exactly when the goal is reachable. */
  lemma Unbounded(g: Graph, start: Node, goal: Node)
    ensures (exists p :: SimplePath(g, start, goal, p) && Le(Fin(PathCost(g, p)), PosInf)) <==> Reachable(g, start, goal)
  {
    if Reachable(g, start, goal) {
      var w :| PathBetween(g, start, goal, w);
      var p := Shortcut(g, w);
      assert SimplePath(g, start, goal, p) && Le(Fin(PathCost(g, p)), PosInf);
    }
  }

  /**
   * What one pass did with the queue: the entry at `i` has a minimal key
   * and was popped; it was handed back exactly when it is a goal path
   * within the bound, and otherwise its extensions were pushed behind the
   * remaining entries.
   */
  ghost predicate PassStep(g: Graph, keying: Keying, goal: Node, bound: ExtInt, queue: seq<Entry>, i: int,
                           queue': seq<Entry>, found: Option<Entry>) {
    && MinAt(queue, i)
    && (found.Some? <==> queue[i].node == goal && Le(Fin(queue[i].cost), bound))
    && (found.Some? ==> found.value == queue[i] && queue' == Remove(queue, i))
    && (found.None? ==>
          && queue[i].node in g.adj
          && queue' == Remove(queue, i) + Extensions(g, keying, queue[i], g.adj[queue[i].node]))
  }

  /**
   * One pass of the `while queue` loop: pop a minimal entry and hand it
   * back if it is a goal path within the bound; otherwise, unless it costs
   * at least `best_cost` (never, that bound being infinite), push its
   * extensions. The queue's termination measure drops and no goal path
   * within the bound is lost.
   */
  method Pass(g: Graph, keying: Keying, start: Node, goal: Node, exitBound: ExtInt, bestCost: ExtInt, queue: seq<Entry>)
      returns (queue': seq<Entry>, found: Option<Entry>)
    requires Closed(g) && queue != [] && bestCost == PosInf
    requires AllTracked(g, start, keying, queue) && CoveredWithin(g, start, goal, queue, exitBound)
    ensures found.Some? ==> Tracked(g, start, keying, found.value)
    ensures found.Some? ==> found.value.node == goal && Le(Fin(found.value.cost), exitBound)
    ensures found.None? ==> AllTracked(g, start, keying, queue') && CoveredWithin(g, start, goal, queue', exitBound)
    ensures found.None? ==> Measure(g, queue') < Measure(g, queue)
    ensures exists i :: PassStep(g, keying, goal, exitBound, queue, i, queue', found)
  {
    MinExists(queue);
    var i :| MinAt(queue, i);
    var e := queue[i];
    queue' := Remove(queue, i);
    if e.node == goal && Le(Fin(e.cost), exitBound) {
      found := Some(e);
      assert PassStep(g, keying, goal, exitBound, queue, i, queue', found);
      return;
    }
    found := None;
    // The source's `continue` when `current_cost >= best_cost`: with
    // `best_cost` infinite the path is always expanded.
    if !Le(bestCost, Fin(e.cost)) {
      Expanded(g, start, goal, keying, queue, i, exitBound);
      queue' := Branch(g, keying, e, queue');
    }
    assert PassStep(g, keying, goal, exitBound, queue, i, queue', found);
  }

  /**
   * `branch_and_bound_greedy_exit(graph, start, goal, exit_bound)` with the
   * heuristic table `h`. A returned path is simple, runs from `start` to
   * the goal and costs at most the bound; `None, None` comes back exactly
   * when no such path exists, so with the default infinite bound exactly
   * when the goal is unreachable.
   */
  method BranchAndBoundGreedyExit(g: Graph, h: map<Node, nat>, start: Node, goal: Node, exitBound: ExtInt)
      returns (path: Option<seq<Node>>, cost: Option<ExtInt>)
    requires Closed(g) && Weighted(g) && HasHeuristic(g, h) && start in g.adj
    ensures path.Some? ==> SimplePath(g, start, goal, path.value) && cost == Some(Fin(PathCost(g, path.value)))
    ensures path.Some? ==> Le(Fin(PathCost(g, path.value)), exitBound)
    ensures path.None? <==> !exists p :: SimplePath(g, start, goal, p) && Le(Fin(PathCost(g, p)), exitBound)
    ensures path.None? ==> cost.None?
    ensures exitBound == PosInf ==> (path.Some? <==> Reachable(g, start, goal))
  {
    var keying := ByEstimate(h);
    var queue := [Entry(Key(keying, 0, start), 0, start, [start])];
    var bestPath: Option<seq<Node>> := None;
    var bestCost := PosInf;
    Initial(g, start, goal, keying, exitBound);
    while queue != []
      invariant AllTracked(g, start, keying, queue)
      invariant CoveredWithin(g, start, goal, queue, exitBound)
      decreases Measure(g, queue)
    {
      var found;
      queue, found := Pass(g, keying, start, goal, exitBound, bestCost, queue);
      if found.Some? {
        var e := found.value;
        assert PathBetween(g, start, goal, e.path);
        return Some(e.path), Some(Fin(e.cost));
      }
    }
    Unbounded(g, start, goal);
    path := bestPath;
    cost := if bestPath.Some? then Some(bestCost) else None;
  }
}
