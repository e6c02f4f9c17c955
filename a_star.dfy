/**
 * a_star.py: best-first search keyed by cost plus heuristic, with a closed
 * set `visited` and a map `best_cost` of the cheapest cost seen per node.
 * A popped goal entry is returned at once; a popped node already closed is
 * skipped; otherwise the node is closed and every neighbour whose cost is
 * new or strictly lower is recorded and pushed. Queued paths may revisit
 * nodes: there is no cycle check.
 */
module AStar {
  import opened Wrappers
  import opened ExtendedInt
  import opened Graph
  import opened PathQueue

  /** A queued entry: a walk from `start` to its node, its cost the walk's summed weight, keyed by cost plus heuristic. */
  ghost predicate Walked(g: Graph, start: Node, h: map<Node, nat>, e: Entry) {
    && PathBetween(g, start, e.node, e.path)
    && e.cost == PathCost(g, e.path)
    && e.key == Key(ByEstimate(h), e.cost, e.node)
  }

  ghost predicate AllWalked(g: Graph, start: Node, h: map<Node, nat>, q: seq<Entry>) {
    forall k :: 0 <= k < |q| ==> Walked(g, start, h, q[k])
  }

  /** Some queued entry ends at `n`. */
  ghost predicate Queued(q: seq<Entry>, n: Node) {
    exists k :: 0 <= k < |q| && q[k].node == n
  }

  /** What the neighbour loop of one expansion leaves behind: the entries pushed and the updated `best_cost`. */
  datatype Relaxation = Relaxation(pushed: seq<Entry>, best: map<Node, nat>)

  /**
   * The neighbour loop over `ns` after popping `e`, from `best_cost` equal
   * to `best`: each neighbour whose new cost is unrecorded or strictly
   * lower than its record gets that cost recorded and an entry pushed.
   */
  function Relax(g: Graph, h: map<Node, nat>, e: Entry, ns: seq<Node>, best: map<Node, nat>): Relaxation
    decreases |ns|
  {
    if ns == [] then Relaxation([], best)
    else
      var r := Relax(g, h, e, ns[..|ns| - 1], best);
      var n := Last(ns);
      var c := e.cost + Weight(g, e.node, n);
      if n !in r.best || c < r.best[n] then
        Relaxation(r.pushed + [Entry(Key(ByEstimate(h), c, n), c, n, e.path + [n])], r.best[n := c])
      else r
  }

  /** One more neighbour of the loop, in the terms the loop sees it. */
  lemma RelaxStep(g: Graph, h: map<Node, nat>, e: Entry, ns: seq<Node>, i: nat, best: map<Node, nat>)
    requires i < |ns|
    ensures var r := Relax(g, h, e, ns[..i], best);
      var n := ns[i];
      var c := e.cost + Weight(g, e.node, n);
      Relax(g, h, e, ns[..i + 1], best) ==
        if n !in r.best || c < r.best[n] then
          Relaxation(r.pushed + [Entry(Key(ByEstimate(h), c, n), c, n, e.path + [n])], r.best[n := c])
        else r
  {
    assert ns[..i + 1][..i] == ns[..i];
  }

  /** After the loop every neighbour has a recorded cost, and nothing else was recorded. */
  lemma {:induction false} RelaxKeys(g: Graph, h: map<Node, nat>, e: Entry, ns: seq<Node>, best: map<Node, nat>)
    ensures Relax(g, h, e, ns, best).best.Keys == best.Keys + Elems(ns)
    decreases |ns|
  {
    if ns != [] {
      RelaxKeys(g, h, e, ns[..|ns| - 1], best);
      assert Elems(ns) == Elems(ns[..|ns| - 1]) + {Last(ns)};
    }
  }

  /** Recorded costs never increase. */
  lemma {:induction false} RelaxMonotone(g: Graph, h: map<Node, nat>, e: Entry, ns: seq<Node>, best: map<Node, nat>)
    ensures var r := Relax(g, h, e, ns, best);
      forall n :: n in best ==> n in r.best && r.best[n] <= best[n]
    decreases |ns|
  {
    if ns != [] {
      RelaxMonotone(g, h, e, ns[..|ns| - 1], best);
    }
  }

  /**
   * An entry the neighbour loop may push after popping `e`: it extends the
   * popped path by the neighbour `p.node`, carries the cost through that
   * edge, and the neighbour had no recorded cost or a strictly higher one.
   */
  ghost predicate Improves(g: Graph, h: map<Node, nat>, e: Entry, best: map<Node, nat>, p: Entry) {
    && p.path == e.path + [p.node]
    && p.cost == e.cost + Weight(g, e.node, p.node)
    && p.key == Key(ByEstimate(h), p.cost, p.node)
    && (p.node in best ==> p.cost < best[p.node])
  }

  /** At most one entry is pushed per neighbour, and each one improves on that neighbour's recorded cost. */
  lemma {:induction false} RelaxImproves(g: Graph, h: map<Node, nat>, e: Entry, ns: seq<Node>, best: map<Node, nat>)
    ensures var r := Relax(g, h, e, ns, best);
      && |r.pushed| <= |ns|
      && forall k :: 0 <= k < |r.pushed| ==> r.pushed[k].node in ns && Improves(g, h, e, best, r.pushed[k])
    decreases |ns|
  {
    if ns != [] {
      var init := ns[..|ns| - 1];
      var r0 := Relax(g, h, e, init, best);
      RelaxImproves(g, h, e, init, best);
      RelaxMonotone(g, h, e, init, best);
      var r := Relax(g, h, e, ns, best);
      forall k | 0 <= k < |r.pushed|
        ensures r.pushed[k].node in ns && Improves(g, h, e, best, r.pushed[k])
      {
        if k < |r0.pushed| {
          assert r.pushed[k] == r0.pushed[k];
          assert r0.pushed[k].node in init;
        }
      }
    }
  }

  /** Every neighbour that had no recorded cost gets an entry pushed. */
  lemma {:induction false} RelaxPushesNew(g: Graph, h: map<Node, nat>, e: Entry, ns: seq<Node>, best: map<Node, nat>, n: Node)
    requires n in ns && n !in best
    ensures Queued(Relax(g, h, e, ns, best).pushed, n)
    decreases |ns|
  {
    var init := ns[..|ns| - 1];
    var r := Relax(g, h, e, init, best);
    if n in init {
      RelaxPushesNew(g, h, e, init, best, n);
      var k :| 0 <= k < |r.pushed| && r.pushed[k].node == n;
      assert Relax(g, h, e, ns, best).pushed[k] == r.pushed[k];
    } else {
      RelaxKeys(g, h, e, init, best);
      assert n !in r.best;
      assert Relax(g, h, e, ns, best).pushed[|r.pushed|].node == n;
    }
  }

  /** The pushed entries of an expanded walk are walks one edge longer. */
  lemma RelaxWalked(g: Graph, start: Node, h: map<Node, nat>, e: Entry, best: map<Node, nat>)
    requires Closed(g) && Walked(g, start, h, e) && e.node in g.adj
    ensures AllWalked(g, start, h, Relax(g, h, e, g.adj[e.node], best).pushed)
  {
    var r := Relax(g, h, e, g.adj[e.node], best);
    RelaxImproves(g, h, e, g.adj[e.node], best);
    assert Last(e.path) == e.node;
    forall k | 0 <= k < |r.pushed| ensures Walked(g, start, h, r.pushed[k]) {
      var p := r.pushed[k];
      assert p.node in g.adj[e.node];
      WalkAppend(g, e.path, p.node);
    }
  }

  /**
   * `heappush` for each neighbour of the popped entry `e`: appends the
   * entries `Relax` pushes and leaves `best_cost` as `Relax` records it.
   */
  method ExploreNeighbors(g: Graph, h: map<Node, nat>, e: Entry, queue: seq<Entry>, bestCost: map<Node, nat>)
      returns (queue': seq<Entry>, bestCost': map<Node, nat>)
    requires e.node in g.adj
    ensures var r := Relax(g, h, e, g.adj[e.node], bestCost);
      queue' == queue + r.pushed && bestCost' == r.best
  {
    queue', bestCost' := queue, bestCost;
    var ns := g.adj[e.node];
    for k := 0 to |ns|
      invariant var r := Relax(g, h, e, ns[..k], bestCost);
        queue' == queue + r.pushed && bestCost' == r.best
    {
      var neighbor := ns[k];
      RelaxStep(g, h, e, ns, k, bestCost);
      var newCost := e.cost + Weight(g, e.node, neighbor);
      if neighbor !in bestCost' || newCost < bestCost'[neighbor] {
        bestCost' := bestCost'[neighbor := newCost];
        queue' := queue' + [Entry(Key(ByEstimate(h), newCost, neighbor), newCost, neighbor, e.path + [neighbor])];
      }
    }
    assert ns[..|ns|] == ns;
  }

  /**
   * The loop invariant: queued entries are walks from `start`; the closed
   * nodes are graph nodes and exclude the goal; `start` has a recorded
   * cost; every neighbour of a closed node has a recorded cost; and every
   * node with a recorded cost is closed or still queued.
   */
  ghost predicate Inv(g: Graph, start: Node, goal: Node, h: map<Node, nat>,
                      queue: seq<Entry>, visited: set<Node>, bestCost: map<Node, nat>) {
    && AllWalked(g, start, h, queue)
    && visited <= g.adj.Keys && goal !in visited
    && start in bestCost
    && (forall v, u :: v in visited && u in g.adj[v] ==> u in bestCost)
    && (forall n :: n in bestCost ==> n in visited || Queued(queue, n))
  }

  /** An entry other than the popped one is still queued after the pop, whatever is pushed. */
  lemma StillQueued(q: seq<Entry>, i: nat, ext: seq<Entry>, n: Node)
    requires i < |q| && Queued(q, n) && q[i].node != n
    ensures Queued(Remove(q, i) + ext, n)
  {
    var j :| 0 <= j < |q| && q[j].node == n;
    var r := Remove(q, i) + ext;
    var k := if j < i then j else j - 1;
    assert r[k] == q[j];
  }

  /** Skipping a popped node that is already closed keeps the invariant. */
  lemma Skipped(g: Graph, start: Node, goal: Node, h: map<Node, nat>,
                q: seq<Entry>, i: nat, visited: set<Node>, bestCost: map<Node, nat>)
    requires i < |q| && Inv(g, start, goal, h, q, visited, bestCost) && q[i].node in visited
    ensures Inv(g, start, goal, h, Remove(q, i), visited, bestCost)
  {
    forall n | n in bestCost && n !in visited ensures Queued(Remove(q, i), n) {
      StillQueued(q, i, [], n);
      assert Remove(q, i) + [] == Remove(q, i);
    }
  }

  /** After closing the popped node, every node with a recorded cost is closed or still queued. */
  lemma ClosingAccounts(g: Graph, h: map<Node, nat>, q: seq<Entry>, i: nat, visited: set<Node>, bestCost: map<Node, nat>)
    requires i < |q| && q[i].node in g.adj
    requires forall n :: n in bestCost ==> n in visited || Queued(q, n)
    ensures var r := Relax(g, h, q[i], g.adj[q[i].node], bestCost);
      forall n :: n in r.best ==> n in visited + {q[i].node} || Queued(Remove(q, i) + r.pushed, n)
  {
    var e := q[i];
    var ns := g.adj[e.node];
    var r := Relax(g, h, e, ns, bestCost);
    var q' := Remove(q, i) + r.pushed;
    RelaxKeys(g, h, e, ns, bestCost);
    forall n | n in r.best && n !in visited + {e.node} ensures Queued(q', n) {
      if n in bestCost {
        StillQueued(q, i, r.pushed, n);
      } else {
        RelaxPushesNew(g, h, e, ns, bestCost, n);
        var k :| 0 <= k < |r.pushed| && r.pushed[k].node == n;
        assert q'[|q| - 1 + k] == r.pushed[k];
      }
    }
  }

  /** Closing a popped node that is not the goal and exploring its neighbours keeps the invariant. */
  lemma Closing(g: Graph, start: Node, goal: Node, h: map<Node, nat>,
                q: seq<Entry>, i: nat, visited: set<Node>, bestCost: map<Node, nat>)
    requires Closed(g) && i < |q| && Inv(g, start, goal, h, q, visited, bestCost)
    requires q[i].node != goal && q[i].node !in visited
    ensures q[i].node in g.adj
    ensures var r := Relax(g, h, q[i], g.adj[q[i].node], bestCost);
      Inv(g, start, goal, h, Remove(q, i) + r.pushed, visited + {q[i].node}, r.best)
  {
    var e := q[i];
    assert Last(e.path) in g.adj;
    var ns := g.adj[e.node];
    RelaxKeys(g, h, e, ns, bestCost);
    RelaxWalked(g, start, h, e, bestCost);
    ClosingAccounts(g, h, q, i, visited, bestCost);
  }

  /**
   * What one pass did: the entry at `i` has a minimal key and was popped;
   * it was handed back exactly when it reaches the goal; a popped node
   * already closed changed nothing else; any other popped node was closed
   * and its neighbours relaxed, their entries pushed behind the remaining
   * ones.
   */
  ghost predicate PassStep(g: Graph, h: map<Node, nat>, goal: Node,
                           queue: seq<Entry>, visited: set<Node>, bestCost: map<Node, nat>, i: int,
                           queue': seq<Entry>, visited': set<Node>, bestCost': map<Node, nat>, found: Option<Entry>) {
    && MinAt(queue, i)
    && (found.Some? <==> queue[i].node == goal)
    && (found.Some? ==> found.value == queue[i])
    && (found.None? && queue[i].node in visited ==>
          queue' == Remove(queue, i) && visited' == visited && bestCost' == bestCost)
    && (found.None? && queue[i].node !in visited ==>
          && queue[i].node in g.adj
          && visited' == visited + {queue[i].node}
          && var r := Relax(g, h, queue[i], g.adj[queue[i].node], bestCost);
             queue' == Remove(queue, i) + r.pushed && bestCost' == r.best)
  }

  /**
   * One pass of the `while queue` loop: pop a minimal entry and hand it
   * back if it reaches the goal; skip it if its node is closed; otherwise
   * close the node and explore its neighbours. Either fewer nodes remain
   * open, or as many and the queue is shorter.
   */
  method Pass(g: Graph, h: map<Node, nat>, start: Node, goal: Node,
              queue: seq<Entry>, visited: set<Node>, bestCost: map<Node, nat>)
      returns (queue': seq<Entry>, visited': set<Node>, bestCost': map<Node, nat>, found: Option<Entry>)
    requires Closed(g) && queue != [] && Inv(g, start, goal, h, queue, visited, bestCost)
    ensures found.Some? ==> Walked(g, start, h, found.value) && found.value.node == goal
    ensures found.None? ==> Inv(g, start, goal, h, queue', visited', bestCost')
    ensures found.None? ==>
      || |g.adj.Keys - visited'| < |g.adj.Keys - visited|
      || (visited' == visited && |queue'| < |queue|)
    ensures exists i :: PassStep(g, h, goal, queue, visited, bestCost, i, queue', visited', bestCost', found)
  {
    MinExists(queue);
    var i :| MinAt(queue, i);
    var e := queue[i];
    queue', visited', bestCost' := Remove(queue, i), visited, bestCost;
    if e.node == goal {
      found := Some(e);
      assert PassStep(g, h, goal, queue, visited, bestCost, i, queue', visited', bestCost', found);
      return;
    }
    found := None;
    if e.node in visited {
      Skipped(g, start, goal, h, queue, i, visited, bestCost);
      assert PassStep(g, h, goal, queue, visited, bestCost, i, queue', visited', bestCost', found);
      return;
    }
    Closing(g, start, goal, h, queue, i, visited, bestCost);
    visited' := visited + {e.node};
    assert g.adj.Keys - visited' < g.adj.Keys - visited;
    queue', bestCost' := ExploreNeighbors(g, h, e, queue', bestCost');
    assert PassStep(g, h, goal, queue, visited, bestCost, i, queue', visited', bestCost', found);
  }

  /** The invariant holds before the loop. */
  lemma Initial(g: Graph, start: Node, goal: Node, h: map<Node, nat>)
    requires start in g.adj
    ensures Inv(g, start, goal, h, [Entry(Key(ByEstimate(h), 0, start), 0, start, [start])], {}, map[start := 0])
  {
    var q := [Entry(Key(ByEstimate(h), 0, start), 0, start, [start])];
    assert q[0].node == start;
  }

  /** With the queue empty, the closed nodes hold `start`, are closed under adjacency and exclude the goal, which is then unreachable. */
  lemma Exhausted(g: Graph, start: Node, goal: Node, h: map<Node, nat>, visited: set<Node>, bestCost: map<Node, nat>)
    requires Inv(g, start, goal, h, [], visited, bestCost)
    ensures !Reachable(g, start, goal)
  {
    assert ClosedUnderAdjacency(g, visited);
    forall w | PathBetween(g, start, goal, w) ensures false {
      WalkStaysInClosedSet(g, visited, w);
    }
  }

  /**
   * `a_star(graph, start, goal)` with the heuristic table `h`. A returned
   * path is a walk from `start` to the goal reported with its summed
   * weight; `None, inf` comes back exactly when the goal is unreachable.
   */
  method AStarSearch(g: Graph, h: map<Node, nat>, start: Node, goal: Node) returns (path: Option<seq<Node>>, cost: ExtInt)
    requires Closed(g) && Weighted(g) && HasHeuristic(g, h) && start in g.adj
    ensures path.Some? <==> Reachable(g, start, goal)
    ensures path.Some? ==> PathBetween(g, start, goal, path.value) && cost == Fin(PathCost(g, path.value))
    ensures path.None? ==> cost == PosInf
  {
    var queue := [Entry(Key(ByEstimate(h), 0, start), 0, start, [start])];
    var visited: set<Node> := {};
    var bestCost := map[start := 0];
    Initial(g, start, goal, h);
    while queue != []
      invariant Inv(g, start, goal, h, queue, visited, bestCost)
      decreases |g.adj.Keys - visited|, |queue|
    {
      var found;
      queue, visited, bestCost, found := Pass(g, h, start, goal, queue, visited, bestCost);
      if found.Some? {
        var e := found.value;
        return Some(e.path), Fin(e.cost);
      }
    }
    Exhausted(g, start, goal, h, visited, bestCost);
    return None, PosInf;
  }
}
