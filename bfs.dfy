/** BFS.py: `bfs(graph, start, goal)`, a breadth-first search over whole paths. */
module BreadthFirst {
  import opened Wrappers
  import opened Graph

  /** `[path + [n] for n in ns]`, the paths the inner loop appends to the queue. */
  function Extensions(path: seq<Node>, ns: seq<Node>): (r: seq<seq<Node>>)
    ensures |r| == |ns| && forall k :: 0 <= k < |ns| ==> r[k] == path + [ns[k]]
  {
    if ns == [] then [] else Extensions(path, ns[..|ns| - 1]) + [path + [Last(ns)]]
  }

  /** Some queued path ends at `u`. */
  ghost predicate Queued(queue: seq<seq<Node>>, u: Node) {
    exists i :: 0 <= i < |queue| && |queue[i]| > 0 && Last(queue[i]) == u
  }

  /** Some queued path of at most `n` nodes ends at `u`. */
  ghost predicate QueuedWithin(queue: seq<seq<Node>>, u: Node, n: nat) {
    exists i :: 0 <= i < |queue| && 0 < |queue[i]| <= n && Last(queue[i]) == u
  }

  /** Every queued path is a walk from `start` that does not end at the goal. */
  ghost predicate QueueWalks(g: Graph, start: Node, goal: Node, queue: seq<seq<Node>>) {
    forall i :: 0 <= i < |queue| ==> IsWalk(g, queue[i]) && queue[i][0] == start && Last(queue[i]) != goal
  }

  /** Queued paths are in FIFO order of length, at most one node longer than the head. */
  ghost predicate Layered(queue: seq<seq<Node>>) {
    && (forall i, j :: 0 <= i < j < |queue| ==> |queue[i]| <= |queue[j]|)
    && (forall i :: 0 <= i < |queue| ==> |queue[i]| <= |queue[0]| + 1)
  }

  /**
   * Every walk from `start` no longer than the head of the queue ends at a
   * visited node or at the end of a queued path no longer than itself.
   */
  ghost predicate ShortWalksCovered(g: Graph, start: Node, visited: set<Node>, queue: seq<seq<Node>>)
    requires queue != []
  {
    forall w :: IsWalk(g, w) && w[0] == start && |w| <= |queue[0]| ==>
      Last(w) in visited || QueuedWithin(queue, Last(w), |w|)
  }

  /** Each neighbour of a visited node is visited or at the end of a queued path, and so is `start`. */
  ghost predicate Frontier(g: Graph, start: Node, visited: set<Node>, queue: seq<seq<Node>>) {
    && (forall v, u :: v in visited && v in g.adj && u in g.adj[v] ==> u in visited || Queued(queue, u))
    && (start in visited || Queued(queue, start))
  }

  /** The loop invariant of the search. */
  ghost predicate Inv(g: Graph, start: Node, goal: Node, visited: set<Node>, queue: seq<seq<Node>>) {
    && QueueWalks(g, start, goal, queue)
    && Layered(queue)
    && visited <= g.adj.Keys && goal !in visited
    && Frontier(g, start, visited, queue)
    && (queue != [] ==> ShortWalksCovered(g, start, visited, queue))
  }

  /**
   * The search: `None` exactly when the goal cannot be reached from
   * `start`; otherwise a walk from `start` to the goal with as few nodes as
   * any such walk, which for `start == goal` is `[start]`.
   */
  method Bfs(g: Graph, start: Node, goal: Node) returns (r: Option<seq<Node>>)
    requires Closed(g) && start in g.adj
    ensures r.Some? ==> PathBetween(g, start, goal, r.value)
    ensures r.Some? ==> forall w :: PathBetween(g, start, goal, w) ==> |r.value| <= |w|
    ensures r.None? <==> !Reachable(g, start, goal)
    ensures start == goal ==> r == Some([start])
  {
    var visited: set<Node> := {};
    var queue: seq<seq<Node>> := [[start]];
    if start == goal {
      assert PathBetween(g, start, goal, [start]);
      return Some([start]);
    }
    InitialInv(g, start, goal);
    while queue != []
      invariant Inv(g, start, goal, visited, queue)
      decreases g.adj.Keys - visited, |queue|
    {
      ghost var queue0, visited0 := queue, visited;
      var path := queue[0];
      queue := queue[1..];
      var node := Last(path);
      if node !in visited {
        var found;
        found, queue := ExpandPath(g, path, goal, queue);
        if found.Some? {
          FoundIsShortest(g, start, goal, visited0, queue0, goal);
          return found;
        }
        visited := visited + {node};
      }
      StepInv(g, start, goal, visited0, queue0, visited, queue);
    }
    Exhausted(g, start, goal, visited);
    r := None;
  }

  /**
   * The inner loop: appends `path + [n]` to the queue for each neighbour `n`
   * of the path's end, stopping with that new path as soon as `n` is the goal.
   */
  method ExpandPath(g: Graph, path: seq<Node>, goal: Node, queue: seq<seq<Node>>)
      returns (found: Option<seq<Node>>, queue': seq<seq<Node>>)
    requires |path| > 0 && Last(path) in g.adj
    ensures found == if goal in g.adj[Last(path)] then Some(path + [goal]) else None
    ensures found.None? ==> queue' == queue + Extensions(path, g.adj[Last(path)])
  {
    queue' := queue;
    var neighbors := g.adj[Last(path)];
    for i := 0 to |neighbors|
      invariant queue' == queue + Extensions(path, neighbors[..i])
      invariant goal !in neighbors[..i]
    {
      var newPath := path + [neighbors[i]];
      queue' := queue' + [newPath];
      assert neighbors[..i + 1] == neighbors[..i] + [neighbors[i]];
      if neighbors[i] == goal {
        return Some(newPath), queue';
      }
    }
    assert neighbors[..|neighbors|] == neighbors;
    found := None;
  }

  lemma InitialInv(g: Graph, start: Node, goal: Node)
    requires start in g.adj && start != goal
    ensures Inv(g, start, goal, {}, [[start]])
  {
    var queue := [[start]];
    assert Last(queue[0]) == start;
    forall w | IsWalk(g, w) && w[0] == start && |w| <= |queue[0]|
      ensures QueuedWithin(queue, Last(w), |w|)
    {
      assert Last(w) == start;
    }
  }

  /**
   * The path found when the goal turns up among the neighbours of the head
   * path is a walk to the goal, and no walk from `start` to the goal has
   * fewer nodes.
   */
  lemma FoundIsShortest(g: Graph, start: Node, goal: Node, visited: set<Node>, queue: seq<seq<Node>>, n: Node)
    requires Closed(g) && Inv(g, start, goal, visited, queue) && queue != []
    requires n == goal && n in g.adj[Last(queue[0])]
    ensures PathBetween(g, start, goal, queue[0] + [n])
    ensures forall w :: PathBetween(g, start, goal, w) ==> |queue[0] + [n]| <= |w|
  {
    WalkAppend(g, queue[0], n);
    forall w | PathBetween(g, start, goal, w) ensures |queue[0] + [n]| <= |w| {
    }
  }

  /** An exhausted queue leaves the visited set closed under adjacency, so the goal is unreachable. */
  lemma Exhausted(g: Graph, start: Node, goal: Node, visited: set<Node>)
    requires Inv(g, start, goal, visited, [])
    ensures !Reachable(g, start, goal)
  {
    forall w | PathBetween(g, start, goal, w) ensures false {
      WalkStaysInClosedSet(g, visited, w);
    }
  }

  /** One iteration of the loop keeps the invariant, whether the head's node is expanded or skipped. */
  lemma StepInv(g: Graph, start: Node, goal: Node, visited: set<Node>, queue: seq<seq<Node>>,
                visited': set<Node>, queue': seq<seq<Node>>)
    requires Closed(g) && Inv(g, start, goal, visited, queue) && queue != []
    requires var node := Last(queue[0]);
      && (node !in visited ==> goal !in g.adj[node])
      && visited' == visited + {node}
      && queue' == queue[1..] + if node in visited then [] else Extensions(queue[0], g.adj[node])
    ensures Inv(g, start, goal, visited', queue')
  {
    var node := Last(queue[0]);
    assert node in g.adj;
    var ext := if node in visited then [] else Extensions(queue[0], g.adj[node]);
    assert Pushed(g, visited, queue, ext);
    StepWalks(g, start, goal, visited, queue, ext);
    StepLayered(g, visited, queue, ext);
    StepClosed(g, start, visited, queue, ext);
    if queue[1..] + ext != [] {
      StepCovered(g, start, visited, queue, ext);
    }
  }

  /** What the paths pushed for the head's node are: nothing if it was visited, else one per neighbour. */
  ghost predicate Pushed(g: Graph, visited: set<Node>, queue: seq<seq<Node>>, ext: seq<seq<Node>>)
    requires queue != [] && |queue[0]| > 0 && Last(queue[0]) in g.adj
  {
    var node := Last(queue[0]);
    ext == if node in visited then [] else Extensions(queue[0], g.adj[node])
  }

  lemma StepWalks(g: Graph, start: Node, goal: Node, visited: set<Node>, queue: seq<seq<Node>>, ext: seq<seq<Node>>)
    requires Closed(g) && QueueWalks(g, start, goal, queue) && visited <= g.adj.Keys && goal !in visited
    requires queue != [] && Last(queue[0]) in g.adj && Pushed(g, visited, queue, ext)
    requires var node := Last(queue[0]);
             node !in visited ==> goal !in g.adj[node]
    ensures QueueWalks(g, start, goal, queue[1..] + ext)
    ensures visited + {Last(queue[0])} <= g.adj.Keys && goal !in visited + {Last(queue[0])}
  {
    var q := queue[1..] + ext;
    var node := Last(queue[0]);
    forall i | 0 <= i < |q| ensures IsWalk(g, q[i]) && q[i][0] == start && Last(q[i]) != goal {
      if i < |queue| - 1 {
        assert q[i] == queue[i + 1];
      } else {
        var k := i - (|queue| - 1);
        assert q[i] == ext[k] == queue[0] + [g.adj[node][k]];
        WalkAppend(g, queue[0], g.adj[node][k]);
      }
    }
  }

  lemma StepLayered(g: Graph, visited: set<Node>, queue: seq<seq<Node>>, ext: seq<seq<Node>>)
    requires Layered(queue) && queue != [] && |queue[0]| > 0 && Last(queue[0]) in g.adj && Pushed(g, visited, queue, ext)
    ensures Layered(queue[1..] + ext)
  {
    var q := queue[1..] + ext;
    var len := |queue[0]|;
    assert forall i :: 0 <= i < |q| ==> len <= |q[i]| <= len + 1 by {
      forall i | 0 <= i < |q| ensures len <= |q[i]| <= len + 1 {
        if i < |queue| - 1 {
          assert q[i] == queue[i + 1];
        } else {
          assert |q[i]| == len + 1;
        }
      }
    }
    forall i, j | 0 <= i < j < |q| ensures |q[i]| <= |q[j]| {
      if j < |queue| - 1 {
        assert q[i] == queue[i + 1] && q[j] == queue[j + 1];
      } else {
        assert |q[j]| == len + 1;
      }
    }
  }

  lemma StepClosed(g: Graph, start: Node, visited: set<Node>, queue: seq<seq<Node>>, ext: seq<seq<Node>>)
    requires Frontier(g, start, visited, queue)
    requires queue != [] && |queue[0]| > 0 && Last(queue[0]) in g.adj && Pushed(g, visited, queue, ext)
    ensures Frontier(g, start, visited + {Last(queue[0])}, queue[1..] + ext)
  {
    var node := Last(queue[0]);
    var v' := visited + {node};
    var q := queue[1..] + ext;
    forall u | Queued(queue, u) ensures u in v' || Queued(q, u) {
      var i :| 0 <= i < |queue| && |queue[i]| > 0 && Last(queue[i]) == u;
      if i > 0 {
        assert q[i - 1] == queue[i];
      }
    }
    forall v, u | v in v' && v in g.adj && u in g.adj[v] ensures u in v' || Queued(q, u) {
      if v == node && node !in visited {
        var k :| 0 <= k < |g.adj[node]| && g.adj[node][k] == u;
        assert q[|queue| - 1 + k] == ext[k] == queue[0] + [u];
      }
    }
  }

  /** A path still queued after the head is popped is still queued, unless it ended at the head's node. */
  lemma StepQueued(g: Graph, visited: set<Node>, queue: seq<seq<Node>>, ext: seq<seq<Node>>, u: Node, n: nat)
    requires queue != [] && |queue[0]| > 0 && QueuedWithin(queue, u, n)
    ensures u in visited + {Last(queue[0])} || QueuedWithin(queue[1..] + ext, u, n)
  {
    var i :| 0 <= i < |queue| && 0 < |queue[i]| <= n && Last(queue[i]) == u;
    if i > 0 {
      assert (queue[1..] + ext)[i - 1] == queue[i];
    }
  }

  lemma StepCovered(g: Graph, start: Node, visited: set<Node>, queue: seq<seq<Node>>, ext: seq<seq<Node>>)
    requires Layered(queue) && Frontier(g, start, visited, queue)
    requires queue != [] && |queue[0]| > 0 && Last(queue[0]) in g.adj && Pushed(g, visited, queue, ext)
    requires ShortWalksCovered(g, start, visited, queue)
    requires queue[1..] + ext != []
    ensures ShortWalksCovered(g, start, visited + {Last(queue[0])}, queue[1..] + ext)
  {
    var node := Last(queue[0]);
    var v' := visited + {node};
    var q := queue[1..] + ext;
    var len := |queue[0]|;
    assert |q[0]| <= len + 1 by {
      if |queue| > 1 {
        assert q[0] == queue[1];
      } else {
        assert q[0] == ext[0];
      }
    }
    forall w | IsWalk(g, w) && w[0] == start && |w| <= |q[0]| ensures Last(w) in v' || QueuedWithin(q, Last(w), |w|) {
      if |w| <= len {
        assert Last(w) in visited || QueuedWithin(queue, Last(w), |w|);
        if Last(w) !in visited {
          StepQueued(g, visited, queue, ext, Last(w), |w|);
        }
      } else {
        StepCoveredLonger(g, start, visited, queue, ext, w);
      }
    }
  }

  /** A walk one node longer than the head path extends a walk the invariant already covers. */
  lemma StepCoveredLonger(g: Graph, start: Node, visited: set<Node>, queue: seq<seq<Node>>, ext: seq<seq<Node>>, w: seq<Node>)
    requires Layered(queue) && Frontier(g, start, visited, queue)
    requires queue != [] && |queue[0]| > 0 && Last(queue[0]) in g.adj && Pushed(g, visited, queue, ext)
    requires ShortWalksCovered(g, start, visited, queue)
    requires queue[1..] + ext != []
    requires IsWalk(g, w) && w[0] == start && |w| == |queue[0]| + 1 <= |(queue[1..] + ext)[0]|
    ensures Last(w) in visited + {Last(queue[0])} || QueuedWithin(queue[1..] + ext, Last(w), |w|)
  {
    var node := Last(queue[0]);
    var q := queue[1..] + ext;
    var len := |queue[0]|;
    var w' := w[..|w| - 1];
    WalkSlice(g, w, 0, |w| - 1);
    assert w'[0] == start && |w'| == len;
    var u := Last(w);
    assert u in g.adj[Last(w')] by {
      assert w[|w| - 1] in g.adj[w[|w| - 2]];
    }
    assert Last(w') in visited || QueuedWithin(queue, Last(w'), len);
    if Last(w') in visited {
      assert u in visited || Queued(queue, u);
      if u !in visited {
        var i :| 0 <= i < |queue| && |queue[i]| > 0 && Last(queue[i]) == u;
        StepQueued(g, visited, queue, ext, u, |w|);
      }
    } else {
      var i :| 0 <= i < |queue| && 0 < |queue[i]| <= len && Last(queue[i]) == Last(w');
      if i > 0 {
        assert false;
      }
      HeadExtended(queue, ext, g.adj[node], u);
    }
  }

  /** Each neighbour of the head path's node ends a pushed path one node longer than the head. */
  lemma HeadExtended(queue: seq<seq<Node>>, ext: seq<seq<Node>>, ns: seq<Node>, u: Node)
    requires queue != [] && ext == Extensions(queue[0], ns) && u in ns
    ensures QueuedWithin(queue[1..] + ext, u, |queue[0]| + 1)
  {
    var q := queue[1..] + ext;
    var k :| 0 <= k < |ns| && ns[k] == u;
    assert q[|queue| - 1 + k] == ext[k] == queue[0] + [u];
  }
}
