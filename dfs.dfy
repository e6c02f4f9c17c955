/** DFS.py: `dfs(graph, start, goal, path, visited)`, a recursive depth-first search. */
module DepthFirst {
  import opened Wrappers
  import opened Graph

  /** The one `visited` set that every recursive call of the search adds to. */
  class VisitedSet {
    var elems: set<Node>

    /** `set()`. */
    constructor()
      ensures elems == {}
    {
      elems := {};
    }

    /** `visited.add(n)`. */
    method Add(n: Node)
      modifies this
      ensures elems == old(elems) + {n}
    {
      elems := elems + {n};
    }

    predicate Contains(n: Node)
      reads this
    {
      n in elems
    }
  }

  /**
   * One call `dfs(graph, cur, goal, path, visited)`: marks `cur` visited,
   * returns `path` if `cur` is the goal, and otherwise tries each unvisited
   * neighbour in adjacency order, returning the first path found.
   *
   * Every caller passes a walk ending at `cur` whose earlier nodes are all
   * visited. A returned path extends `path` to the goal without repeating a
   * node. When nothing is found, the goal is not among the nodes this call
   * marked, and every neighbour of those nodes is marked: the call has
   * explored everything reachable from `cur` that was not visited before.
   */
  method Dfs(g: Graph, cur: Node, goal: Node, path: seq<Node>, visited: VisitedSet) returns (r: Option<seq<Node>>)
    requires Closed(g) && cur in g.adj
    requires IsWalk(g, path) && Last(path) == cur && Distinct(path)
    requires forall i :: 0 <= i < |path| - 1 ==> visited.Contains(path[i])
    modifies visited
    ensures old(visited.elems) + {cur} <= visited.elems
    ensures visited.elems - old(visited.elems) <= g.adj.Keys
    ensures cur == goal ==> r == Some(path)
    ensures r.Some? ==> PathBetween(g, path[0], goal, r.value) && Distinct(r.value)
    ensures r.Some? ==> |path| <= |r.value| && r.value[..|path|] == path
    ensures r.None? ==> goal !in visited.elems - old(visited.elems)
    ensures r.None? ==> forall v, u :: v in visited.elems - old(visited.elems) && u in g.adj[v] ==> u in visited.elems
    decreases g.adj.Keys - visited.elems - {cur}
  {
    ghost var before := visited.elems;
    visited.Add(cur);
    if cur == goal {
      return Some(path);
    }
    var neighbors := g.adj[cur];
    for i := 0 to |neighbors|
      invariant before + {cur} <= visited.elems
      invariant visited.elems - before <= g.adj.Keys
      invariant goal !in visited.elems - before
      invariant forall v, u :: v in visited.elems - before && v != cur && u in g.adj[v] ==> u in visited.elems
      invariant forall k :: 0 <= k < i ==> neighbors[k] in visited.elems
    {
      var neighbor := neighbors[i];
      if !visited.Contains(neighbor) {
        WalkAppend(g, path, neighbor);
        DistinctAppend(path, neighbor);
        var result := Dfs(g, neighbor, goal, path + [neighbor], visited);
        if result.Some? {
          assert (path + [neighbor])[..|path|] == path;
          return result;
        }
      }
    }
    r := None;
  }

  /**
   * `dfs(graph, start, goal)` with a fresh path and visited set: a path from
   * `start` to the goal that repeats no node, `None` exactly when the goal is
   * unreachable, and `[start]` when `start` is the goal.
   */
  method DfsSearch(g: Graph, start: Node, goal: Node) returns (r: Option<seq<Node>>)
    requires Closed(g) && start in g.adj
    ensures r.Some? ==> SimplePath(g, start, goal, r.value)
    ensures r.None? <==> !Reachable(g, start, goal)
    ensures start == goal ==> r == Some([start])
  {
    var visited := new VisitedSet();
    r := Dfs(g, start, goal, [start], visited);
    if r.None? {
      forall w | PathBetween(g, start, goal, w) ensures false {
        WalkStaysInClosedSet(g, visited.elems, w);
      }
    }
  }
}
