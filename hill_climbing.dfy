/** Hill_Climbing.py: `hill_climbing(graph, start, goal)`. */
module HillClimbing {
  import opened Wrappers
  import opened Graph

  /**
   * `min(neighbors, key=lambda n: heuristics[n])`: a neighbour of least
   * heuristic (of those, the first in adjacency order, see
   * `BestNeighbourIsFirst`).
   */
  function BestNeighbour(h: map<Node, nat>, ns: seq<Node>): (r: Node)
    requires |ns| > 0 && forall n :: n in ns ==> n in h
    ensures r in ns && forall n :: n in ns ==> h[r] <= h[n]
  {
    if |ns| == 1 then ns[0]
    else
      var m := BestNeighbour(h, ns[1..]);
      assert forall n :: n in ns[1..] ==> n in ns;
      if h[ns[0]] <= h[m] then ns[0] else m
  }

  /** Python's `min` keeps the first of several least elements. */
  lemma {:induction false} BestNeighbourIsFirst(h: map<Node, nat>, ns: seq<Node>)
    requires |ns| > 0 && forall n :: n in ns ==> n in h
    ensures exists i :: 0 <= i < |ns| && ns[i] == BestNeighbour(h, ns) &&
              forall j :: 0 <= j < i ==> h[BestNeighbour(h, ns)] < h[ns[j]]
  {
    var r := BestNeighbour(h, ns);
    if |ns| == 1 {
      assert ns[0] == r;
    } else {
      var tail := ns[1..];
      var m := BestNeighbour(h, tail);
      if h[ns[0]] <= h[m] {
        assert ns[0] == r;
      } else {
        BestNeighbourIsFirst(h, tail);
        var i :| 0 <= i < |tail| && tail[i] == m && forall j :: 0 <= j < i ==> h[m] < h[tail[j]];
        assert ns[i + 1] == r;
        forall j | 0 <= j < i + 1 ensures h[r] < h[ns[j]] {
          if j > 0 {
            assert ns[j] == tail[j - 1];
          }
        }
      }
    }
  }

  /**
   * The sequence of nodes the climb visits from `cur`: it stops at the goal,
   * at a node without neighbours, or when the best neighbour is no lower
   * than the current node; otherwise it moves to the best neighbour.
   */
  ghost function Climb(g: Graph, h: map<Node, nat>, cur: Node, goal: Node): seq<Node>
    requires Closed(g) && HasHeuristic(g, h) && cur in g.adj
    decreases h[cur]
  {
    if cur == goal || g.adj[cur] == [] then [cur]
    else
      var next := BestNeighbour(h, g.adj[cur]);
      if h[next] >= h[cur] then [cur]
      else [cur] + Climb(g, h, next, goal)
  }

  /**
   * The search: the path of the climb when it ends at the goal, and `None`
   * when it is stuck at a node without neighbours or at a local minimum of
   * the heuristic.
   */
  method HillClimbingSearch(g: Graph, h: map<Node, nat>, start: Node, goal: Node) returns (r: Option<seq<Node>>)
    requires Closed(g) && HasHeuristic(g, h) && start in g.adj
    ensures var c := Climb(g, h, start, goal);
            r == if Last(c) == goal then Some(c) else None
  {
    var current := start;
    var path := [current];
    ghost var visitedBefore: seq<Node> := [];
    while current != goal
      invariant current in g.adj && path == visitedBefore + [current]
      invariant visitedBefore + Climb(g, h, current, goal) == Climb(g, h, start, goal)
      decreases h[current]
    {
      var neighbors := g.adj[current];
      if neighbors == [] {
        return None;
      }
      var next := BestNeighbour(h, neighbors);
      if h[next] >= h[current] {
        break;
      }
      ClimbStep(g, h, visitedBefore, current, next, goal);
      visitedBefore := path;
      current := next;
      path := path + [current];
    }
    if current == goal {
      r := Some(path);
    } else {
      r := None;
    }
  }

  /** One move of the climb, seen from the part of it already walked. */
  lemma ClimbStep(g: Graph, h: map<Node, nat>, before: seq<Node>, cur: Node, next: Node, goal: Node)
    requires Closed(g) && HasHeuristic(g, h) && cur in g.adj && cur != goal && g.adj[cur] != []
    requires next == BestNeighbour(h, g.adj[cur]) && h[next] < h[cur]
    ensures next in g.adj
    ensures (before + [cur]) + Climb(g, h, next, goal) == before + Climb(g, h, cur, goal)
  {
  }

  /**
   * The climb is a walk from its first node along which the heuristic
   * strictly decreases, so it never repeats a node.
   */
  lemma ClimbDescends(g: Graph, h: map<Node, nat>, cur: Node, goal: Node)
    requires Closed(g) && HasHeuristic(g, h) && cur in g.adj
    ensures var c := Climb(g, h, cur, goal);
      && PathBetween(g, cur, Last(c), c)
      && (forall i, j :: 0 <= i < j < |c| ==> h[c[j]] < h[c[i]])
      && Distinct(c)
  {
    ClimbIsWalk(g, h, cur, goal);
    ClimbDecreases(g, h, cur, goal);
  }

  /** The climb is a walk from its first node. */
  lemma {:induction false} ClimbIsWalk(g: Graph, h: map<Node, nat>, cur: Node, goal: Node)
    requires Closed(g) && HasHeuristic(g, h) && cur in g.adj
    ensures var c := Climb(g, h, cur, goal);
      PathBetween(g, cur, Last(c), c)
    decreases h[cur]
  {
    var c := Climb(g, h, cur, goal);
    if !(cur == goal || g.adj[cur] == []) {
      var next := BestNeighbour(h, g.adj[cur]);
      if h[next] < h[cur] {
        ClimbIsWalk(g, h, next, goal);
        var rest := Climb(g, h, next, goal);
        assert c == [cur] + rest;
        forall i, j | 0 <= i < |c| - 1 && j == i + 1 ensures c[j] in g.adj[c[i]] {
          if i > 0 {
            assert c[j] == rest[i] && c[i] == rest[i - 1];
          }
        }
      }
    }
  }

  /** The heuristic strictly decreases along the climb. */
  lemma {:induction false} ClimbDecreases(g: Graph, h: map<Node, nat>, cur: Node, goal: Node)
    requires Closed(g) && HasHeuristic(g, h) && cur in g.adj
    ensures var c := Climb(g, h, cur, goal);
      && |c| > 0
      && (forall i :: 0 <= i < |c| ==> c[i] in g.adj)
      && (forall i, j :: 0 <= i < j < |c| ==> h[c[j]] < h[c[i]])
    decreases h[cur]
  {
    var c := Climb(g, h, cur, goal);
    if !(cur == goal || g.adj[cur] == []) {
      var next := BestNeighbour(h, g.adj[cur]);
      if h[next] < h[cur] {
        ClimbDecreases(g, h, next, goal);
        var rest := Climb(g, h, next, goal);
        assert c == [cur] + rest;
        forall i | 0 <= i < |c| ensures c[i] in g.adj {
          if i > 0 {
            assert c[i] == rest[i - 1];
          }
        }
        forall i, j | 0 <= i < j < |c| ensures h[c[j]] < h[c[i]] {
          assert c[j] == rest[j - 1];
          if i > 0 {
            assert c[i] == rest[i - 1];
          } else if j > 1 {
            assert h[rest[j - 1]] < h[rest[0]];
          }
        }
      }
    }
  }

  /**
   * Each move of `c` goes from a node other than the goal to its best
   * neighbour.
   */
  ghost predicate MovesToBest(g: Graph, h: map<Node, nat>, goal: Node, c: seq<Node>)
    requires HasHeuristic(g, h)
  {
    forall i, j :: 0 <= i < |c| - 1 && j == i + 1 ==> Move(g, h, goal, c[i], c[j])
  }

  /** A move from `u`, which is not the goal and has neighbours, to its best neighbour `v`. */
  ghost predicate Move(g: Graph, h: map<Node, nat>, goal: Node, u: Node, v: Node)
    requires HasHeuristic(g, h)
  {
    u != goal && u in g.adj && g.adj[u] != [] && v == BestNeighbour(h, g.adj[u])
  }

  /** Each move of the climb goes to the best neighbour, and the goal appears only as its last node. */
  lemma {:induction false} ClimbMoves(g: Graph, h: map<Node, nat>, cur: Node, goal: Node)
    requires Closed(g) && HasHeuristic(g, h) && cur in g.adj
    ensures MovesToBest(g, h, goal, Climb(g, h, cur, goal))
    decreases h[cur]
  {
    var c := Climb(g, h, cur, goal);
    if !(cur == goal || g.adj[cur] == []) {
      var next := BestNeighbour(h, g.adj[cur]);
      if h[next] < h[cur] {
        ClimbMoves(g, h, next, goal);
        var rest := Climb(g, h, next, goal);
        assert c == [cur] + rest;
        MovesToBestCons(g, h, goal, cur, rest);
      }
    }
  }

  /** Prepending a node whose best neighbour is the head keeps `MovesToBest`. */
  lemma MovesToBestCons(g: Graph, h: map<Node, nat>, goal: Node, cur: Node, rest: seq<Node>)
    requires HasHeuristic(g, h) && MovesToBest(g, h, goal, rest) && |rest| > 0
    requires cur != goal && cur in g.adj && g.adj[cur] != [] && rest[0] == BestNeighbour(h, g.adj[cur])
    ensures MovesToBest(g, h, goal, [cur] + rest)
  {
    var c := [cur] + rest;
    forall i, j | 0 <= i < |c| - 1 && j == i + 1
      ensures Move(g, h, goal, c[i], c[j])
    {
      if i > 0 {
        assert c[j] == rest[i] && c[i] == rest[i - 1];
      } else {
        assert c[i] == cur && c[j] == rest[0];
      }
    }
    assert MovesToBest(g, h, goal, c);
  }

  /**
   * The climb stops at the goal, at a node without neighbours, or at a node
   * whose best neighbour is no lower than itself.
   */
  lemma {:induction false} ClimbStops(g: Graph, h: map<Node, nat>, cur: Node, goal: Node)
    requires Closed(g) && HasHeuristic(g, h) && cur in g.adj
    ensures var c := Climb(g, h, cur, goal);
      Last(c) in g.adj &&
      (Last(c) == goal || g.adj[Last(c)] == [] || h[BestNeighbour(h, g.adj[Last(c)])] >= h[Last(c)])
    decreases h[cur]
  {
    if !(cur == goal || g.adj[cur] == []) {
      var next := BestNeighbour(h, g.adj[cur]);
      if h[next] < h[cur] {
        ClimbStops(g, h, next, goal);
        assert Last(Climb(g, h, cur, goal)) == Last(Climb(g, h, next, goal));
      }
    }
  }

  /**
   * The search returns a path exactly when the climb reaches the goal, and
   * that path is a walk from `start` to `goal` that repeats no node; when
   * `start` is the goal, the result is `[start]`.
   */
  lemma HillClimbingResult(g: Graph, h: map<Node, nat>, start: Node, goal: Node)
    requires Closed(g) && HasHeuristic(g, h) && start in g.adj
    ensures var c := Climb(g, h, start, goal);
      Last(c) == goal ==> SimplePath(g, start, goal, c)
    ensures start == goal ==> Climb(g, h, start, goal) == [start]
  {
    ClimbDescends(g, h, start, goal);
  }
}
