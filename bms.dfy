/**
 * BMS.py: `bidirectional_search(graph, start, goal)`, a breadth-first
 * search grown from both ends at once, with its helpers `expand` and
 * `construct_path`.
 */
module Bidirectional {
  import opened Wrappers
  import opened Graph

  /** A parent map: `None` marks the side's root, every other node records the node it was reached from. */
  type Parents = map<Node, Option<Node>>

  /** Following parents from any recorded node strictly lowers `d`, so every chain of parents ends. */
  ghost predicate Shaped(P: Parents, d: map<Node, nat>) {
    && P.Keys <= d.Keys
    && forall k {:trigger P[k]} :: k in P && P[k].Some? ==> P[k].value in P && d[P[k].value] < d[k]
  }

  /**
   * `P` is a search tree grown from `root`: only the root has no parent,
   * every recorded node is a node of the graph, and each node is a
   * neighbour of its parent.
   */
  ghost predicate ParentTree(g: Graph, P: Parents, root: Node, d: map<Node, nat>) {
    && Shaped(P, d)
    && root in P && P[root] == None
    && (forall k :: k in P ==> k in g.adj)
    && (forall k {:trigger P[k]} :: k in P ==> (P[k].None? <==> k == root))
    && (forall k {:trigger P[k]} :: k in P && P[k].Some? ==> k in g.adj[P[k].value])
  }

  /**
   * The nodes visited by `while node: path.append(node); node = P[node]`
   * from `node`: the node, its parent, and so on up to the root.
   */
  ghost function ChainFrom(P: Parents, d: map<Node, nat>, node: Option<Node>): seq<Node>
    requires Shaped(P, d) && (node.Some? ==> node.value in P)
    decreases if node.None? then 0 else d[node.value] + 1
  {
    if node.None? then [] else [node.value] + ChainFrom(P, d, P[node.value])
  }

  /**
   * `P` extends `P0`: recorded parents never change, and every node added
   * records `current` as its parent.
   */
  ghost predicate Grows(P0: Parents, P: Parents, current: Node) {
    && P0.Keys <= P.Keys
    && (forall k {:trigger P[k]} :: k in P0 ==> P[k] == P0[k])
    && (forall k {:trigger P[k]} :: k in P && k !in P0 ==> P[k] == Some(current))
  }

  /**
   * The state of one side: the parents form a tree from the root; queued
   * nodes are recorded; every recorded node is expanded or still queued;
   * every neighbour of an expanded node is recorded.
   */
  ghost predicate FrontierInv(g: Graph, queue: seq<Node>, P: Parents, root: Node, d: map<Node, nat>, expanded: set<Node>) {
    && ParentTree(g, P, root, d)
    && (forall i :: 0 <= i < |queue| ==> queue[i] in P)
    && (forall k :: k in P ==> k in expanded || k in queue)
    && expanded <= P.Keys
    && (forall k, u :: k in expanded && u in g.adj[k] ==> u in P)
  }

  /** The parent map and queue of one side. */
  datatype SideState = SideState(parents: Parents, queue: seq<Node>)

  /**
   * The `for neighbor in graph[current]` loop of `expand` run over the
   * neighbours `ns`, from the map `P0` and queue `q0`: each neighbour not
   * yet in the map is recorded with parent `current` and appended to the
   * queue; a neighbour already recorded is skipped.
   */
  function Visit(P0: Parents, q0: seq<Node>, current: Node, ns: seq<Node>): SideState
    decreases |ns|
  {
    if ns == [] then SideState(P0, q0)
    else
      var s := Visit(P0, q0, current, ns[..|ns| - 1]);
      var n := Last(ns);
      if n in s.parents then s else SideState(s.parents[n := Some(current)], s.queue + [n])
  }

  /** One more neighbour of the loop, in the terms the loop sees it. */
  lemma VisitStep(P0: Parents, q0: seq<Node>, current: Node, ns: seq<Node>, i: nat)
    requires i < |ns|
    ensures var s := Visit(P0, q0, current, ns[..i]);
      Visit(P0, q0, current, ns[..i + 1]) ==
        if ns[i] in s.parents then s else SideState(s.parents[ns[i] := Some(current)], s.queue + [ns[i]])
  {
    assert ns[..i + 1][..i] == ns[..i];
  }

  /** The pass never changes a recorded parent, and gives every node it records the parent `current`. */
  lemma {:induction false} VisitGrows(P0: Parents, q0: seq<Node>, current: Node, ns: seq<Node>)
    ensures Grows(P0, Visit(P0, q0, current, ns).parents, current)
    decreases |ns|
  {
    if ns != [] {
      VisitGrows(P0, q0, current, ns[..|ns| - 1]);
    }
  }

  /** After the pass the recorded nodes are the old ones plus all of `ns`. */
  lemma {:induction false} VisitKeys(P0: Parents, q0: seq<Node>, current: Node, ns: seq<Node>)
    ensures Visit(P0, q0, current, ns).parents.Keys == P0.Keys + Elems(ns)
    decreases |ns|
  {
    if ns != [] {
      var init := ns[..|ns| - 1];
      VisitKeys(P0, q0, current, init);
      assert Elems(ns) == Elems(init) + {Last(ns)} by {
        assert ns == init + [Last(ns)];
      }
    }
  }

  /**
   * The pass keeps the old queue as a prefix and appends exactly the nodes
   * it records, each once.
   */
  lemma {:induction false} VisitQueue(P0: Parents, q0: seq<Node>, current: Node, ns: seq<Node>)
    ensures var s := Visit(P0, q0, current, ns);
      && |q0| <= |s.queue| && s.queue[..|q0|] == q0
      && Elems(s.queue[|q0|..]) == s.parents.Keys - P0.Keys
    decreases |ns|
  {
    if ns != [] {
      var s := Visit(P0, q0, current, ns[..|ns| - 1]);
      VisitQueue(P0, q0, current, ns[..|ns| - 1]);
      VisitGrows(P0, q0, current, ns[..|ns| - 1]);
      var n := Last(ns);
      if n !in s.parents {
        assert (s.queue + [n])[|q0|..] == s.queue[|q0|..] + [n];
        assert Elems(s.queue[|q0|..] + [n]) == Elems(s.queue[|q0|..]) + {n};
        assert (s.queue + [n])[..|q0|] == s.queue[..|q0|];
      }
    }
  }

  /** The queue grows by as many nodes as the map records. */
  lemma {:induction false} VisitCount(P0: Parents, q0: seq<Node>, current: Node, ns: seq<Node>)
    ensures var s := Visit(P0, q0, current, ns);
      |s.queue| - |q0| == |s.parents.Keys| - |P0.Keys|
    decreases |ns|
  {
    if ns != [] {
      var s := Visit(P0, q0, current, ns[..|ns| - 1]);
      VisitCount(P0, q0, current, ns[..|ns| - 1]);
      var n := Last(ns);
      if n !in s.parents {
        assert s.parents[n := Some(current)].Keys == s.parents.Keys + {n};
      }
    }
  }

  /** A completed pass over the popped node's neighbours keeps the state of the side, with that node expanded. */
  lemma Finish(g: Graph, queue: seq<Node>, P0: Parents, root: Node, d0: map<Node, nat>, expanded: set<Node>,
               P: Parents, d: map<Node, nat>, q: seq<Node>)
    requires FrontierInv(g, queue, P0, root, d0, expanded) && queue != [] && ParentTree(g, P, root, d)
    requires Visit(P0, queue[1..], queue[0], g.adj[queue[0]]) == SideState(P, q)
    ensures FrontierInv(g, q, P, root, d, expanded + {queue[0]})
  {
    var ns := g.adj[queue[0]];
    VisitKeys(P0, queue[1..], queue[0], ns);
    VisitQueue(P0, queue[1..], queue[0], ns);
    var q0 := queue[1..];
    forall k | k in P ensures k in expanded + {queue[0]} || k in q {
      if k !in P0 {
        assert k in Elems(q[|q0|..]);
      } else if k !in expanded && k != queue[0] {
        var j :| 0 <= j < |queue| && queue[j] == k;
        assert q[..|q0|][j - 1] == k;
      }
    }
    forall i | 0 <= i < |q| ensures q[i] in P {
      if i >= |q0| {
        assert q[|q0|..][i - |q0|] in Elems(q[|q0|..]);
      } else {
        assert q[..|q0|][i] == queue[i + 1];
      }
    }
  }

  /** Drops with every expansion: the pop removes one queued node, and each newly recorded node is queued once. */
  function SideMeasure(g: Graph, queue: seq<Node>, P: Parents): nat {
    |queue| + 2 * |g.adj.Keys - P.Keys|
  }

  /** `deque([root])` and `{root: None}`: a side that has recorded only its root, queued and not yet expanded. */
  lemma Fresh(g: Graph, root: Node)
    requires root in g.adj
    ensures FrontierInv(g, [root], map[root := None], root, map[root := 0], {})
  {
  }

  /** A side whose queue ran dry has expanded every recorded node, so the recorded nodes are closed under adjacency. */
  lemma Exhausted(g: Graph, P: Parents, root: Node, d: map<Node, nat>, expanded: set<Node>)
    requires FrontierInv(g, [], P, root, d, expanded)
    ensures ClosedUnderAdjacency(g, P.Keys)
  {
  }

  /**
   * `expand(graph, queue, parents, other_parents)`: pops the head of the
   * queue and records each neighbour not yet in the parent map, with the
   * popped node as its parent, appending it to the queue. As soon as such
   * a neighbour is already in the other side's map, it returns the path
   * joining the two roots through it. The deque and the dict it mutates
   * are passed in and returned updated; `root`, `depth` and `expanded` are
   * the side's ghost bookkeeping (see `FrontierInv`).
   *
   * Recorded parents never change and every new entry's parent is the
   * popped node. The measure `|queue| + 2 * |unrecorded nodes|` drops.
   * With a meeting, the result runs from this side's root to the other's
   * and repeats no node. Without one, the new queue and map are the full
   * pass `Visit` over the popped node's neighbours, the side's state is
   * kept with that node expanded, and the two maps stay disjoint.
   */
  method Expand(g: Graph, queue: seq<Node>, parents: Parents, ghost root: Node, ghost depth: map<Node, nat>, ghost expanded: set<Node>,
                otherParents: Parents, ghost otherRoot: Node, ghost otherDepth: map<Node, nat>)
    returns (q: seq<Node>, P: Parents, ghost d: map<Node, nat>, ghost e: set<Node>, path: Option<seq<Node>>)
    requires Closed(g) && Undirected(g)
    requires FrontierInv(g, queue, parents, root, depth, expanded) && ParentTree(g, otherParents, otherRoot, otherDepth)
    requires queue != [] && parents.Keys !! otherParents.Keys
    ensures Grows(parents, P, queue[0])
    ensures P.Keys <= g.adj.Keys
    ensures SideMeasure(g, q, P) < SideMeasure(g, queue, parents)
    ensures path.Some? ==> SimplePath(g, root, otherRoot, path.value)
    ensures path.None? ==> FrontierInv(g, q, P, root, d, e) && P.Keys !! otherParents.Keys
    ensures path.None? ==> SideState(P, q) == Visit(parents, queue[1..], queue[0], g.adj[queue[0]])
    ensures path.Some? ==>
      exists k :: MetAt(parents, queue[1..], queue[0], g.adj[queue[0]], k, P, q, d, otherParents, otherDepth, path.value)
  {
    var current := queue[0];
    var ns := g.adj[current];
    ghost var k;
    P, q, k, path := Scan(g, parents, queue[1..], root, depth, current, ns, otherParents, otherRoot, otherDepth);
    d := Deeper(parents, depth, current, P);
    VisitTree(g, parents, queue[1..], root, depth, current, ns[..k]);
    Settle(g, parents, queue[1..], current, ns[..k]);
    e := expanded;
    if path.Some? {
      assert MetAt(parents, queue[1..], current, ns, k, P, q, d, otherParents, otherDepth, path.value);
    }
    if path.None? {
      assert ns[..k] == ns;
      Finish(g, queue, parents, root, depth, expanded, P, d, q);
      e := expanded + {current};
    }
  }

  /**
   * The `for neighbor in graph[current]` loop of `expand`, on the map `P0`
   * and the queue `q0` left after popping `current`: records and queues
   * each neighbour not yet recorded, and stops with the joined path at the
   * first one the other side (`otherP`) has recorded.
   *
   * The result is the pass `Visit` over the first `k` neighbours: all of
   * them, with the two maps still disjoint, unless the sides met.
   */
  method Scan(g: Graph, P0: Parents, q0: seq<Node>, ghost root: Node, ghost d0: map<Node, nat>, current: Node, ns: seq<Node>,
              otherP: Parents, ghost otherRoot: Node, ghost otherD: map<Node, nat>)
    returns (P: Parents, q: seq<Node>, ghost k: nat, joined: Option<seq<Node>>)
    requires Closed(g) && Undirected(g) && current in g.adj && ns == g.adj[current]
    requires ParentTree(g, P0, root, d0) && current in P0
    requires ParentTree(g, otherP, otherRoot, otherD) && P0.Keys !! otherP.Keys
    ensures k <= |ns| && SideState(P, q) == Visit(P0, q0, current, ns[..k])
    ensures joined.Some? ==> SimplePath(g, root, otherRoot, joined.value)
    ensures joined.None? ==> k == |ns| && P.Keys !! otherP.Keys
    ensures joined.Some? ==> MetAt(P0, q0, current, ns, k, P, q, Deeper(P0, d0, current, P), otherP, otherD, joined.value)
  {
    P, q := P0, q0;
    for i := 0 to |ns|
      invariant SideState(P, q) == Visit(P0, q0, current, ns[..i])
      invariant P.Keys !! otherP.Keys
    {
      var neighbor := ns[i];
      VisitStep(P0, q0, current, ns, i);
      if neighbor !in P {
        P := P[neighbor := Some(current)];
        q := q + [neighbor];
        if neighbor in otherP {
          VisitTree(g, P0, q0, root, d0, current, ns[..i + 1]);
          ghost var d := Deeper(P0, d0, current, P);
          var path := Join(g, P, root, d, otherP, otherRoot, otherD, neighbor);
          assert MetAt(P0, q0, current, ns, i + 1, P, q, d, otherP, otherD, path);
          return P, q, i + 1, Some(path);
        }
      }
    }
    k, joined := |ns|, None;
  }

  /** Depths for a map grown from `P0`: old nodes keep theirs, new ones sit one below `current`. */
  ghost function Deeper(P0: Parents, d0: map<Node, nat>, current: Node, P: Parents): map<Node, nat>
    requires current in d0
  {
    map k | k in P :: if k in P0 && k in d0 then d0[k] else d0[current] + 1
  }

  /** A pass over neighbours of a recorded node keeps the parent tree. */
  lemma VisitTree(g: Graph, P0: Parents, q0: seq<Node>, root: Node, d0: map<Node, nat>, current: Node, ns: seq<Node>)
    requires Closed(g) && ParentTree(g, P0, root, d0) && current in P0
    requires forall x :: x in ns ==> x in g.adj[current]
    ensures var P := Visit(P0, q0, current, ns).parents;
      ParentTree(g, P, root, Deeper(P0, d0, current, P))
  {
    VisitGrows(P0, q0, current, ns);
    VisitKeys(P0, q0, current, ns);
  }

  /**
   * After a pass over some of the neighbours of `current`, the map grew
   * from `P0` with `current` as the new parents, and the queue gained no
   * more nodes than the map: the side's measure did not grow.
   */
  lemma Settle(g: Graph, P0: Parents, q0: seq<Node>, current: Node, ns: seq<Node>)
    requires P0.Keys <= g.adj.Keys && forall x :: x in ns ==> x in g.adj
    ensures var s := Visit(P0, q0, current, ns);
      && Grows(P0, s.parents, current)
      && s.parents.Keys <= g.adj.Keys
      && |s.queue| + 2 * |g.adj.Keys - s.parents.Keys| <= |q0| + 2 * |g.adj.Keys - P0.Keys|
  {
    VisitGrows(P0, q0, current, ns);
    VisitKeys(P0, q0, current, ns);
    VisitCount(P0, q0, current, ns);
    var s := Visit(P0, q0, current, ns);
    Progress(g, P0.Keys, s.parents.Keys, |q0| + 1, |s.queue|);
  }

  /**
   * The pass over the neighbours `ns` of `current` met the other side at
   * its `k`-th neighbour `n`: the neighbours before it met nothing, `n` was
   * not yet recorded here but is recorded in the other map, the pass
   * stopped right after recording it (leaving the state the first `k`
   * neighbours give), and `path` is `construct_path` at `n` over the grown
   * map `P` (depths `d`) and the other map (depths `otherD`).
   */
  ghost predicate MetAt(P0: Parents, q0: seq<Node>, current: Node, ns: seq<Node>, k: int,
                        P: Parents, q: seq<Node>, d: map<Node, nat>,
                        otherP: Parents, otherD: map<Node, nat>, path: seq<Node>) {
    && 0 < k <= |ns|
    && Visit(P0, q0, current, ns[..k - 1]).parents.Keys !! otherP.Keys
    && ns[k - 1] !in Visit(P0, q0, current, ns[..k - 1]).parents
    && ns[k - 1] in otherP
    && SideState(P, q) == Visit(P0, q0, current, ns[..k])
    && Shaped(P, d) && Shaped(otherP, otherD) && ns[k - 1] in P
    && path == Reverse(ChainFrom(P, d, Some(ns[k - 1]))) + ChainFrom(otherP, otherD, otherP[ns[k - 1]])
  }

  /**
   * `construct_path` called at a meeting node that the two trees share
   * alone: a path from the first root to the second that repeats no node.
   */
  method Join(g: Graph, P1: Parents, ghost r1: Node, ghost d1: map<Node, nat>,
              P2: Parents, ghost r2: Node, ghost d2: map<Node, nat>, m: Node) returns (path: seq<Node>)
    requires Undirected(g) && ParentTree(g, P1, r1, d1) && ParentTree(g, P2, r2, d2)
    requires m in P1 && m in P2 && forall k :: k in P1 && k in P2 ==> k == m
    ensures path == Reverse(ChainFrom(P1, d1, Some(m))) + ChainFrom(P2, d2, P2[m])
    ensures SimplePath(g, r1, r2, path)
  {
    path := ConstructPath(P1, P2, m, d1, d2);
    MeetingPath(g, P1, r1, d1, P2, r2, d2, m);
  }

  /** Recording `n` new nodes while the queue loses one and gains `n` lowers the search measure. */
  lemma Progress(g: Graph, K0: set<Node>, K: set<Node>, q0: nat, q: nat)
    requires K0 <= K <= g.adj.Keys && q0 > 0 && q - (q0 - 1) == |K| - |K0|
    ensures q + 2 * |g.adj.Keys - K| < q0 + 2 * |g.adj.Keys - K0|
  {
    assert g.adj.Keys - K0 == (g.adj.Keys - K) + (K - K0);
    assert |K - K0| == |K| - |K0| by {
      assert K == K0 + (K - K0);
    }
  }

  /**
   * `construct_path(start_parents, goal_parents, meeting_node)`: the chain
   * from the meeting node up to the first map's root, reversed, followed by
   * the second map's chain from the meeting node's parent up to its root.
   */
  method ConstructPath(startParents: Parents, goalParents: Parents, meeting: Node,
                       ghost d1: map<Node, nat>, ghost d2: map<Node, nat>) returns (path: seq<Node>)
    requires Shaped(startParents, d1) && Shaped(goalParents, d2)
    requires meeting in startParents && meeting in goalParents
    ensures path == Reverse(ChainFrom(startParents, d1, Some(meeting))) + ChainFrom(goalParents, d2, goalParents[meeting])
  {
    var pathStart: seq<Node> := [];
    var node := Some(meeting);
    while node.Some?
      invariant node.Some? ==> node.value in startParents
      invariant pathStart + ChainFrom(startParents, d1, node) == ChainFrom(startParents, d1, Some(meeting))
      decreases if node.None? then 0 else d1[node.value] + 1
    {
      pathStart := pathStart + [node.value];
      node := startParents[node.value];
    }
    assert pathStart + [] == pathStart;
    pathStart := Reverse(pathStart);

    var pathGoal: seq<Node> := [];
    node := goalParents[meeting];
    while node.Some?
      invariant node.Some? ==> node.value in goalParents
      invariant pathGoal + ChainFrom(goalParents, d2, node) == ChainFrom(goalParents, d2, goalParents[meeting])
      decreases if node.None? then 0 else d2[node.value] + 1
    {
      pathGoal := pathGoal + [node.value];
      node := goalParents[node.value];
    }
    assert pathGoal + [] == pathGoal;
    path := pathStart + pathGoal;
  }

  /**
   * A chain of parents starts at its node, ends at the root, stays among
   * the recorded nodes, goes from each node to its parent and strictly
   * lowers the depth.
   */
  lemma {:induction false} ChainFacts(g: Graph, P: Parents, root: Node, d: map<Node, nat>, node: Option<Node>)
    requires ParentTree(g, P, root, d) && (node.Some? ==> node.value in P)
    ensures var c := ChainFrom(P, d, node);
      && (c == [] <==> node.None?)
      && (c != [] ==> c[0] == node.value && Last(c) == root)
      && (forall i :: 0 <= i < |c| ==> c[i] in P)
      && (forall i, j :: 0 <= i < |c| - 1 && j == i + 1 ==> P[c[i]] == Some(c[j]))
      && (forall i, j :: 0 <= i < j < |c| ==> d[c[j]] < d[c[i]])
    decreases if node.None? then 0 else d[node.value] + 1
  {
    if node.Some? {
      var n := node.value;
      var rest := ChainFrom(P, d, P[n]);
      ChainFacts(g, P, root, d, P[n]);
      var c := [n] + rest;
      assert c == ChainFrom(P, d, node);
      if rest != [] {
        assert Last(c) == Last(rest);
      }
      forall i | 0 <= i < |c| ensures c[i] in P {
        if i > 0 {
          assert c[i] == rest[i - 1];
        }
      }
      forall i, j | 0 <= i < |c| - 1 && j == i + 1 ensures P[c[i]] == Some(c[j]) {
        if i > 0 {
          assert c[i] == rest[i - 1] && c[j] == rest[i];
        }
      }
      forall i, j | 0 <= i < j < |c| ensures d[c[j]] < d[c[i]] {
        assert c[j] == rest[j - 1];
        if i > 0 {
          assert c[i] == rest[i - 1];
        } else if j > 1 {
          assert d[rest[j - 1]] < d[rest[0]];
        }
      }
    }
  }

  /** In an undirected graph a non-empty chain of parents is a walk that repeats no node. */
  lemma ChainWalk(g: Graph, P: Parents, root: Node, d: map<Node, nat>, node: Option<Node>)
    requires Undirected(g) && ParentTree(g, P, root, d) && node.Some? && node.value in P
    ensures IsWalk(g, ChainFrom(P, d, node)) && Distinct(ChainFrom(P, d, node))
  {
    ChainFacts(g, P, root, d, node);
    var c := ChainFrom(P, d, node);
    forall i, j | 0 <= i < |c| - 1 && j == i + 1 ensures c[j] in g.adj[c[i]] {
      assert P[c[i]] == Some(c[j]);
    }
  }

  /**
   * The path `construct_path` builds when the two trees share only the
   * meeting node runs from the first root to the second and repeats no
   * node.
   */
  lemma MeetingPath(g: Graph, P1: Parents, r1: Node, d1: map<Node, nat>,
                    P2: Parents, r2: Node, d2: map<Node, nat>, m: Node)
    requires Undirected(g) && ParentTree(g, P1, r1, d1) && ParentTree(g, P2, r2, d2)
    requires m in P1 && m in P2 && forall k :: k in P1 && k in P2 ==> k == m
    ensures SimplePath(g, r1, r2, Reverse(ChainFrom(P1, d1, Some(m))) + ChainFrom(P2, d2, P2[m]))
  {
    var a := Reverse(ChainFrom(P1, d1, Some(m)));
    var c := ChainFrom(P2, d2, P2[m]);
    ReversedChain(g, P1, r1, d1, m);
    if P2[m].None? {
      assert c == [] && a + c == a;
      assert m == r2;
    } else {
      ParentChain(g, P2, r2, d2, m);
      assert forall i :: 0 <= i < |c| ==> c[i] !in P1;
      WalkConcat(g, a, c);
      JoinDistinct(a, c, P1.Keys);
      assert (a + c)[0] == r1 && Last(a + c) == r2;
    }
  }

  /** The chain from `m` read backwards runs from the root to `m` among the recorded nodes without repeating one. */
  lemma ReversedChain(g: Graph, P: Parents, root: Node, d: map<Node, nat>, m: Node)
    requires Undirected(g) && ParentTree(g, P, root, d) && m in P
    ensures var a := Reverse(ChainFrom(P, d, Some(m)));
      && IsWalk(g, a) && a[0] == root && Last(a) == m && Distinct(a)
      && forall i :: 0 <= i < |a| ==> a[i] in P
  {
    var c := ChainFrom(P, d, Some(m));
    ChainFacts(g, P, root, d, Some(m));
    ChainWalk(g, P, root, d, Some(m));
    ReverseWalk(g, c);
    ReverseDistinct(c);
    ReverseWithin(c, P.Keys);
  }

  /**
   * The chain from the parent of `m` is a walk from a neighbour of `m` to
   * the root that repeats no node and avoids `m`.
   */
  lemma ParentChain(g: Graph, P: Parents, root: Node, d: map<Node, nat>, m: Node)
    requires Undirected(g) && ParentTree(g, P, root, d) && m in P && P[m].Some?
    ensures var c := ChainFrom(P, d, P[m]);
      && IsWalk(g, c) && c[0] in g.adj[m] && Last(c) == root && Distinct(c)
      && forall i :: 0 <= i < |c| ==> c[i] in P && c[i] != m
  {
    var c := ChainFrom(P, d, P[m]);
    ChainFacts(g, P, root, d, P[m]);
    ChainWalk(g, P, root, d, P[m]);
    assert m in g.adj[c[0]];
    forall i | 0 <= i < |c| ensures c[i] != m {
      if i > 0 {
        assert d[c[i]] < d[c[0]];
      }
    }
  }

  /** Joining two sequences without repetitions, the first inside `s` and the second outside it, repeats nothing. */
  lemma JoinDistinct(a: seq<Node>, c: seq<Node>, s: set<Node>)
    requires Distinct(a) && Distinct(c)
    requires forall i :: 0 <= i < |a| ==> a[i] in s
    requires forall i :: 0 <= i < |c| ==> c[i] !in s
    ensures Distinct(a + c)
  {
    var p := a + c;
    forall i, j | 0 <= i < j < |p| ensures p[i] != p[j] {
      if j < |a| {
        assert p[i] == a[i] && p[j] == a[j];
      } else if i >= |a| {
        assert p[i] == c[i - |a|] && p[j] == c[j - |a|];
      } else {
        assert p[i] == a[i] && p[j] == c[j - |a|];
      }
    }
  }

  /**
   * `bidirectional_search(graph, start, goal)`: `[start]` when `start` is
   * the goal; otherwise the sides take turns expanding one node each until
   * they meet or a queue runs dry.
   *
   * `None` exactly when the goal is unreachable. A meeting found from the
   * start side gives a path from `start` to the goal; one found from the
   * goal side (`fromGoalSide`) gives it from the goal back to `start`,
   * because `construct_path` is then called with the maps swapped. Either
   * way no node repeats.
   */
  method BidirectionalSearch(g: Graph, start: Node, goal: Node) returns (r: Option<seq<Node>>, ghost fromGoalSide: bool)
    requires Closed(g) && Undirected(g) && start in g.adj && goal in g.adj
    ensures r.Some? && !fromGoalSide ==> SimplePath(g, start, goal, r.value)
    ensures r.Some? && fromGoalSide ==> SimplePath(g, goal, start, r.value)
    ensures r.None? <==> !Reachable(g, start, goal)
    ensures start == goal ==> r == Some([start]) && !fromGoalSide
  {
    fromGoalSide := false;
    if start == goal {
      assert PathBetween(g, start, goal, [start]);
      return Some([start]), false;
    }
    var startQueue, goalQueue := [start], [goal];
    var startParents: Parents, goalParents: Parents := map[start := None], map[goal := None];
    ghost var startDepth, goalDepth := map[start := 0], map[goal := 0];
    ghost var startExpanded: set<Node>, goalExpanded: set<Node> := {}, {};
    Fresh(g, start);
    Fresh(g, goal);
    while startQueue != [] && goalQueue != []
      invariant FrontierInv(g, startQueue, startParents, start, startDepth, startExpanded)
      invariant FrontierInv(g, goalQueue, goalParents, goal, goalDepth, goalExpanded)
      invariant startParents.Keys !! goalParents.Keys
      decreases SideMeasure(g, startQueue, startParents) + SideMeasure(g, goalQueue, goalParents)
    {
      var path;
      startQueue, startParents, startDepth, startExpanded, goalQueue, goalParents, goalDepth, goalExpanded, path, fromGoalSide :=
        Round(g, start, goal, startQueue, startParents, startDepth, startExpanded, goalQueue, goalParents, goalDepth, goalExpanded);
      if path.Some? {
        return path, fromGoalSide;
      }
    }
    Stalled(g, start, goal, startQueue, startParents, startDepth, startExpanded, goalQueue, goalParents, goalDepth, goalExpanded);
    r := None;
  }

  /**
   * One pass of the `while` body: expand the start side, then, unless a
   * path was found, the goal side. A goal-side meeting is flagged
   * `fromGoalSide` and runs from the goal back to `start`.
   */
  method Round(g: Graph, ghost start: Node, ghost goal: Node,
               sq: seq<Node>, sP: Parents, ghost sd: map<Node, nat>, ghost se: set<Node>,
               gq: seq<Node>, gP: Parents, ghost gd: map<Node, nat>, ghost ge: set<Node>)
    returns (sq': seq<Node>, sP': Parents, ghost sd': map<Node, nat>, ghost se': set<Node>,
             gq': seq<Node>, gP': Parents, ghost gd': map<Node, nat>, ghost ge': set<Node>,
             path: Option<seq<Node>>, ghost fromGoalSide: bool)
    requires Closed(g) && Undirected(g)
    requires FrontierInv(g, sq, sP, start, sd, se) && FrontierInv(g, gq, gP, goal, gd, ge)
    requires sq != [] && gq != [] && sP.Keys !! gP.Keys
    ensures path.Some? && !fromGoalSide ==> SimplePath(g, start, goal, path.value)
    ensures path.Some? && fromGoalSide ==> SimplePath(g, goal, start, path.value) && Reachable(g, start, goal)
    ensures path.None? ==> FrontierInv(g, sq', sP', start, sd', se') && FrontierInv(g, gq', gP', goal, gd', ge')
    ensures path.None? ==> sP'.Keys !! gP'.Keys
    ensures path.None? ==> SideMeasure(g, sq', sP') + SideMeasure(g, gq', gP') < SideMeasure(g, sq, sP) + SideMeasure(g, gq, gP)
    ensures path.Some? && !fromGoalSide ==>
      && gq' == gq && gP' == gP
      && exists k :: MetAt(sP, sq[1..], sq[0], g.adj[sq[0]], k, sP', sq', sd', gP, gd, path.value)
    ensures path.None? || fromGoalSide ==> SideState(sP', sq') == Visit(sP, sq[1..], sq[0], g.adj[sq[0]])
    ensures fromGoalSide ==>
      && path.Some?
      && exists k :: MetAt(gP, gq[1..], gq[0], g.adj[gq[0]], k, gP', gq', gd', sP', sd', path.value)
    ensures path.None? ==> SideState(gP', gq') == Visit(gP, gq[1..], gq[0], g.adj[gq[0]])
  {
    fromGoalSide := false;
    gq', gP', gd', ge' := gq, gP, gd, ge;
    sq', sP', sd', se', path := Expand(g, sq, sP, start, sd, se, gP, goal, gd);
    if path.Some? {
      return;
    }
    if gq' != [] {
      gq', gP', gd', ge', path := Expand(g, gq, gP, goal, gd, ge, sP', start, sd');
      if path.Some? {
        GoalSideReachable(g, start, goal, path.value);
        fromGoalSide := true;
      }
    }
  }

  /**
   * When one side's queue runs dry before the sides meet, that side has
   * recorded everything reachable from its root and not the other root:
   * the goal is unreachable.
   */
  lemma Stalled(g: Graph, start: Node, goal: Node,
                sq: seq<Node>, sP: Parents, sd: map<Node, nat>, se: set<Node>,
                gq: seq<Node>, gP: Parents, gd: map<Node, nat>, ge: set<Node>)
    requires Undirected(g)
    requires FrontierInv(g, sq, sP, start, sd, se) && FrontierInv(g, gq, gP, goal, gd, ge)
    requires sP.Keys !! gP.Keys && (sq == [] || gq == [])
    ensures !Reachable(g, start, goal)
  {
    if sq == [] {
      Exhausted(g, sP, start, sd, se);
      DeadEnd(g, sP.Keys, start, goal);
    } else {
      Exhausted(g, gP, goal, gd, ge);
      DeadEnd(g, gP.Keys, goal, start);
      ReachableSymmetric(g, start, goal);
    }
  }

  /** A path from the goal back to `start` shows the goal reachable from `start`. */
  lemma GoalSideReachable(g: Graph, start: Node, goal: Node, path: seq<Node>)
    requires Undirected(g) && SimplePath(g, goal, start, path)
    ensures Reachable(g, start, goal)
  {
    ReverseWalk(g, path);
    assert PathBetween(g, start, goal, Reverse(path));
  }

  /** A side whose queue ran dry has recorded everything reachable from its root, so not the other root. */
  lemma DeadEnd(g: Graph, keys: set<Node>, root: Node, target: Node)
    requires root in keys && target !in keys && ClosedUnderAdjacency(g, keys)
    ensures !Reachable(g, root, target)
  {
    forall w | PathBetween(g, root, target, w) ensures false {
      WalkStaysInClosedSet(g, keys, w);
    }
  }
}
