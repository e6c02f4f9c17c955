/**
 * The weighted undirected graph that every path search reads: a networkx
 * `Graph` whose neighbour lists keep insertion order and whose edges carry
 * a `weight` attribute.
 */
module Graph {

  /** Node identifiers are the strings typed into the user interface. */
  type Node = string

  /**
   * `adj[u]` lists the neighbours of `u` in the order networkx reports them;
   * `weight[(u, v)]` is the edge attribute `graph[u][v]['weight']`.
   */
  datatype Graph = Graph(adj: map<Node, seq<Node>>, weight: map<(Node, Node), nat>)

  /** Every listed neighbour is itself a node of the graph, as in networkx. */
  ghost predicate Closed(g: Graph) {
    forall u, v :: u in g.adj && v in g.adj[u] ==> v in g.adj
  }

  /** The graph is undirected: `v` neighbours `u` exactly when `u` neighbours `v`. */
  ghost predicate Undirected(g: Graph) {
    forall u, v :: u in g.adj && v in g.adj[u] ==> v in g.adj && u in g.adj[v]
  }

  /**
   * Every edge carries a `weight` attribute; reading a missing one raises
   * `KeyError` in the source.
   */
  ghost predicate Weighted(g: Graph) {
    forall u, v :: u in g.adj && v in g.adj[u] ==> (u, v) in g.weight
  }

  predicate Adjacent(g: Graph, u: Node, v: Node) {
    u in g.adj && v in g.adj[u]
  }

  /**
   * `graph[u][v]['weight']`. The searches only look up edges, where the
   * weight is present; elsewhere this reads 0.
   */
  function Weight(g: Graph, u: Node, v: Node): nat {
    if (u, v) in g.weight then g.weight[(u, v)] else 0
  }

  /**
   * The heuristic map `st.session_state.heuristics` has an entry for every
   * node, and so for every neighbour; a lookup of a node without one raises
   * `KeyError` in the source.
   */
  ghost predicate HasHeuristic(g: Graph, h: map<Node, nat>) {
    && (forall u :: u in g.adj ==> u in h)
    && (forall u, v :: u in g.adj && v in g.adj[u] ==> v in h)
  }

  function Last<T>(p: seq<T>): T
    requires |p| > 0
  {
    p[|p| - 1]
  }

  /** A non-empty node sequence in which consecutive nodes are adjacent. */
  ghost predicate IsWalk(g: Graph, p: seq<Node>) {
    && |p| > 0
    && (forall i :: 0 <= i < |p| ==> p[i] in g.adj)
    && (forall i, j :: 0 <= i < |p| - 1 && j == i + 1 ==> p[j] in g.adj[p[i]])
  }

  /** The nodes of `s` in the opposite order. */
  function Reverse<T>(s: seq<T>): (r: seq<T>)
    ensures |r| == |s| && forall i :: 0 <= i < |s| ==> r[i] == s[|s| - 1 - i]
  {
    if s == [] then [] else Reverse(s[1..]) + [s[0]]
  }

  /** In an undirected graph a walk read backwards is a walk. */
  lemma ReverseWalk(g: Graph, p: seq<Node>)
    requires Undirected(g) && IsWalk(g, p)
    ensures IsWalk(g, Reverse(p))
  {
    var r := Reverse(p);
    forall i, j | 0 <= i < |r| - 1 && j == i + 1 ensures r[j] in g.adj[r[i]] {
      assert r[i] == p[|p| - 1 - i] && r[j] == p[|p| - 2 - i];
      assert p[|p| - 1 - i] in g.adj[p[|p| - 2 - i]];
    }
  }

  /** Reading a sequence backwards keeps it free of repetitions. */
  lemma ReverseDistinct(p: seq<Node>)
    requires Distinct(p)
    ensures Distinct(Reverse(p))
  {
    var r := Reverse(p);
    forall i, j | 0 <= i < j < |r| ensures r[i] != r[j] {
      assert r[i] == p[|p| - 1 - i] && r[j] == p[|p| - 1 - j];
    }
  }

  /** Reading a sequence backwards keeps it inside any set that holds it. */
  lemma ReverseWithin(p: seq<Node>, s: set<Node>)
    requires forall i :: 0 <= i < |p| ==> p[i] in s
    ensures forall i :: 0 <= i < |p| ==> Reverse(p)[i] in s
  {
    var r := Reverse(p);
    forall i | 0 <= i < |r| ensures r[i] in s {
      assert r[i] == p[|p| - 1 - i];
    }
  }

  /** Two walks joined by an edge make one walk. */
  lemma WalkConcat(g: Graph, p: seq<Node>, q: seq<Node>)
    requires IsWalk(g, p) && IsWalk(g, q) && q[0] in g.adj[Last(p)]
    ensures IsWalk(g, p + q)
  {
    var r := p + q;
    forall i, j | 0 <= i < |r| - 1 && j == i + 1 ensures r[j] in g.adj[r[i]] {
      if j < |p| {
        assert r[i] == p[i] && r[j] == p[j];
      } else if i >= |p| {
        assert r[i] == q[i - |p|] && r[j] == q[j - |p|];
      }
    }
  }

  /** A walk from `s` to `t`. */
  ghost predicate PathBetween(g: Graph, s: Node, t: Node, p: seq<Node>) {
    IsWalk(g, p) && p[0] == s && Last(p) == t
  }

  ghost predicate Distinct(p: seq<Node>) {
    forall i, j :: 0 <= i < j < |p| ==> p[i] != p[j]
  }

  /** A walk from `s` to `t` that repeats no node. */
  ghost predicate SimplePath(g: Graph, s: Node, t: Node, p: seq<Node>) {
    PathBetween(g, s, t, p) && Distinct(p)
  }

  ghost predicate Reachable(g: Graph, s: Node, t: Node) {
    exists p :: PathBetween(g, s, t, p)
  }

  /**
   * The sum of edge weights over consecutive pairs,
   * `sum(graph[p[i]][p[i + 1]]['weight'] for i in range(len(p) - 1))`.
   */
  ghost function PathCost(g: Graph, p: seq<Node>): nat
    requires |p| > 0
    decreases |p|
  {
    if |p| == 1 then 0
    else PathCost(g, p[..|p| - 1]) + Weight(g, p[|p| - 2], p[|p| - 1])
  }

  /**
   * `sum(graph[p[i]][p[i + 1]]['weight'] for i in range(len(p) - 1))`,
   * summed from the front as the generator runs.
   */
  function SumWeights(g: Graph, p: seq<Node>): nat {
    if |p| <= 1 then 0 else Weight(g, p[0], p[1]) + SumWeights(g, p[1..])
  }

  /** Summing from the front gives the path's cost. */
  lemma {:induction false} SumWeightsIsCost(g: Graph, p: seq<Node>)
    requires |p| > 0
    ensures SumWeights(g, p) == PathCost(g, p)
    decreases |p|
  {
    if |p| > 2 {
      var q := p[..|p| - 1];
      SumWeightsIsCost(g, q);
      SumWeightsIsCost(g, p[1..]);
      SumWeightsIsCost(g, q[1..]);
      assert p[1..][..|p| - 2] == q[1..];
    }
  }

  /** Appending an adjacent node extends a walk and adds that edge's weight. */
  lemma WalkAppend(g: Graph, p: seq<Node>, n: Node)
    requires Closed(g) && IsWalk(g, p) && Adjacent(g, Last(p), n)
    ensures IsWalk(g, p + [n])
    ensures PathCost(g, p + [n]) == PathCost(g, p) + Weight(g, Last(p), n)
  {
    assert (p + [n])[..|p|] == p;
  }

  /** Every contiguous piece of a walk is a walk. */
  lemma WalkSlice(g: Graph, p: seq<Node>, a: nat, b: nat)
    requires IsWalk(g, p) && a < b <= |p|
    ensures IsWalk(g, p[a..b])
  {
    var q := p[a..b];
    forall i, j | 0 <= i < |q| - 1 && j == i + 1 ensures q[j] in g.adj[q[i]] {
      assert q[i] == p[a + i] && q[j] == p[a + i + 1];
    }
  }

  /** A prefix costs no more than the whole sequence. */
  lemma {:induction false} PrefixCost(g: Graph, p: seq<Node>, k: nat)
    requires 1 <= k <= |p|
    ensures PathCost(g, p[..k]) <= PathCost(g, p)
    decreases |p| - k
  {
    if k == |p| {
      assert p[..k] == p;
    } else {
      var q := p[..|p| - 1];
      PrefixCost(g, q, k);
      assert q[..k] == p[..k];
    }
  }

  /** The cost of a sequence splits at any of its nodes. */
  lemma {:induction false} SplitCost(g: Graph, p: seq<Node>, k: nat)
    requires k < |p|
    ensures PathCost(g, p) == PathCost(g, p[..k + 1]) + PathCost(g, p[k..])
    decreases |p|
  {
    if k < |p| - 1 {
      var q := p[..|p| - 1];
      SplitCost(g, q, k);
      assert q[..k + 1] == p[..k + 1];
      var r := p[k..];
      assert r[..|r| - 1] == q[k..];
      assert r[|r| - 2] == p[|p| - 2] && r[|r| - 1] == p[|p| - 1];
    } else {
      assert p[..k + 1] == p;
      assert |p[k..]| == 1;
    }
  }

  /**
   * Cutting out the cycle between two occurrences of the same node leaves a
   * walk with the same ends that is shorter and costs no more.
   */
  lemma CutCycle(g: Graph, p: seq<Node>, i: nat, j: nat)
    requires IsWalk(g, p) && i < j < |p| && p[i] == p[j]
    ensures IsWalk(g, p[..i] + p[j..])
    ensures PathCost(g, p[..i] + p[j..]) <= PathCost(g, p)
  {
    CutCycleWalk(g, p, i, j);
    CutCycleCost(g, p, i, j);
  }

  /** The walk half of `CutCycle`. */
  lemma CutCycleWalk(g: Graph, p: seq<Node>, i: nat, j: nat)
    requires IsWalk(g, p) && i < j < |p| && p[i] == p[j]
    ensures IsWalk(g, p[..i] + p[j..])
  {
    var q := p[..i] + p[j..];
    forall a, b | 0 <= a < |q| - 1 && b == a + 1 ensures q[b] in g.adj[q[a]] {
      if a + 1 < i {
        assert q[a] == p[a] && q[b] == p[a + 1];
      } else if a + 1 == i {
        assert q[a] == p[a] && q[b] == p[j] == p[a + 1];
      } else {
        assert q[a] == p[a + j - i] && q[b] == p[a + j - i + 1];
      }
    }
    forall a | 0 <= a < |q| ensures q[a] in g.adj {
      if a < i {
        assert q[a] == p[a];
      } else {
        assert q[a] == p[a + j - i];
      }
    }
  }

  /** The cost half of `CutCycle`. */
  lemma CutCycleCost(g: Graph, p: seq<Node>, i: nat, j: nat)
    requires i < j < |p| && p[i] == p[j]
    ensures PathCost(g, p[..i] + p[j..]) <= PathCost(g, p)
  {
    var q := p[..i] + p[j..];
    assert q[..i + 1] == p[..i + 1];
    assert q[i..] == p[j..];
    SplitCost(g, p, i);
    SplitCost(g, p[i..], j - i);
    assert p[i..][j - i..] == p[j..];
    SplitCost(g, q, i);
  }

  /**
   * Every walk can be shortened to a path that repeats no node, has the same
   * ends and costs no more.
   */
  lemma {:induction false} Shortcut(g: Graph, p: seq<Node>) returns (q: seq<Node>)
    requires IsWalk(g, p)
    ensures SimplePath(g, p[0], Last(p), q)
    ensures |q| <= |p| && PathCost(g, q) <= PathCost(g, p)
    decreases |p|
  {
    if Distinct(p) {
      q := p;
    } else {
      var i, j :| 0 <= i < j < |p| && p[i] == p[j];
      CutCycle(g, p, i, j);
      var r := p[..i] + p[j..];
      assert r[0] == p[0] && Last(r) == Last(p);
      q := Shortcut(g, r);
    }
  }

  /** Appending a node not yet on a path keeps it free of repetitions. */
  lemma DistinctAppend(p: seq<Node>, n: Node)
    requires Distinct(p) && n !in p
    ensures Distinct(p + [n])
  {
    var q := p + [n];
    forall a, b | 0 <= a < b < |q| ensures q[a] != q[b] {
      assert q[a] == p[a];
      if b < |p| {
        assert q[b] == p[b];
      }
    }
  }

  /** In an undirected graph reachability is symmetric. */
  lemma ReachableSymmetric(g: Graph, s: Node, t: Node)
    requires Undirected(g)
    ensures Reachable(g, s, t) <==> Reachable(g, t, s)
  {
    if Reachable(g, s, t) {
      var w :| PathBetween(g, s, t, w);
      ReverseWalk(g, w);
      assert PathBetween(g, t, s, Reverse(w));
    }
    if Reachable(g, t, s) {
      var w :| PathBetween(g, t, s, w);
      ReverseWalk(g, w);
      assert PathBetween(g, s, t, Reverse(w));
    }
  }

  /** The nodes occurring in `s`. */
  function Elems(s: seq<Node>): (r: set<Node>)
    ensures forall x :: x in r <==> x in s
  {
    set x | x in s
  }

  /** A set closed under adjacency. */
  ghost predicate ClosedUnderAdjacency(g: Graph, s: set<Node>) {
    forall v, u :: v in s && v in g.adj && u in g.adj[v] ==> u in s
  }

  /** A walk that starts inside a set closed under adjacency never leaves it. */
  lemma {:induction false} WalkStaysInClosedSet(g: Graph, s: set<Node>, p: seq<Node>)
    requires IsWalk(g, p) && p[0] in s && ClosedUnderAdjacency(g, s)
    ensures Last(p) in s
    decreases |p|
  {
    if |p| > 1 {
      var q := p[..|p| - 1];
      WalkSlice(g, p, 0, |p| - 1);
      WalkStaysInClosedSet(g, s, q);
      assert p[|p| - 1] in g.adj[p[|p| - 2]];
    }
  }

  /** A sequence without repetitions drawn from `s` is no longer than `s` is large. */
  lemma {:induction false} DistinctLength(p: seq<Node>, s: set<Node>)
    requires Distinct(p) && forall i :: 0 <= i < |p| ==> p[i] in s
    ensures |p| <= |s|
    decreases |p|
  {
    if |p| > 0 {
      var x := Last(p);
      var q := p[..|p| - 1];
      assert forall i :: 0 <= i < |q| ==> q[i] in s - {x};
      DistinctLength(q, s - {x});
    }
  }
}
