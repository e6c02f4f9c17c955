/**
 * The priority queue of whole paths shared by the branch-and-bound searches
 * and A*: a `heapq` list of tuples whose first component orders the pops,
 * extended by one neighbour at a time.
 */
module PathQueue {
  import opened ExtendedInt
  import opened Graph

  /**
   * One heap tuple. `key` is the component `heapq` orders by first; `cost`
   * is the weight summed along `path`, and `node` is the path's last node.
   * Branch_and_Bound.py pushes `(cost, node, path)`, whose key is the cost
   * itself; the g+h variants and A* push `(cost + h[node], cost, node, path)`;
   * branch_and_bound_greedy_heuristics.py pushes `(h[node], node, path)`,
   * whose entries carry a cost that search never reads.
   */
  datatype Entry = Entry(key: int, cost: nat, node: Node, path: seq<Node>)

  /** How a search computes the key of the entry it pushes. */
  datatype Keying = ByCost | ByEstimate(h: map<Node, nat>) | ByHeuristic(h: map<Node, nat>)

  /**
   * The key pushed for a path of cost `cost` ending at `n`: the cost, the
   * cost plus the heuristic of `n`, or the heuristic alone (a node without
   * a heuristic is never looked up, see `HasHeuristic`).
   */
  function Key(keying: Keying, cost: nat, n: Node): int {
    match keying
    case ByCost => cost
    case ByEstimate(h) => cost + (if n in h then h[n] else 0)
    case ByHeuristic(h) => if n in h then h[n] else 0
  }

  /** Every neighbour of the graph has a heuristic whenever the keys use one. */
  ghost predicate KeyReady(g: Graph, keying: Keying) {
    !keying.ByCost? ==> HasHeuristic(g, keying.h)
  }

  /**
   * An entry as every search pushes it: its path runs from `start` to its
   * node without repeating a node, its cost is the path's summed weight and
   * its key is computed from both.
   */
  ghost predicate Tracked(g: Graph, start: Node, keying: Keying, e: Entry) {
    && SimplePath(g, start, e.node, e.path)
    && e.cost == PathCost(g, e.path)
    && e.key == Key(keying, e.cost, e.node)
  }

  /** Every queued entry is tracked. */
  ghost predicate AllTracked(g: Graph, start: Node, keying: Keying, q: seq<Entry>) {
    forall k :: 0 <= k < |q| ==> Tracked(g, start, keying, q[k])
  }

  /** `heappop` may return the entry at `i`: no entry has a smaller key. */
  predicate MinAt(q: seq<Entry>, i: int) {
    0 <= i < |q| && forall j :: 0 <= j < |q| ==> q[i].key <= q[j].key
  }

  /** A non-empty heap has an entry `heappop` can return. */
  lemma {:induction false} MinExists(q: seq<Entry>)
    requires q != []
    ensures exists i :: MinAt(q, i)
    decreases |q|
  {
    if |q| > 1 {
      var init := q[..|q| - 1];
      MinExists(init);
      var i :| MinAt(init, i);
      if q[i].key <= Last(q).key {
        assert MinAt(q, i);
      } else {
        assert MinAt(q, |q| - 1);
      }
    } else {
      assert MinAt(q, 0);
    }
  }

  /** The heap after `heappop` took the entry at `i`: every other entry, once each. */
  function Remove(q: seq<Entry>, i: nat): (r: seq<Entry>)
    requires i < |q|
    ensures |r| == |q| - 1
    ensures forall k :: 0 <= k < |r| ==> r[k] == if k < i then q[k] else q[k + 1]
    ensures multiset(r) + multiset{q[i]} == multiset(q)
  {
    assert q == q[..i] + [q[i]] + q[i + 1..];
    q[..i] + q[i + 1..]
  }

  /**
   * The entries pushed by `for neighbor in graph.neighbors(node): if
   * neighbor not in path: heappush(...)` over the neighbours `ns` of the
   * popped entry `e`: one entry per neighbour not on the path, extending
   * the path by it and the cost by that edge's weight, in neighbour order.
   */
  function Extensions(g: Graph, keying: Keying, e: Entry, ns: seq<Node>): seq<Entry>
    decreases |ns|
  {
    if ns == [] then []
    else
      var rest := Extensions(g, keying, e, ns[..|ns| - 1]);
      var n := Last(ns);
      if n in e.path then rest
      else
        var c := e.cost + Weight(g, e.node, n);
        rest + [Entry(Key(keying, c, n), c, n, e.path + [n])]
  }

  /**
   * The branching loop of the branch-and-bound searches: pushes, for each
   * neighbour of the popped node not already on its path, that path
   * extended by the neighbour with the edge's weight added to the cost.
   * A push appends to the heap list; only pops look at the keys.
   */
  method Branch(g: Graph, keying: Keying, e: Entry, queue: seq<Entry>) returns (queue': seq<Entry>)
    requires e.node in g.adj
    ensures queue' == queue + Extensions(g, keying, e, g.adj[e.node])
  {
    queue' := queue;
    var ns := g.adj[e.node];
    for k := 0 to |ns|
      invariant queue' == queue + Extensions(g, keying, e, ns[..k])
    {
      var neighbor := ns[k];
      ExtensionsStep(g, keying, e, ns, k);
      if neighbor !in e.path {
        var newCost := e.cost + Weight(g, e.node, neighbor);
        queue' := queue' + [Entry(Key(keying, newCost, neighbor), newCost, neighbor, e.path + [neighbor])];
      }
    }
    assert ns[..|ns|] == ns;
  }

  /** One more neighbour of the loop, in the terms the loop sees it. */
  lemma ExtensionsStep(g: Graph, keying: Keying, e: Entry, ns: seq<Node>, i: nat)
    requires i < |ns|
    ensures Extensions(g, keying, e, ns[..i + 1]) ==
      if ns[i] in e.path then Extensions(g, keying, e, ns[..i])
      else
        var c := e.cost + Weight(g, e.node, ns[i]);
        Extensions(g, keying, e, ns[..i]) + [Entry(Key(keying, c, ns[i]), c, ns[i], e.path + [ns[i]])]
  {
    assert ns[..i + 1][..i] == ns[..i];
  }

  /**
   * Every pushed entry is tracked and extends the popped path by a node
   * not on it, and there is at most one per neighbour.
   */
  lemma {:induction false} ExtensionsTracked(g: Graph, start: Node, keying: Keying, e: Entry, ns: seq<Node>)
    requires Closed(g) && Tracked(g, start, keying, e)
    requires forall n :: n in ns ==> n in g.adj[e.node]
    ensures var r := Extensions(g, keying, e, ns);
      && |r| <= |ns|
      && forall k :: 0 <= k < |r| ==>
           Tracked(g, start, keying, r[k]) && r[k].path == e.path + [r[k].node] && r[k].node !in e.path
    decreases |ns|
  {
    if ns != [] {
      var init := ns[..|ns| - 1];
      ExtensionsTracked(g, start, keying, e, init);
      var n := Last(ns);
      if n !in e.path {
        WalkAppend(g, e.path, n);
        DistinctAppend(e.path, n);
      }
    }
  }

  /** There is at most one pushed entry per neighbour, each one node longer than the popped path. */
  lemma {:induction false} ExtensionsShape(g: Graph, keying: Keying, e: Entry, ns: seq<Node>)
    ensures var r := Extensions(g, keying, e, ns);
      |r| <= |ns| && forall k :: 0 <= k < |r| ==> |r[k].path| == |e.path| + 1
    decreases |ns|
  {
    if ns != [] {
      ExtensionsShape(g, keying, e, ns[..|ns| - 1]);
    }
  }

  /** A neighbour not on the popped path gets an entry extending the path by it. */
  lemma {:induction false} ExtensionsHave(g: Graph, keying: Keying, e: Entry, ns: seq<Node>, n: Node)
    requires n in ns && n !in e.path
    ensures exists k :: 0 <= k < |Extensions(g, keying, e, ns)| && Extensions(g, keying, e, ns)[k].path == e.path + [n]
    decreases |ns|
  {
    var init := ns[..|ns| - 1];
    var rest := Extensions(g, keying, e, init);
    if n in init {
      ExtensionsHave(g, keying, e, init, n);
      var k :| 0 <= k < |rest| && rest[k].path == e.path + [n];
      assert Extensions(g, keying, e, ns)[k] == rest[k];
    } else {
      assert n == Last(ns);
      assert Extensions(g, keying, e, ns)[|rest|].path == e.path + [n];
    }
  }

  /** A bound on the length of the neighbour lists of `keys`. */
  ghost function DegreeBound(adj: map<Node, seq<Node>>, keys: set<Node>): (d: nat)
    requires keys <= adj.Keys
    ensures forall u :: u in keys ==> |adj[u]| <= d
    decreases keys
  {
    if keys == {} then 0
    else
      var u :| u in keys;
      var d := DegreeBound(adj, keys - {u});
      if |adj[u]| > d then |adj[u]| else d
  }

  /**
   * The weight of an entry whose path can still grow by `k` nodes: it pays
   * for `D` entries one node longer, and one more.
   */
  function Pot(D: nat, k: nat): (r: nat)
    ensures r >= 1
  {
    if k == 0 then 1 else 1 + D * Pot(D, k - 1)
  }

  /** The weight of an entry on a graph of `N` nodes whose lists hold at most `D` neighbours. */
  function EntryPot(N: nat, D: nat, e: Entry): nat {
    if |e.path| <= N then Pot(D, N - |e.path|) else 1
  }

  /** The summed weight of the entries of a heap. */
  function QueuePot(N: nat, D: nat, q: seq<Entry>): nat
    decreases |q|
  {
    if q == [] then 0 else QueuePot(N, D, q[..|q| - 1]) + EntryPot(N, D, Last(q))
  }

  /**
   * The termination measure of a path search on `g`: each pop removes an
   * entry's weight, and what that entry pushes weighs less.
   */
  ghost function Measure(g: Graph, q: seq<Entry>): nat {
    QueuePot(|g.adj.Keys|, DegreeBound(g.adj, g.adj.Keys), q)
  }

  /** The weight of a concatenation is the sum of the weights. */
  lemma {:induction false} QueuePotConcat(N: nat, D: nat, q: seq<Entry>, r: seq<Entry>)
    ensures QueuePot(N, D, q + r) == QueuePot(N, D, q) + QueuePot(N, D, r)
    decreases |r|
  {
    if r == [] {
      assert q + r == q;
    } else {
      var init := r[..|r| - 1];
      QueuePotConcat(N, D, q, init);
      assert (q + r)[..|q + r| - 1] == q + init;
    }
  }

  /** Popping the entry at `i` removes exactly its weight. */
  lemma QueuePotRemove(N: nat, D: nat, q: seq<Entry>, i: nat)
    requires i < |q|
    ensures QueuePot(N, D, q) == QueuePot(N, D, Remove(q, i)) + EntryPot(N, D, q[i])
  {
    assert q == q[..i] + [q[i]] + q[i + 1..];
    QueuePotConcat(N, D, q[..i] + [q[i]], q[i + 1..]);
    QueuePotConcat(N, D, q[..i], [q[i]]);
    QueuePotConcat(N, D, q[..i], q[i + 1..]);
    assert QueuePot(N, D, [q[i]]) == EntryPot(N, D, q[i]) by {
      assert [q[i]][..0] == [];
    }
  }

  /** Entries of one common weight `v` weigh `v` apiece. */
  lemma {:induction false} QueuePotUniform(N: nat, D: nat, q: seq<Entry>, v: nat)
    requires forall k :: 0 <= k < |q| ==> EntryPot(N, D, q[k]) == v
    ensures QueuePot(N, D, q) == |q| * v
    decreases |q|
  {
    if q != [] {
      QueuePotUniform(N, D, q[..|q| - 1], v);
      assert |q| * v == (|q| - 1) * v + v;
    }
  }

  /** A path that repeats no node and holds every node of the graph leaves no neighbour off it. */
  lemma FullPath(g: Graph, p: seq<Node>, n: Node)
    requires Distinct(p) && (forall i :: 0 <= i < |p| ==> p[i] in g.adj) && |p| >= |g.adj.Keys| && n in g.adj
    ensures n in p
  {
    if n !in p {
      DistinctAppend(p, n);
      DistinctLength(p + [n], g.adj.Keys);
    }
  }

  /**
   * Expanding a tracked entry lowers the measure: the entries it pushes
   * weigh less than the entry popped.
   */
  lemma ExpansionShrinks(g: Graph, start: Node, keying: Keying, q: seq<Entry>, i: nat, ns: seq<Node>)
    requires Closed(g) && i < |q| && Tracked(g, start, keying, q[i])
    requires q[i].node in g.adj && ns == g.adj[q[i].node]
    ensures Measure(g, Remove(q, i) + Extensions(g, keying, q[i], ns)) < Measure(g, q)
  {
    var N, D := |g.adj.Keys|, DegreeBound(g.adj, g.adj.Keys);
    QueuePotRemove(N, D, q, i);
    QueuePotConcat(N, D, Remove(q, i), Extensions(g, keying, q[i], ns));
    ExtensionsLighter(g, start, keying, q[i]);
  }

  /** What one expansion pushes weighs less than the entry expanded. */
  lemma ExtensionsLighter(g: Graph, start: Node, keying: Keying, e: Entry)
    requires Closed(g) && Tracked(g, start, keying, e) && e.node in g.adj
    ensures var N, D := |g.adj.Keys|, DegreeBound(g.adj, g.adj.Keys);
      QueuePot(N, D, Extensions(g, keying, e, g.adj[e.node])) < EntryPot(N, D, e)
  {
    var N, D := |g.adj.Keys|, DegreeBound(g.adj, g.adj.Keys);
    var ns := g.adj[e.node];
    var ext := Extensions(g, keying, e, ns);
    ExtensionsShape(g, keying, e, ns);
    DistinctLength(e.path, g.adj.Keys);
    if |e.path| == N {
      FullPathStops(g, start, keying, e);
    } else {
      var v := Pot(D, N - |e.path| - 1);
      QueuePotUniform(N, D, ext, v);
      PotPays(D, N - |e.path|, |ext|);
    }
  }

  /** A path through every node of the graph has no neighbour left to extend it by. */
  lemma FullPathStops(g: Graph, start: Node, keying: Keying, e: Entry)
    requires Closed(g) && Tracked(g, start, keying, e) && e.node in g.adj && |e.path| >= |g.adj.Keys|
    ensures Extensions(g, keying, e, g.adj[e.node]) == []
  {
    var ext := Extensions(g, keying, e, g.adj[e.node]);
    ExtensionsTracked(g, start, keying, e, g.adj[e.node]);
    if ext != [] {
      FullPath(g, e.path, ext[0].node);
    }
  }

  /** Up to `D` entries of the next smaller weight weigh less than one entry of weight `Pot(D, k)`. */
  lemma PotPays(D: nat, k: nat, m: nat)
    requires 1 <= k && m <= D
    ensures m * Pot(D, k - 1) < Pot(D, k)
  {
    MulMono(m, D, Pot(D, k - 1));
  }

  lemma MulMono(a: nat, b: nat, v: nat)
    requires a <= b
    ensures a * v <= b * v
  {
  }

  /** Popping an entry without expanding it lowers the measure. */
  lemma PopShrinks(g: Graph, q: seq<Entry>, i: nat)
    requires i < |q|
    ensures Measure(g, Remove(q, i)) < Measure(g, q)
  {
    QueuePotRemove(|g.adj.Keys|, DegreeBound(g.adj, g.adj.Keys), q, i);
  }

  /** Popping an entry and pushing the extensions of its path keeps every queued entry tracked. */
  lemma ExpansionTracked(g: Graph, start: Node, keying: Keying, q: seq<Entry>, i: nat)
    requires Closed(g) && i < |q| && AllTracked(g, start, keying, q) && q[i].node in g.adj
    ensures AllTracked(g, start, keying, Remove(q, i) + Extensions(g, keying, q[i], g.adj[q[i].node]))
  {
    ExtensionsTracked(g, start, keying, q[i], g.adj[q[i].node]);
  }

  /** Some queued path is a prefix of `p`. */
  ghost predicate Prefixed(q: seq<Entry>, p: seq<Node>) {
    exists j :: 0 <= j < |q| && q[j].path <= p
  }

  /** A path prefixed by a queued entry other than the popped one stays prefixed after the pop, whatever is pushed. */
  lemma PrefixedAfterPop(q: seq<Entry>, i: nat, ext: seq<Entry>, p: seq<Node>, j: nat)
    requires i < |q| && j < |q| && j != i && q[j].path <= p
    ensures Prefixed(Remove(q, i) + ext, p)
  {
    var r := Remove(q, i) + ext;
    var k := if j < i then j else j - 1;
    assert r[k] == q[j];
  }

  /**
   * A simple path from `start` to `goal` with the popped, non-goal entry's
   * path as a prefix continues by a neighbour off that path, whose
   * extension the expansion pushes.
   */
  lemma PrefixedAfterExpansion(g: Graph, start: Node, goal: Node, keying: Keying, q: seq<Entry>, i: nat, p: seq<Node>)
    requires i < |q| && q[i].path <= p && |q[i].path| > 0 && Last(q[i].path) == q[i].node && q[i].node != goal
    requires SimplePath(g, start, goal, p) && q[i].node in g.adj
    ensures Prefixed(Remove(q, i) + Extensions(g, keying, q[i], g.adj[q[i].node]), p)
  {
    var e := q[i];
    var m := |e.path|;
    assert p[m - 1] == e.node;
    var n := p[m];
    assert n in g.adj[e.node];
    assert n !in e.path by {
      forall k | 0 <= k < m ensures e.path[k] != n {
        assert e.path[k] == p[k];
      }
    }
    var ext := Extensions(g, keying, e, g.adj[e.node]);
    ExtensionsHave(g, keying, e, g.adj[e.node], n);
    var k :| 0 <= k < |ext| && ext[k].path == e.path + [n];
    assert e.path + [n] == p[..m + 1];
    var r := Remove(q, i) + ext;
    assert r[|q| - 1 + k] == ext[k];
  }
}
