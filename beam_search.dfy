/**
 * Beam_Search.py: `beam_search(graph, start, goal, beam_width)`, with the
 * stable sort by heuristic that selects each next beam.
 */
module BeamSearch {
  import opened Wrappers
  import opened Graph

  /** A beam entry, the tuple `(node, path)`. */
  datatype Member = Member(node: Node, path: seq<Node>)

  /** Every entry's node has a heuristic value. */
  ghost predicate Keyed(h: map<Node, nat>, s: seq<Member>) {
    forall i :: 0 <= i < |s| ==> s[i].node in h
  }

  // ---------------------------------------------------------------------
  // `sorted(next_nodes, key=lambda x: heuristics[x[0]])`
  // ---------------------------------------------------------------------

  /** Ascending by the heuristic of the entry's node. */
  ghost predicate SortedByHeuristic(h: map<Node, nat>, s: seq<Member>)
    requires Keyed(h, s)
  {
    forall i, j :: 0 <= i < j < |s| ==> h[s[i].node] <= h[s[j].node]
  }

  /** The entries whose node has heuristic `k`, in their order in `s`. */
  function WithKey(h: map<Node, nat>, k: nat, s: seq<Member>): seq<Member>
    requires Keyed(h, s)
  {
    if s == [] then []
    else (if h[s[0].node] == k then [s[0]] else []) + WithKey(h, k, s[1..])
  }

  /** Inserts `x` in front of the first entry whose key is not below its own. */
  function Insert(h: map<Node, nat>, x: Member, s: seq<Member>): (r: seq<Member>)
    requires x.node in h && Keyed(h, s)
    ensures Keyed(h, r) && multiset(r) == multiset(s) + multiset{x}
  {
    if s == [] || h[x.node] <= h[s[0].node] then [x] + s
    else
      assert s == [s[0]] + s[1..];
      [s[0]] + Insert(h, x, s[1..])
  }

  /**
   * The stable sort by heuristic: each entry, taken from the back, is
   * inserted ahead of every entry of the same key that followed it.
   */
  function SortByHeuristic(h: map<Node, nat>, s: seq<Member>): (r: seq<Member>)
    requires Keyed(h, s)
    ensures Keyed(h, r) && multiset(r) == multiset(s)
  {
    if s == [] then []
    else
      assert s == [s[0]] + s[1..];
      Insert(h, s[0], SortByHeuristic(h, s[1..]))
  }

  /** Inserting into a sorted sequence keeps it sorted. */
  lemma {:induction false} InsertSorted(h: map<Node, nat>, x: Member, s: seq<Member>)
    requires x.node in h && Keyed(h, s) && SortedByHeuristic(h, s)
    ensures SortedByHeuristic(h, Insert(h, x, s))
  {
    if s == [] || h[x.node] <= h[s[0].node] {
      SortedCons(h, x, s);
    } else {
      var t := s[1..];
      var rt := Insert(h, x, t);
      assert SortedByHeuristic(h, t);
      InsertSorted(h, x, t);
      forall j | 0 <= j < |rt| ensures h[s[0].node] <= h[rt[j].node] {
        assert rt[j] in multiset(t) + multiset{x};
        if rt[j] != x {
          var k :| 0 <= k < |t| && t[k] == rt[j];
          assert s[k + 1] == t[k];
        }
      }
      SortedCons(h, s[0], rt);
    }
  }

  /** An entry no higher than any entry of a sorted sequence can go in front of it. */
  lemma SortedCons(h: map<Node, nat>, x: Member, s: seq<Member>)
    requires x.node in h && Keyed(h, s) && SortedByHeuristic(h, s)
    requires forall j :: 0 <= j < |s| ==> h[x.node] <= h[s[j].node]
    ensures Keyed(h, [x] + s) && SortedByHeuristic(h, [x] + s)
  {
    var r := [x] + s;
    forall i, j | 0 <= i < j < |r| ensures h[r[i].node] <= h[r[j].node] {
      assert r[j] == s[j - 1];
      if i > 0 {
        assert r[i] == s[i - 1];
      }
    }
  }

  /** `WithKey` of a sequence with a given first entry. */
  lemma WithKeyCons(h: map<Node, nat>, k: nat, m: Member, s: seq<Member>)
    requires m.node in h && Keyed(h, s)
    ensures WithKey(h, k, [m] + s) == (if h[m.node] == k then [m] else []) + WithKey(h, k, s)
  {
    assert ([m] + s)[1..] == s;
  }

  /** Inserting `x` adds it to its own key's group, at the front, and leaves the other groups alone. */
  lemma {:induction false} InsertWithKey(h: map<Node, nat>, k: nat, x: Member, s: seq<Member>)
    requires x.node in h && Keyed(h, s)
    ensures WithKey(h, k, Insert(h, x, s)) == (if h[x.node] == k then [x] else []) + WithKey(h, k, s)
  {
    if s == [] || h[x.node] <= h[s[0].node] {
      WithKeyCons(h, k, x, s);
    } else {
      var t := s[1..];
      var rt := Insert(h, x, t);
      assert s == [s[0]] + t;
      InsertWithKey(h, k, x, t);
      WithKeyCons(h, k, s[0], rt);
      WithKeyCons(h, k, s[0], t);
      // `x` and `s[0]` have different keys, so at most one of them joins the group.
      if h[x.node] == k {
        assert WithKey(h, k, [s[0]] + rt) == [x] + WithKey(h, k, t);
      } else {
        assert WithKey(h, k, [s[0]] + rt) == WithKey(h, k, s);
      }
    }
  }

  /**
   * The sort is a stable sort: its result is ascending by heuristic, a
   * permutation of its input, and keeps the input order among entries of
   * equal heuristic.
   */
  lemma {:induction false} SortIsStableSort(h: map<Node, nat>, s: seq<Member>)
    requires Keyed(h, s)
    ensures SortedByHeuristic(h, SortByHeuristic(h, s))
    ensures multiset(SortByHeuristic(h, s)) == multiset(s)
    ensures forall k :: WithKey(h, k, SortByHeuristic(h, s)) == WithKey(h, k, s)
  {
    if s != [] {
      var t := s[1..];
      SortIsStableSort(h, t);
      InsertSorted(h, s[0], SortByHeuristic(h, t));
      forall k ensures WithKey(h, k, SortByHeuristic(h, s)) == WithKey(h, k, s) {
        InsertWithKey(h, k, s[0], SortByHeuristic(h, t));
      }
    }
  }

  // ---------------------------------------------------------------------
  // One round of the beam
  // ---------------------------------------------------------------------

  /** The candidates of one entry: `(neighbor, path + [neighbor])` for each neighbour in `ns` not on its path. */
  function Extend(m: Member, ns: seq<Node>): seq<Member>
  {
    if ns == [] then []
    else
      var n := Last(ns);
      Extend(m, ns[..|ns| - 1]) + (if n in m.path then [] else [Member(n, m.path + [n])])
  }

  /** `next_nodes` after expanding every entry of `beam` in order. */
  function Candidates(g: Graph, beam: seq<Member>): seq<Member>
    requires forall i :: 0 <= i < |beam| ==> beam[i].node in g.adj
  {
    if beam == [] then []
    else
      var m := Last(beam);
      Candidates(g, beam[..|beam| - 1]) + Extend(m, g.adj[m.node])
  }

  /** Python's slice `s[:w]`. */
  function Take(s: seq<Member>, w: nat): seq<Member> {
    if |s| <= w then s else s[..w]
  }

  /** The next beam: the candidates stably sorted by heuristic, cut to `width`. */
  function NextBeam(g: Graph, h: map<Node, nat>, width: nat, beam: seq<Member>): seq<Member>
    requires HasHeuristic(g, h) && forall i :: 0 <= i < |beam| ==> beam[i].node in g.adj
  {
    CandidatesKeyed(g, h, beam);
    Take(SortByHeuristic(h, Candidates(g, beam)), width)
  }

  /** The path of the first entry whose node is the goal. */
  function FirstGoal(beam: seq<Member>, goal: Node): (r: Option<seq<Node>>)
    ensures r.None? <==> forall i :: 0 <= i < |beam| ==> beam[i].node != goal
    ensures r.Some? ==> exists i :: 0 <= i < |beam| && beam[i].node == goal && r.value == beam[i].path &&
                                    forall j :: 0 <= j < i ==> beam[j].node != goal
  {
    if beam == [] then None
    else if beam[0].node == goal then Some(beam[0].path)
    else
      var r := FirstGoal(beam[1..], goal);
      if r.Some? then
        var i :| 0 <= i < |beam[1..]| && beam[1..][i].node == goal && r.value == beam[1..][i].path &&
                 forall j :: 0 <= j < i ==> beam[1..][j].node != goal;
        assert beam[i + 1] == beam[1..][i];
        r
      else r
  }

  /** After a goal-free prefix, an entry at the goal is the first goal entry. */
  lemma FirstGoalAt(s: seq<Member>, i: nat, goal: Node)
    requires i < |s| && FirstGoal(s[..i], goal).None? && s[i].node == goal
    ensures FirstGoal(s, goal) == Some(s[i].path)
  {
    assert forall j :: 0 <= j < i ==> s[..i][j] == s[j];
  }

  /** A goal-free beam prefix stays goal-free when followed by an entry at another node. */
  lemma NoGoalExtends(s: seq<Member>, m: Member, goal: Node)
    requires FirstGoal(s, goal).None? && m.node != goal
    ensures FirstGoal(s + [m], goal).None?
  {
    var t := s + [m];
    assert forall j :: 0 <= j < |t| ==> t[j] == if j < |s| then s[j] else m;
  }

  lemma {:induction false} ExtendMembers(m: Member, ns: seq<Node>)
    ensures forall c :: c in Extend(m, ns) <==> c.node in ns && c.node !in m.path && c.path == m.path + [c.node]
  {
    if ns != [] {
      ExtendMembers(m, ns[..|ns| - 1]);
      assert ns == ns[..|ns| - 1] + [Last(ns)];
    }
  }

  /** Entry `m` extended by its neighbour `n`, when `n` is not on its path. */
  ghost predicate ExtendsEntry(g: Graph, m: Member, c: Member)
    requires m.node in g.adj
  {
    c.node in g.adj[m.node] && c.node !in m.path && c.path == m.path + [c.node]
  }

  /**
   * The candidates of a round are exactly the one-node extensions
   * `path + [n]` of the beam's entries by a neighbour `n` of the entry's node
   * that is not on its path.
   */
  lemma {:induction false} CandidatesAreExtensions(g: Graph, beam: seq<Member>)
    requires forall i :: 0 <= i < |beam| ==> beam[i].node in g.adj
    ensures forall c :: c in Candidates(g, beam) <==>
              exists i :: 0 <= i < |beam| && ExtendsEntry(g, beam[i], c)
  {
    if beam != [] {
      var front := beam[..|beam| - 1];
      var m := Last(beam);
      CandidatesAreExtensions(g, front);
      ExtendMembers(m, g.adj[m.node]);
      assert Candidates(g, beam) == Candidates(g, front) + Extend(m, g.adj[m.node]);
      forall c | c in Candidates(g, beam) ensures exists i :: 0 <= i < |beam| && ExtendsEntry(g, beam[i], c) {
        if c in Candidates(g, front) {
          var i :| 0 <= i < |front| && ExtendsEntry(g, front[i], c);
          assert beam[i] == front[i];
        } else {
          assert ExtendsEntry(g, beam[|beam| - 1], c);
        }
      }
      forall c | exists i :: 0 <= i < |beam| && ExtendsEntry(g, beam[i], c) ensures c in Candidates(g, beam) {
        var i :| 0 <= i < |beam| && ExtendsEntry(g, beam[i], c);
        if i < |front| {
          assert front[i] == beam[i];
        }
      }
    }
  }

  lemma CandidatesKeyed(g: Graph, h: map<Node, nat>, beam: seq<Member>)
    requires HasHeuristic(g, h) && forall i :: 0 <= i < |beam| ==> beam[i].node in g.adj
    ensures Keyed(h, Candidates(g, beam))
  {
    CandidatesAreExtensions(g, beam);
    var cs := Candidates(g, beam);
    forall k | 0 <= k < |cs| ensures cs[k].node in h {
      assert cs[k] in cs;
    }
  }

  /**
   * Cutting a sorted sequence keeps a sorted prefix of at most `width`
   * entries, none of them above any entry cut off.
   */
  lemma TakeSorted(h: map<Node, nat>, sorted: seq<Member>, width: nat)
    requires Keyed(h, sorted) && SortedByHeuristic(h, sorted)
    ensures var kept := Take(sorted, width);
      && |kept| <= width
      && multiset(kept) <= multiset(sorted)
      && Keyed(h, kept) && SortedByHeuristic(h, kept)
      && forall c, x :: c in multiset(sorted) - multiset(kept) && x in kept ==> h[x.node] <= h[c.node]
  {
    var kept := Take(sorted, width);
    var rest := sorted[|kept|..];
    assert sorted == kept + rest;
    SortedPrefix(h, kept, rest);
    CutOff(kept, rest);
    SortedSplit(h, kept, rest);
  }

  /** A prefix of a sorted sequence is sorted. */
  lemma SortedPrefix(h: map<Node, nat>, kept: seq<Member>, rest: seq<Member>)
    requires Keyed(h, kept + rest) && SortedByHeuristic(h, kept + rest)
    ensures Keyed(h, kept) && SortedByHeuristic(h, kept)
  {
    assert forall i :: 0 <= i < |kept| ==> kept[i] == (kept + rest)[i];
  }

  /** What a cut leaves out of a sequence is the part after the cut. */
  lemma CutOff(kept: seq<Member>, rest: seq<Member>)
    ensures multiset(kept) <= multiset(kept + rest)
    ensures multiset(kept + rest) - multiset(kept) == multiset(rest)
  {
    assert multiset(kept + rest) == multiset(kept) + multiset(rest);
  }

  /** In a sorted sequence every entry of a prefix is no higher than every entry after it. */
  lemma SortedSplit(h: map<Node, nat>, kept: seq<Member>, rest: seq<Member>)
    requires Keyed(h, kept + rest) && SortedByHeuristic(h, kept + rest)
    ensures forall c, x :: c in multiset(rest) && x in kept ==> x.node in h && c.node in h && h[x.node] <= h[c.node]
  {
    var sorted := kept + rest;
    forall c, x | c in multiset(rest) && x in kept ensures x.node in h && c.node in h && h[x.node] <= h[c.node] {
      var a :| 0 <= a < |kept| && kept[a] == x;
      var b :| 0 <= b < |rest| && rest[b] == c;
      assert sorted[a] == x && sorted[|kept| + b] == c;
    }
  }

  /**
   * The next beam holds at most `width` entries, all of them candidates,
   * ascending by heuristic; every candidate left out has a heuristic no
   * lower than any entry kept.
   */
  lemma NextBeamKeepsBest(g: Graph, h: map<Node, nat>, width: nat, beam: seq<Member>)
    requires HasHeuristic(g, h) && forall i :: 0 <= i < |beam| ==> beam[i].node in g.adj
    ensures var next := NextBeam(g, h, width, beam);
            var cs := Candidates(g, beam);
      && |next| <= width
      && multiset(next) <= multiset(cs)
      && Keyed(h, next) && SortedByHeuristic(h, next)
      && forall c, x :: c in multiset(cs) - multiset(next) && x in next ==> h[x.node] <= h[c.node]
  {
    CandidatesKeyed(g, h, beam);
    var cs := Candidates(g, beam);
    SortIsStableSort(h, cs);
    TakeSorted(h, SortByHeuristic(h, cs), width);
  }

  // ---------------------------------------------------------------------
  // The search
  // ---------------------------------------------------------------------

  /**
   * What holds of the beam in round `k`: every entry's path has `k + 1`
   * nodes, repeats none, runs from `start` along edges and ends at the
   * entry's node.
   */
  ghost predicate BeamInv(g: Graph, start: Node, beam: seq<Member>, k: nat) {
    forall i :: 0 <= i < |beam| ==>
      |beam[i].path| == k + 1 && SimplePath(g, start, beam[i].node, beam[i].path)
  }

  lemma BeamInvNodes(g: Graph, start: Node, beam: seq<Member>, k: nat)
    requires BeamInv(g, start, beam, k)
    ensures forall i :: 0 <= i < |beam| ==> beam[i].node in g.adj
    ensures beam != [] ==> k + 1 <= |g.adj.Keys|
  {
    forall i | 0 <= i < |beam| ensures beam[i].node in g.adj {
      assert Last(beam[i].path) == beam[i].path[|beam[i].path| - 1];
    }
    if beam != [] {
      DistinctLength(beam[0].path, g.adj.Keys);
    }
  }

  /** The next beam keeps `BeamInv`, one round further. */
  lemma NextBeamInv(g: Graph, h: map<Node, nat>, width: nat, start: Node, beam: seq<Member>, k: nat)
    requires Closed(g) && HasHeuristic(g, h) && BeamInv(g, start, beam, k)
    ensures forall i :: 0 <= i < |beam| ==> beam[i].node in g.adj
    ensures BeamInv(g, start, NextBeam(g, h, width, beam), k + 1)
  {
    BeamInvNodes(g, start, beam, k);
    var next := NextBeam(g, h, width, beam);
    NextBeamKeepsBest(g, h, width, beam);
    CandidatesAreExtensions(g, beam);
    forall x | 0 <= x < |next|
      ensures |next[x].path| == k + 2 && SimplePath(g, start, next[x].node, next[x].path)
    {
      var c := next[x];
      assert c in multiset(next);
      assert c in Candidates(g, beam);
      var i :| 0 <= i < |beam| && ExtendsEntry(g, beam[i], c);
      var p := beam[i].path;
      WalkAppend(g, p, c.node);
      DistinctAppend(p, c.node);
    }
  }

  /**
   * The outcome of the search from a beam in round `k`: the path of the
   * first goal entry if there is one, otherwise the search from the next
   * beam, and `None` once that is empty.
   */
  ghost function BeamRun(g: Graph, h: map<Node, nat>, width: nat, start: Node, goal: Node,
                         beam: seq<Member>, k: nat): Option<seq<Node>>
    requires Closed(g) && HasHeuristic(g, h) && BeamInv(g, start, beam, k)
    decreases |g.adj.Keys| - k
  {
    BeamInvNodes(g, start, beam, k);
    if beam == [] then None
    else match FirstGoal(beam, goal)
      case Some(p) => Some(p)
      case None =>
        NextBeamInv(g, h, width, start, beam, k);
        var next := NextBeam(g, h, width, beam);
        BeamInvNodes(g, start, next, k + 1);
        if next == [] then None
        else BeamRun(g, h, width, start, goal, next, k + 1)
  }

  /**
   * The inner loop of a round: appends to `next` the candidates of entry
   * `m`, `(neighbor, path + [neighbor])` for each neighbour not on its path.
   */
  method ExpandInto(g: Graph, m: Member, next: seq<Member>) returns (next': seq<Member>)
    requires m.node in g.adj
    ensures next' == next + Extend(m, g.adj[m.node])
  {
    next' := next;
    var neighbors := g.adj[m.node];
    for j := 0 to |neighbors|
      invariant next' == next + Extend(m, neighbors[..j])
    {
      var neighbor := neighbors[j];
      assert neighbors[..j + 1][..j] == neighbors[..j];
      if neighbor !in m.path {
        next' := next' + [Member(neighbor, m.path + [neighbor])];
      }
    }
    assert neighbors[..|neighbors|] == neighbors;
  }

  /**
   * The `for node, path in current_nodes` loop of one round: it returns the
   * path of the first entry at the goal, and otherwise the candidates of all
   * entries in order.
   */
  method ExpandBeam(g: Graph, current: seq<Member>, goal: Node) returns (found: Option<seq<Node>>, next: seq<Member>)
    requires forall i :: 0 <= i < |current| ==> current[i].node in g.adj
    ensures found == FirstGoal(current, goal)
    ensures found.None? ==> next == Candidates(g, current)
  {
    next := [];
    for i := 0 to |current|
      invariant next == Candidates(g, current[..i])
      invariant FirstGoal(current[..i], goal).None?
    {
      var node, path := current[i].node, current[i].path;
      if node == goal {
        FirstGoalAt(current, i, goal);
        return Some(path), next;
      }
      assert Last(current[..i + 1]) == current[i];
      NoGoalExtends(current[..i], current[i], goal);
      assert current[..i] + [current[i]] == current[..i + 1];
      next := ExpandInto(g, current[i], next);
      assert current[..i + 1][..i] == current[..i];
    }
    assert current[..|current|] == current;
    found := None;
  }

  /** The search itself, proved to compute `BeamRun` from the beam `[(start, [start])]`. */
  method Search(g: Graph, h: map<Node, nat>, start: Node, goal: Node, beamWidth: nat) returns (r: Option<seq<Node>>)
    requires Closed(g) && HasHeuristic(g, h) && start in g.adj
    ensures BeamInv(g, start, [Member(start, [start])], 0)
    ensures r == BeamRun(g, h, beamWidth, start, goal, [Member(start, [start])], 0)
  {
    var current := [Member(start, [start])];
    ghost var k := 0;
    assert SimplePath(g, start, start, [start]);
    while current != []
      invariant BeamInv(g, start, current, k)
      invariant BeamRun(g, h, beamWidth, start, goal, current, k) ==
                BeamRun(g, h, beamWidth, start, goal, [Member(start, [start])], 0)
      decreases |g.adj.Keys| - k
    {
      BeamInvNodes(g, start, current, k);
      var found, next := ExpandBeam(g, current, goal);
      if found.Some? {
        return found;
      }
      CandidatesKeyed(g, h, current);
      next := Take(SortByHeuristic(h, next), beamWidth);
      NextBeamInv(g, h, beamWidth, start, current, k);
      if next == [] {
        break;
      }
      BeamInvNodes(g, start, next, k + 1);
      current := next;
      k := k + 1;
    }
    r := None;
  }

  /**
   * A path the search returns is a path from `start` to `goal` that repeats
   * no node; when `start` is the goal the result is `[start]`.
   */
  lemma {:induction false} BeamRunSound(g: Graph, h: map<Node, nat>, width: nat, start: Node, goal: Node,
                                        beam: seq<Member>, k: nat)
    requires Closed(g) && HasHeuristic(g, h) && BeamInv(g, start, beam, k)
    ensures var r := BeamRun(g, h, width, start, goal, beam, k);
            r.Some? ==> SimplePath(g, start, goal, r.value)
    decreases |g.adj.Keys| - k
  {
    BeamInvNodes(g, start, beam, k);
    if beam != [] {
      match FirstGoal(beam, goal)
      case Some(p) =>
      case None =>
        NextBeamInv(g, h, width, start, beam, k);
        var next := NextBeam(g, h, width, beam);
        BeamInvNodes(g, start, next, k + 1);
        if next != [] {
          BeamRunSound(g, h, width, start, goal, next, k + 1);
        }
    }
  }

  lemma StartIsGoal(g: Graph, h: map<Node, nat>, width: nat, start: Node)
    requires Closed(g) && HasHeuristic(g, h) && start in g.adj
    ensures BeamInv(g, start, [Member(start, [start])], 0)
    ensures BeamRun(g, h, width, start, start, [Member(start, [start])], 0) == Some([start])
  {
    assert SimplePath(g, start, start, [start]);
  }
}
