/**
 * The game tree of Min_Max.py and alpha_beta_pruning.py: a networkx
 * `DiGraph` whose successor lists keep insertion order, and the `scores`
 * map that marks leaves.
 */
module GameTree {
  import opened Graph

  datatype GameTree = GameTree(succ: map<Node, seq<Node>>, scores: map<Node, int>)

  /**
   * Successors are nodes of the tree, and `rank` drops along every edge
   * leaving an unscored node. The evaluators only recurse through unscored
   * nodes, so this is exactly what makes their recursion finite; a cyclic
   * tree (which would make the Python code recurse forever) has no rank.
   */
  ghost predicate Ranked(t: GameTree, rank: map<Node, nat>) {
    && (forall u, c :: u in t.succ && c in t.succ[u] ==> c in t.succ)
    && (forall u :: u in t.succ ==> u in rank)
    && (forall u, c :: u in t.succ && u !in t.scores && c in t.succ[u] ==> c in rank && rank[c] < rank[u])
  }
}

/** Min_Max.py: `minimax(node, is_maximizing)`. */
module MinMax {
  import opened Graph
  import opened ExtendedInt
  import opened GameTree

  /**
   * A scored node evaluates to its score; otherwise a maximising node takes
   * the running `max` of its children evaluated as minimising, starting
   * from `float('-inf')`, and a minimising node the running `min` of its
   * children evaluated as maximising, starting from `float('inf')`.
   */
  function Minimax(t: GameTree, ghost rank: map<Node, nat>, node: Node, isMax: bool): ExtInt
    requires Ranked(t, rank) && node in t.succ
    decreases rank[node], 1, 0
  {
    if node in t.scores then Fin(t.scores[node])
    else if isMax then MaxFold(t, rank, node, t.succ[node], NegInf)
    else MinFold(t, rank, node, t.succ[node], PosInf)
  }

  /** The loop `for child in children: max_eval = max(max_eval, minimax(child, False))`. */
  function MaxFold(t: GameTree, ghost rank: map<Node, nat>, ghost parent: Node, children: seq<Node>, acc: ExtInt): ExtInt
    requires Ranked(t, rank) && parent in t.succ && parent !in t.scores
    requires forall c :: c in children ==> c in t.succ[parent]
    decreases rank[parent], 0, |children|
  {
    if children == [] then acc
    else MaxFold(t, rank, parent, children[1..], Max(acc, Minimax(t, rank, children[0], false)))
  }

  /** The loop `for child in children: min_eval = min(min_eval, minimax(child, True))`. */
  function MinFold(t: GameTree, ghost rank: map<Node, nat>, ghost parent: Node, children: seq<Node>, acc: ExtInt): ExtInt
    requires Ranked(t, rank) && parent in t.succ && parent !in t.scores
    requires forall c :: c in children ==> c in t.succ[parent]
    decreases rank[parent], 0, |children|
  {
    if children == [] then acc
    else MinFold(t, rank, parent, children[1..], Min(acc, Minimax(t, rank, children[0], true)))
  }

  /** The running maximum is an upper bound of the start value and of every child, and is one of them. */
  lemma {:induction false} MaxFoldIsMaximum(t: GameTree, rank: map<Node, nat>, parent: Node, children: seq<Node>, acc: ExtInt)
    requires Ranked(t, rank) && parent in t.succ && parent !in t.scores
    requires forall c :: c in children ==> c in t.succ[parent]
    ensures Le(acc, MaxFold(t, rank, parent, children, acc))
    ensures forall i :: 0 <= i < |children| ==>
              Le(Minimax(t, rank, children[i], false), MaxFold(t, rank, parent, children, acc))
    ensures MaxFold(t, rank, parent, children, acc) == acc ||
            exists i :: 0 <= i < |children| && MaxFold(t, rank, parent, children, acc) == Minimax(t, rank, children[i], false)
    decreases |children|
  {
    if children != [] {
      var rest := children[1..];
      var acc' := Max(acc, Minimax(t, rank, children[0], false));
      MaxFoldIsMaximum(t, rank, parent, rest, acc');
      var r := MaxFold(t, rank, parent, children, acc);
      assert r == MaxFold(t, rank, parent, rest, acc');
      forall i | 0 <= i < |children|
        ensures Le(Minimax(t, rank, children[i], false), r)
      {
        if i > 0 {
          assert children[i] == rest[i - 1];
        } else {
          LeTotalOrder(Minimax(t, rank, children[0], false), acc', r);
        }
      }
      LeTotalOrder(acc, acc', r);
      if r != acc' {
        var i :| 0 <= i < |rest| && r == Minimax(t, rank, rest[i], false);
        assert rest[i] == children[i + 1];
      }
    }
  }

  /** The running minimum is a lower bound of the start value and of every child, and is one of them. */
  lemma {:induction false} MinFoldIsMinimum(t: GameTree, rank: map<Node, nat>, parent: Node, children: seq<Node>, acc: ExtInt)
    requires Ranked(t, rank) && parent in t.succ && parent !in t.scores
    requires forall c :: c in children ==> c in t.succ[parent]
    ensures Le(MinFold(t, rank, parent, children, acc), acc)
    ensures forall i :: 0 <= i < |children| ==>
              Le(MinFold(t, rank, parent, children, acc), Minimax(t, rank, children[i], true))
    ensures MinFold(t, rank, parent, children, acc) == acc ||
            exists i :: 0 <= i < |children| && MinFold(t, rank, parent, children, acc) == Minimax(t, rank, children[i], true)
    decreases |children|
  {
    if children != [] {
      var rest := children[1..];
      var acc' := Min(acc, Minimax(t, rank, children[0], true));
      MinFoldIsMinimum(t, rank, parent, rest, acc');
      var r := MinFold(t, rank, parent, children, acc);
      assert r == MinFold(t, rank, parent, rest, acc');
      forall i | 0 <= i < |children|
        ensures Le(r, Minimax(t, rank, children[i], true))
      {
        if i > 0 {
          assert children[i] == rest[i - 1];
        } else {
          LeTotalOrder(r, acc', Minimax(t, rank, children[0], true));
        }
      }
      LeTotalOrder(r, acc', acc);
      if r != acc' {
        var i :| 0 <= i < |rest| && r == Minimax(t, rank, rest[i], true);
        assert rest[i] == children[i + 1];
      }
    }
  }

  /**
   * What a node evaluates to: a scored node its score, whatever its
   * children; a maximising node the greatest value of its children played
   * by the minimiser, and `-inf` when it has none; a minimising node the
   * least value of its children played by the maximiser, and `+inf` when it
   * has none.
   */
  lemma MinimaxValue(t: GameTree, rank: map<Node, nat>, node: Node, isMax: bool)
    requires Ranked(t, rank) && node in t.succ
    ensures node in t.scores ==> Minimax(t, rank, node, isMax) == Fin(t.scores[node])
    ensures node !in t.scores && t.succ[node] == [] ==>
              Minimax(t, rank, node, isMax) == if isMax then NegInf else PosInf
    ensures node !in t.scores && isMax ==>
              forall c :: c in t.succ[node] ==> Le(Minimax(t, rank, c, false), Minimax(t, rank, node, isMax))
    ensures node !in t.scores && !isMax ==>
              forall c :: c in t.succ[node] ==> Le(Minimax(t, rank, node, isMax), Minimax(t, rank, c, true))
    ensures node !in t.scores && t.succ[node] != [] ==>
              exists c :: c in t.succ[node] && Minimax(t, rank, node, isMax) == Minimax(t, rank, c, !isMax)
  {
    if node !in t.scores {
      var cs := t.succ[node];
      var r := Minimax(t, rank, node, isMax);
      if isMax {
        MaxFoldIsMaximum(t, rank, node, cs, NegInf);
        if cs != [] && r == NegInf {
          LeTotalOrder(Minimax(t, rank, cs[0], false), NegInf, NegInf);
          assert cs[0] in t.succ[node] && r == Minimax(t, rank, cs[0], !isMax);
        } else if cs != [] {
          var i :| 0 <= i < |cs| && r == Minimax(t, rank, cs[i], false);
          assert cs[i] in t.succ[node];
        }
      } else {
        MinFoldIsMinimum(t, rank, node, cs, PosInf);
        if cs != [] && r == PosInf {
          assert Le(r, Minimax(t, rank, cs[0], true));
          LeTotalOrder(Minimax(t, rank, cs[0], true), PosInf, PosInf);
          assert cs[0] in t.succ[node] && r == Minimax(t, rank, cs[0], !isMax);
        } else if cs != [] {
          var i :| 0 <= i < |cs| && r == Minimax(t, rank, cs[i], true);
          assert cs[i] in t.succ[node];
        }
      }
    }
  }
}
