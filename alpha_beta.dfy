/** alpha_beta_pruning.py: `alpha_beta(node, alpha, beta, is_maximizing)`. */
module AlphaBetaPruning {
  import opened Graph
  import opened ExtendedInt
  import opened GameTree
  import opened MinMax

  /**
   * A scored node returns its score at once. Otherwise the children are
   * evaluated in the opposite role, in successor order, narrowing the
   * window after each one and stopping as soon as `beta <= alpha`.
   */
  function AlphaBeta(t: GameTree, ghost rank: map<Node, nat>, node: Node, alpha: ExtInt, beta: ExtInt, isMax: bool): ExtInt
    requires Ranked(t, rank) && node in t.succ
    decreases rank[node], 1, 0
  {
    if node in t.scores then Fin(t.scores[node])
    else if isMax then MaxLoop(t, rank, node, t.succ[node], alpha, beta, NegInf)
    else MinLoop(t, rank, node, t.succ[node], alpha, beta, PosInf)
  }

  /**
   * The maximising loop over the children not yet evaluated: `alpha` is
   * raised to each child's value and the loop breaks on a beta cutoff.
   */
  function MaxLoop(t: GameTree, ghost rank: map<Node, nat>, ghost parent: Node, children: seq<Node>,
                   alpha: ExtInt, beta: ExtInt, maxEval: ExtInt): ExtInt
    requires Ranked(t, rank) && parent in t.succ && parent !in t.scores
    requires forall c :: c in children ==> c in t.succ[parent]
    decreases rank[parent], 0, |children|
  {
    if children == [] then maxEval
    else
      var eval := AlphaBeta(t, rank, children[0], alpha, beta, false);
      var maxEval' := Max(maxEval, eval);
      var alpha' := Max(alpha, eval);
      if Le(beta, alpha') then maxEval'
      else MaxLoop(t, rank, parent, children[1..], alpha', beta, maxEval')
  }

  /**
   * The minimising loop over the children not yet evaluated: `beta` is
   * lowered to each child's value and the loop breaks on an alpha cutoff.
   */
  function MinLoop(t: GameTree, ghost rank: map<Node, nat>, ghost parent: Node, children: seq<Node>,
                   alpha: ExtInt, beta: ExtInt, minEval: ExtInt): ExtInt
    requires Ranked(t, rank) && parent in t.succ && parent !in t.scores
    requires forall c :: c in children ==> c in t.succ[parent]
    decreases rank[parent], 0, |children|
  {
    if children == [] then minEval
    else
      var eval := AlphaBeta(t, rank, children[0], alpha, beta, true);
      var minEval' := Min(minEval, eval);
      var beta' := Min(beta, eval);
      if Le(beta', alpha) then minEval'
      else MinLoop(t, rank, parent, children[1..], alpha, beta', minEval')
  }

  /**
   * How a result `r` obtained under the window `(alpha, beta)` relates to
   * the true value `v`: exact strictly inside the window, and on the same
   * side of a bound that `v` reaches.
   */
  ghost predicate Agrees(r: ExtInt, v: ExtInt, alpha: ExtInt, beta: ExtInt) {
    && (Le(v, alpha) ==> Le(r, alpha))
    && (Lt(alpha, v) && Lt(v, beta) ==> r == v)
    && (Le(beta, v) ==> Le(beta, r))
  }

  /** The window property of alpha-beta with respect to minimax, for any window with `alpha < beta`. */
  lemma {:induction false} AlphaBetaWindow(t: GameTree, rank: map<Node, nat>, node: Node, alpha: ExtInt, beta: ExtInt, isMax: bool)
    requires Ranked(t, rank) && node in t.succ && Lt(alpha, beta)
    ensures Agrees(AlphaBeta(t, rank, node, alpha, beta, isMax), Minimax(t, rank, node, isMax), alpha, beta)
    decreases rank[node], 1, 0
  {
    if node !in t.scores {
      if isMax {
        MaxLoopWindow(t, rank, node, t.succ[node], alpha, alpha, beta, NegInf, NegInf);
      } else {
        MinLoopWindow(t, rank, node, t.succ[node], alpha, beta, beta, PosInf, PosInf);
      }
    }
  }

  /**
   * The maximising loop, started under `(alpha0, beta)`, compared with the
   * minimax fold. `acc` is the true maximum of the children evaluated so
   * far; while no cutoff has happened, the running `alpha` is
   * `max(alpha0, acc)` and the running `maxEval` is exact above `alpha0`.
   */
  lemma {:induction false} MaxLoopWindow(t: GameTree, rank: map<Node, nat>, parent: Node, children: seq<Node>,
                                         alpha0: ExtInt, alpha: ExtInt, beta: ExtInt, maxEval: ExtInt, acc: ExtInt)
    requires Ranked(t, rank) && parent in t.succ && parent !in t.scores
    requires forall c :: c in children ==> c in t.succ[parent]
    requires MaxLoopState(alpha0, alpha, beta, maxEval, acc)
    ensures Agrees(MaxLoop(t, rank, parent, children, alpha, beta, maxEval),
                   MaxFold(t, rank, parent, children, acc), alpha0, beta)
    decreases rank[parent], 0, |children|
  {
    if children == [] {
      MaxLoopDone(alpha0, alpha, beta, maxEval, acc);
    } else {
      var c := children[0];
      var rest := children[1..];
      var eval := AlphaBeta(t, rank, c, alpha, beta, false);
      var vc := Minimax(t, rank, c, false);
      AlphaBetaWindow(t, rank, c, alpha, beta, false);
      var acc' := Max(acc, vc);
      assert MaxFold(t, rank, parent, children, acc) == MaxFold(t, rank, parent, rest, acc');
      if Le(beta, Max(alpha, eval)) {
        MaxFoldIsMaximum(t, rank, parent, rest, acc');
        MaxLoopCutoff(alpha0, alpha, beta, maxEval, acc, eval, vc, MaxFold(t, rank, parent, rest, acc'));
      } else {
        MaxLoopStep(alpha0, alpha, beta, maxEval, acc, eval, vc);
        MaxLoopWindow(t, rank, parent, rest, alpha0, Max(alpha, eval), beta, Max(maxEval, eval), acc');
      }
    }
  }

  /** The state of the maximising loop relative to its window and the true running maximum `acc`. */
  ghost predicate MaxLoopState(alpha0: ExtInt, alpha: ExtInt, beta: ExtInt, maxEval: ExtInt, acc: ExtInt) {
    && Lt(alpha, beta)
    && alpha == Max(alpha0, acc)
    && (Le(acc, alpha0) ==> Le(maxEval, alpha0))
    && (Lt(alpha0, acc) ==> maxEval == acc)
  }

  /** The loop ends with no child left: its running maximum agrees with the true one. */
  lemma MaxLoopDone(alpha0: ExtInt, alpha: ExtInt, beta: ExtInt, maxEval: ExtInt, acc: ExtInt)
    requires MaxLoopState(alpha0, alpha, beta, maxEval, acc)
    ensures Agrees(maxEval, acc, alpha0, beta)
  {
    LeTotalOrder(acc, alpha, beta);
  }

  /** A beta cutoff happens only when the child's true value reaches `beta`, so the skipped children cannot matter. */
  lemma MaxLoopCutoff(alpha0: ExtInt, alpha: ExtInt, beta: ExtInt, maxEval: ExtInt, acc: ExtInt,
                      eval: ExtInt, vc: ExtInt, v: ExtInt)
    requires MaxLoopState(alpha0, alpha, beta, maxEval, acc)
    requires Agrees(eval, vc, alpha, beta) && Le(Max(acc, vc), v)
    requires Le(beta, Max(alpha, eval))
    ensures Agrees(Max(maxEval, eval), v, alpha0, beta)
  {
    LeTotalOrder(alpha, beta, eval);
    LeTotalOrder(vc, alpha, beta);
    LeTotalOrder(beta, vc, Max(acc, vc));
    LeTotalOrder(beta, Max(acc, vc), v);
    LeTotalOrder(alpha0, alpha, beta);
    LeTotalOrder(v, alpha0, beta);
    LeTotalOrder(beta, eval, Max(maxEval, eval));
  }

  /** Without a cutoff the loop state is kept for the children still to come. */
  lemma MaxLoopStep(alpha0: ExtInt, alpha: ExtInt, beta: ExtInt, maxEval: ExtInt, acc: ExtInt,
                    eval: ExtInt, vc: ExtInt)
    requires MaxLoopState(alpha0, alpha, beta, maxEval, acc)
    requires Agrees(eval, vc, alpha, beta)
    requires !Le(beta, Max(alpha, eval))
    ensures MaxLoopState(alpha0, Max(alpha, eval), beta, Max(maxEval, eval), Max(acc, vc))
  {
    LeTotalOrder(eval, alpha, beta);
    LeTotalOrder(vc, alpha, beta);
    LeTotalOrder(alpha0, acc, vc);
    LeTotalOrder(maxEval, alpha0, acc);
    LeTotalOrder(eval, alpha0, acc);
    LeTotalOrder(alpha0, alpha, vc);
  }

  /** The minimising loop, started under `(alpha, beta0)`, compared with the minimax fold; the mirror image of `MaxLoopWindow`. */
  lemma {:induction false} MinLoopWindow(t: GameTree, rank: map<Node, nat>, parent: Node, children: seq<Node>,
                                         alpha: ExtInt, beta0: ExtInt, beta: ExtInt, minEval: ExtInt, acc: ExtInt)
    requires Ranked(t, rank) && parent in t.succ && parent !in t.scores
    requires forall c :: c in children ==> c in t.succ[parent]
    requires MinLoopState(alpha, beta0, beta, minEval, acc)
    ensures Agrees(MinLoop(t, rank, parent, children, alpha, beta, minEval),
                   MinFold(t, rank, parent, children, acc), alpha, beta0)
    decreases rank[parent], 0, |children|
  {
    if children == [] {
      MinLoopDone(alpha, beta0, beta, minEval, acc);
    } else {
      var c := children[0];
      var rest := children[1..];
      var eval := AlphaBeta(t, rank, c, alpha, beta, true);
      var vc := Minimax(t, rank, c, true);
      AlphaBetaWindow(t, rank, c, alpha, beta, true);
      var acc' := Min(acc, vc);
      assert MinFold(t, rank, parent, children, acc) == MinFold(t, rank, parent, rest, acc');
      if Le(Min(beta, eval), alpha) {
        MinFoldIsMinimum(t, rank, parent, rest, acc');
        MinLoopCutoff(alpha, beta0, beta, minEval, acc, eval, vc, MinFold(t, rank, parent, rest, acc'));
      } else {
        MinLoopStep(alpha, beta0, beta, minEval, acc, eval, vc);
        MinLoopWindow(t, rank, parent, rest, alpha, beta0, Min(beta, eval), Min(minEval, eval), acc');
      }
    }
  }

  /** The state of the minimising loop relative to its window and the true running minimum `acc`. */
  ghost predicate MinLoopState(alpha: ExtInt, beta0: ExtInt, beta: ExtInt, minEval: ExtInt, acc: ExtInt) {
    && Lt(alpha, beta)
    && beta == Min(beta0, acc)
    && (Le(beta0, acc) ==> Le(beta0, minEval))
    && (Lt(acc, beta0) ==> minEval == acc)
  }

  /** The loop ends with no child left: its running minimum agrees with the true one. */
  lemma MinLoopDone(alpha: ExtInt, beta0: ExtInt, beta: ExtInt, minEval: ExtInt, acc: ExtInt)
    requires MinLoopState(alpha, beta0, beta, minEval, acc)
    ensures Agrees(minEval, acc, alpha, beta0)
  {
    LeTotalOrder(alpha, beta, acc);
  }

  /** An alpha cutoff happens only when the child's true value falls to `alpha`, so the skipped children cannot matter. */
  lemma MinLoopCutoff(alpha: ExtInt, beta0: ExtInt, beta: ExtInt, minEval: ExtInt, acc: ExtInt,
                      eval: ExtInt, vc: ExtInt, v: ExtInt)
    requires MinLoopState(alpha, beta0, beta, minEval, acc)
    requires Agrees(eval, vc, alpha, beta) && Le(v, Min(acc, vc))
    requires Le(Min(beta, eval), alpha)
    ensures Agrees(Min(minEval, eval), v, alpha, beta0)
  {
    LeTotalOrder(eval, alpha, beta);
    LeTotalOrder(alpha, beta, vc);
    LeTotalOrder(Min(acc, vc), vc, alpha);
    LeTotalOrder(v, Min(acc, vc), alpha);
    LeTotalOrder(alpha, beta, beta0);
    LeTotalOrder(alpha, beta0, v);
    LeTotalOrder(Min(minEval, eval), eval, alpha);
  }

  /** Without a cutoff the loop state is kept for the children still to come. */
  lemma MinLoopStep(alpha: ExtInt, beta0: ExtInt, beta: ExtInt, minEval: ExtInt, acc: ExtInt,
                    eval: ExtInt, vc: ExtInt)
    requires MinLoopState(alpha, beta0, beta, minEval, acc)
    requires Agrees(eval, vc, alpha, beta)
    requires !Le(Min(beta, eval), alpha)
    ensures MinLoopState(alpha, beta0, Min(beta, eval), Min(minEval, eval), Min(acc, vc))
  {
    LeTotalOrder(alpha, beta, eval);
    LeTotalOrder(alpha, beta, vc);
    LeTotalOrder(vc, acc, beta0);
    LeTotalOrder(acc, beta0, minEval);
    LeTotalOrder(acc, beta0, eval);
    LeTotalOrder(vc, beta, beta0);
  }

  /**
   * Called with the full window `(-inf, +inf)`, as the interface calls it at
   * the root, alpha-beta returns exactly the minimax value.
   */
  lemma AlphaBetaIsMinimax(t: GameTree, rank: map<Node, nat>, root: Node, isMax: bool)
    requires Ranked(t, rank) && root in t.succ
    ensures AlphaBeta(t, rank, root, NegInf, PosInf, isMax) == Minimax(t, rank, root, isMax)
  {
    AlphaBetaWindow(t, rank, root, NegInf, PosInf, isMax);
  }

  /**
   * The result falls to `alpha` exactly when the minimax value does, and
   * reaches `beta` exactly when the minimax value does.
   */
  lemma AlphaBetaBounds(t: GameTree, rank: map<Node, nat>, node: Node, alpha: ExtInt, beta: ExtInt, isMax: bool)
    requires Ranked(t, rank) && node in t.succ && Lt(alpha, beta)
    ensures Le(AlphaBeta(t, rank, node, alpha, beta, isMax), alpha) <==> Le(Minimax(t, rank, node, isMax), alpha)
    ensures Le(beta, AlphaBeta(t, rank, node, alpha, beta, isMax)) <==> Le(beta, Minimax(t, rank, node, isMax))
  {
    var r := AlphaBeta(t, rank, node, alpha, beta, isMax);
    var v := Minimax(t, rank, node, isMax);
    AlphaBetaWindow(t, rank, node, alpha, beta, isMax);
    LeTotalOrder(r, alpha, beta);
    LeTotalOrder(v, alpha, beta);
    LeTotalOrder(alpha, beta, r);
    LeTotalOrder(alpha, beta, v);
  }

  /**
   * A scored node returns its score whatever the window and its children;
   * an unscored childless node returns `-inf` when maximising and `+inf`
   * when minimising.
   */
  lemma AlphaBetaLeaf(t: GameTree, rank: map<Node, nat>, node: Node, alpha: ExtInt, beta: ExtInt, isMax: bool)
    requires Ranked(t, rank) && node in t.succ
    ensures node in t.scores ==> AlphaBeta(t, rank, node, alpha, beta, isMax) == Fin(t.scores[node])
    ensures node !in t.scores && t.succ[node] == [] ==>
              AlphaBeta(t, rank, node, alpha, beta, isMax) == if isMax then NegInf else PosInf
  {
  }

  /**
   * Once a child's value closes the window (`beta <= alpha`), the loop
   * stops: whatever children follow it, the result is the same, so they are
   * never evaluated.
   */
  lemma CutoffSkipsRest(t: GameTree, rank: map<Node, nat>, parent: Node, c: Node, rest1: seq<Node>, rest2: seq<Node>,
                        alpha: ExtInt, beta: ExtInt, acc: ExtInt)
    requires Ranked(t, rank) && parent in t.succ && parent !in t.scores
    requires c in t.succ[parent]
    requires forall x :: x in rest1 ==> x in t.succ[parent]
    requires forall x :: x in rest2 ==> x in t.succ[parent]
    ensures Le(beta, Max(alpha, AlphaBeta(t, rank, c, alpha, beta, false))) ==>
              MaxLoop(t, rank, parent, [c] + rest1, alpha, beta, acc) == MaxLoop(t, rank, parent, [c] + rest2, alpha, beta, acc)
    ensures Le(Min(beta, AlphaBeta(t, rank, c, alpha, beta, true)), alpha) ==>
              MinLoop(t, rank, parent, [c] + rest1, alpha, beta, acc) == MinLoop(t, rank, parent, [c] + rest2, alpha, beta, acc)
  {
    assert ([c] + rest1)[0] == c && ([c] + rest2)[0] == c;
  }
}
