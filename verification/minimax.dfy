/**
 * The exhaustive minimax value: the same depth limit, leaf score and
 * game-over sentinels as the search, but every move is examined. This is
 * the reference the pruned search is proved against.
 */
module Minimax {
  import opened GameTree

  /**
   * The exhaustive value of `p` searched to `depth`, from the point of view
   * of the player who moved at the root.
   */
  function Value(p: Position, depth: Int32, timeout: bool, maximizing: bool): (v: Int32)
    ensures IsScore(v)
    decreases p, 1
  {
    if timeout || depth == 0 then Evaluate(p)
    else if maximizing then MaxFrom(p, 0, depth, timeout)
    else MinFrom(p, 0, depth, timeout)
  }

  /**
   * The worth of the i-th move of `p`: a move that ends the game is a win
   * for whoever played it, any other move is worth its position's value
   * one level deeper with the roles swapped.
   */
  function Outcome(p: Position, i: nat, depth: Int32, timeout: bool, maximizing: bool): (v: Int32)
    requires i < |p.moves|
    ensures IsScore(v)
    ensures p.moves[i].GameOver? ==> v == (if maximizing then MAX_VALUE else MIN_VALUE)
    decreases p, 0, 0
  {
    match p.moves[i]
    case GameOver => if maximizing then MAX_VALUE else MIN_VALUE
    case Continue(q) => Value(q, Dec(depth), timeout, !maximizing)
  }

  /** The greatest outcome among moves i.., or `MIN_VALUE` when there are none. */
  function MaxFrom(p: Position, i: nat, depth: Int32, timeout: bool): (v: Int32)
    requires i <= |p.moves|
    ensures IsScore(v)
    ensures forall j :: i <= j < |p.moves| ==> Outcome(p, j, depth, timeout, true) <= v
    decreases p, 0, |p.moves| - i + 1
  {
    if i == |p.moves| then MIN_VALUE
    else
      var here := Outcome(p, i, depth, timeout, true);
      Max(here, MaxFrom(p, i + 1, depth, timeout))
  }

  /** The least outcome among moves i.., or `MAX_VALUE` when there are none. */
  function MinFrom(p: Position, i: nat, depth: Int32, timeout: bool): (v: Int32)
    requires i <= |p.moves|
    ensures IsScore(v)
    ensures forall j :: i <= j < |p.moves| ==> v <= Outcome(p, j, depth, timeout, false)
    decreases p, 0, |p.moves| - i + 1
  {
    if i == |p.moves| then MAX_VALUE
    else
      var here := Outcome(p, i, depth, timeout, false);
      Min(here, MinFrom(p, i + 1, depth, timeout))
  }

  /** A maximizing node with a move that ends the game is worth the win sentinel. */
  lemma {:induction false} WinningMoveDominates(p: Position, i: nat, depth: Int32, k: nat, timeout: bool)
    requires i <= k < |p.moves| && p.moves[k].GameOver?
    ensures MaxFrom(p, i, depth, timeout) == MAX_VALUE
  {
    assert Outcome(p, k, depth, timeout, true) == MAX_VALUE;
  }

  /** A minimizing node with a move that ends the game is worth the loss sentinel. */
  lemma {:induction false} LosingMoveDominates(p: Position, i: nat, depth: Int32, k: nat, timeout: bool)
    requires i <= k < |p.moves| && p.moves[k].GameOver?
    ensures MinFrom(p, i, depth, timeout) == MIN_VALUE
  {
    assert Outcome(p, k, depth, timeout, false) == MIN_VALUE;
  }

  /** Over a non-empty range of moves, the maximum is the outcome of one of them. */
  lemma {:induction false} MaxFromAttained(p: Position, i: nat, depth: Int32, timeout: bool) returns (k: nat)
    requires i < |p.moves|
    ensures i <= k < |p.moves| && Outcome(p, k, depth, timeout, true) == MaxFrom(p, i, depth, timeout)
    decreases |p.moves| - i
  {
    if i + 1 == |p.moves| || MaxFrom(p, i + 1, depth, timeout) <= Outcome(p, i, depth, timeout, true) {
      k := i;
    } else {
      k := MaxFromAttained(p, i + 1, depth, timeout);
    }
  }

  /** Over a non-empty range of moves, the minimum is the outcome of one of them. */
  lemma {:induction false} MinFromAttained(p: Position, i: nat, depth: Int32, timeout: bool) returns (k: nat)
    requires i < |p.moves|
    ensures i <= k < |p.moves| && Outcome(p, k, depth, timeout, false) == MinFrom(p, i, depth, timeout)
    decreases |p.moves| - i
  {
    if i + 1 == |p.moves| || Outcome(p, i, depth, timeout, false) <= MinFrom(p, i + 1, depth, timeout) {
      k := i;
    } else {
      k := MinFromAttained(p, i + 1, depth, timeout);
    }
  }
}
