/**
 * The depth-limited minimax with alpha-beta pruning, move by move as the
 * player's recursive search does it, and its correctness against the
 * exhaustive value of module Minimax.
 */
module AlphaBeta {
  import opened GameTree
  import opened Minimax

  /**
   * The pruned search of `p` to `depth` within the window (alpha, beta).
   * A set `timeout` flag or an exhausted depth stops at the leaf evaluation.
   * Whatever the window, the result is one of the three scores.
   */
  function Search(p: Position, depth: Int32, alpha: Int32, beta: Int32, timeout: bool, maximizing: bool): (r: Int32)
    ensures IsScore(r)
    decreases p, 1
  {
    if timeout || depth == 0 then Evaluate(p)
    else if maximizing then MaxLoop(p, 0, depth, alpha, beta, timeout, MIN_VALUE)
    else MinLoop(p, 0, depth, alpha, beta, timeout, MAX_VALUE)
  }

  /**
   * The maximizing loop from move i on, with the current `alpha` and the
   * best value `maxEval` seen so far. A move that ends the game returns the
   * win sentinel at once; a child value reaching `beta` is returned as is.
   */
  function MaxLoop(p: Position, i: nat, depth: Int32, alpha: Int32, beta: Int32, timeout: bool, maxEval: Int32): (r: Int32)
    requires i <= |p.moves|
    requires IsScore(maxEval)
    ensures IsScore(r)
    decreases p, 0, |p.moves| - i
  {
    if i == |p.moves| || timeout then maxEval
    else match p.moves[i]
      case GameOver => MAX_VALUE
      case Continue(q) =>
        var best := Max(maxEval, Search(q, Dec(depth), alpha, beta, timeout, false));
        if beta <= best then best
        else MaxLoop(p, i + 1, depth, Max(alpha, best), beta, timeout, best)
  }

  /**
   * The minimizing loop from move i on, with the current `beta` and the
   * least value `minEval` seen so far. A move that ends the game returns the
   * loss sentinel at once; a child value falling to `alpha` is returned as is.
   */
  function MinLoop(p: Position, i: nat, depth: Int32, alpha: Int32, beta: Int32, timeout: bool, minEval: Int32): (r: Int32)
    requires i <= |p.moves|
    requires IsScore(minEval)
    ensures IsScore(r)
    decreases p, 0, |p.moves| - i
  {
    if i == |p.moves| || timeout then minEval
    else match p.moves[i]
      case GameOver => MIN_VALUE
      case Continue(q) =>
        var best := Min(minEval, Search(q, Dec(depth), alpha, beta, timeout, true));
        if best <= alpha then best
        else MinLoop(p, i + 1, depth, alpha, Min(beta, best), timeout, best)
  }

  /**
   * Fail-soft agreement of a pruned result `r` with the exact value `v`
   * for the window (alpha, beta): a result at or below alpha is an upper
   * bound, one at or above beta is a lower bound, one inside is exact.
   */
  predicate FailSoft(r: Int32, v: Int32, alpha: Int32, beta: Int32)
  {
    && (r <= alpha ==> v <= r)
    && (beta <= r ==> r <= v)
    && (alpha < r < beta ==> r == v)
  }

  /** Fail-soft correctness of the pruned search, for any non-empty window. */
  lemma {:induction false} SearchFailSoft(p: Position, depth: Int32, alpha: Int32, beta: Int32, timeout: bool, maximizing: bool)
    requires alpha < beta
    ensures FailSoft(Search(p, depth, alpha, beta, timeout, maximizing), Value(p, depth, timeout, maximizing), alpha, beta)
    decreases p, 1
  {
    if timeout || depth == 0 {
    } else if maximizing {
      MaxLoopFailSoft(p, 0, depth, alpha, beta, MIN_VALUE);
    } else {
      MinLoopFailSoft(p, 0, depth, alpha, beta, MAX_VALUE);
    }
  }

  /**
   * The maximizing loop against the exact maximum of the remaining moves,
   * when no cutoff has happened yet (`maxEval <= alpha < beta`).
   */
  lemma {:induction false} MaxLoopFailSoft(p: Position, i: nat, depth: Int32, alpha: Int32, beta: Int32, maxEval: Int32)
    requires i <= |p.moves| && IsScore(maxEval)
    requires maxEval <= alpha < beta
    ensures var r := MaxLoop(p, i, depth, alpha, beta, false, maxEval);
            var w := MaxFrom(p, i, depth, false);
            && maxEval <= r
            && (r < beta ==> w <= r && (alpha < r ==> r == w))
            && (beta <= r ==> r <= w)
    decreases p, 0, |p.moves| - i
  {
    if i < |p.moves| {
      match p.moves[i]
      case GameOver =>
      case Continue(q) =>
        var child := Search(q, Dec(depth), alpha, beta, false, false);
        SearchFailSoft(q, Dec(depth), alpha, beta, false, false);
        var best := Max(maxEval, child);
        if best < beta {
          MaxLoopFailSoft(p, i + 1, depth, Max(alpha, best), beta, best);
        }
    }
  }

  /**
   * The minimizing loop against the exact minimum of the remaining moves,
   * when no cutoff has happened yet (`alpha < beta <= minEval`).
   */
  lemma {:induction false} MinLoopFailSoft(p: Position, i: nat, depth: Int32, alpha: Int32, beta: Int32, minEval: Int32)
    requires i <= |p.moves| && IsScore(minEval)
    requires alpha < beta <= minEval
    ensures var r := MinLoop(p, i, depth, alpha, beta, false, minEval);
            var w := MinFrom(p, i, depth, false);
            && r <= minEval
            && (alpha < r ==> r <= w && (r < beta ==> r == w))
            && (r <= alpha ==> w <= r)
    decreases p, 0, |p.moves| - i
  {
    if i < |p.moves| {
      match p.moves[i]
      case GameOver =>
      case Continue(q) =>
        var child := Search(q, Dec(depth), alpha, beta, false, true);
        SearchFailSoft(q, Dec(depth), alpha, beta, false, true);
        var best := Min(minEval, child);
        if alpha < best {
          MinLoopFailSoft(p, i + 1, depth, alpha, Min(beta, best), best);
        }
    }
  }

  /**
   * The pruned search agrees with the exhaustive value relative to the
   * window: exact strictly inside it, at most alpha when the value is, at
   * least beta when the value is.
   */
  lemma SearchWithinWindow(p: Position, depth: Int32, alpha: Int32, beta: Int32, timeout: bool, maximizing: bool)
    requires alpha < beta
    ensures var r := Search(p, depth, alpha, beta, timeout, maximizing);
            var v := Value(p, depth, timeout, maximizing);
            && (alpha < v < beta ==> r == v)
            && (v <= alpha ==> r <= alpha)
            && (beta <= v ==> beta <= r)
  {
    SearchFailSoft(p, depth, alpha, beta, timeout, maximizing);
  }

  /**
   * With the full window `(MIN_VALUE, MAX_VALUE)`, the window the root
   * opens for every move, pruning never changes the value.
   */
  lemma SearchFullWindow(p: Position, depth: Int32, timeout: bool, maximizing: bool)
    ensures Search(p, depth, MIN_VALUE, MAX_VALUE, timeout, maximizing) == Value(p, depth, timeout, maximizing)
  {
    SearchFailSoft(p, depth, MIN_VALUE, MAX_VALUE, timeout, maximizing);
  }

  /** At depth 0, or once the timeout flag is set, the search scores the position 0. */
  lemma SearchAtHorizon(p: Position, depth: Int32, alpha: Int32, beta: Int32, timeout: bool, maximizing: bool)
    requires timeout || depth == 0
    ensures Search(p, depth, alpha, beta, timeout, maximizing) == 0
  {
  }

  /**
   * A position without legal moves, searched above the horizon, is a loss
   * for the side to play: the loop never runs and its initial value stands.
   */
  lemma SearchNoMoves(p: Position, depth: Int32, alpha: Int32, beta: Int32, maximizing: bool)
    requires depth != 0 && |p.moves| == 0
    ensures Search(p, depth, alpha, beta, false, maximizing) == (if maximizing then MIN_VALUE else MAX_VALUE)
    ensures Value(p, depth, false, maximizing) == Search(p, depth, alpha, beta, false, maximizing)
  {
  }

  /**
   * A maximizing node returns the win sentinel on reaching a move that ends
   * the game, provided every earlier move is worth less than beta, so that
   * none of them can cause a cutoff.
   */
  lemma SearchMaxStopsAtWin(p: Position, depth: Int32, alpha: Int32, beta: Int32, k: nat)
    requires depth != 0 && alpha < beta
    requires k < |p.moves| && p.moves[k].GameOver?
    requires forall j :: 0 <= j < k ==> Outcome(p, j, depth, false, true) < beta
    ensures Search(p, depth, alpha, beta, false, true) == MAX_VALUE
  {
    MaxLoopStopsAtWin(p, 0, depth, alpha, beta, MIN_VALUE, k);
  }

  /** The loop form of `SearchMaxStopsAtWin`, from any cutoff-free point i <= k. */
  lemma {:induction false} MaxLoopStopsAtWin(p: Position, i: nat, depth: Int32, alpha: Int32, beta: Int32, maxEval: Int32, k: nat)
    requires i <= k < |p.moves| && p.moves[k].GameOver?
    requires IsScore(maxEval) && maxEval <= alpha < beta
    requires forall j :: i <= j < k ==> Outcome(p, j, depth, false, true) < beta
    ensures MaxLoop(p, i, depth, alpha, beta, false, maxEval) == MAX_VALUE
    decreases k - i
  {
    if i < k {
      match p.moves[i]
      case GameOver =>
      case Continue(q) =>
        assert Outcome(p, i, depth, false, true) < beta;
        SearchFailSoft(q, Dec(depth), alpha, beta, false, false);
        var best := Max(maxEval, Search(q, Dec(depth), alpha, beta, false, false));
        MaxLoopStopsAtWin(p, i + 1, depth, Max(alpha, best), beta, best, k);
    }
  }

  /**
   * A minimizing node returns the loss sentinel on reaching a move that ends
   * the game, provided every earlier move is worth more than alpha, so that
   * none of them can cause a cutoff.
   */
  lemma SearchMinStopsAtLoss(p: Position, depth: Int32, alpha: Int32, beta: Int32, k: nat)
    requires depth != 0 && alpha < beta
    requires k < |p.moves| && p.moves[k].GameOver?
    requires forall j :: 0 <= j < k ==> alpha < Outcome(p, j, depth, false, false)
    ensures Search(p, depth, alpha, beta, false, false) == MIN_VALUE
  {
    MinLoopStopsAtLoss(p, 0, depth, alpha, beta, MAX_VALUE, k);
  }

  /** The loop form of `SearchMinStopsAtLoss`, from any cutoff-free point i <= k. */
  lemma {:induction false} MinLoopStopsAtLoss(p: Position, i: nat, depth: Int32, alpha: Int32, beta: Int32, minEval: Int32, k: nat)
    requires i <= k < |p.moves| && p.moves[k].GameOver?
    requires IsScore(minEval) && alpha < beta <= minEval
    requires forall j :: i <= j < k ==> alpha < Outcome(p, j, depth, false, false)
    ensures MinLoop(p, i, depth, alpha, beta, false, minEval) == MIN_VALUE
    decreases k - i
  {
    if i < k {
      match p.moves[i]
      case GameOver =>
      case Continue(q) =>
        assert alpha < Outcome(p, i, depth, false, false);
        SearchFailSoft(q, Dec(depth), alpha, beta, false, true);
        var best := Min(minEval, Search(q, Dec(depth), alpha, beta, false, true));
        MinLoopStopsAtLoss(p, i + 1, depth, alpha, Min(beta, best), best, k);
    }
  }

  /**
   * A maximizing node with a move worth at least beta fails high.
   */
  lemma SearchMaxCutoff(p: Position, depth: Int32, alpha: Int32, beta: Int32, j: nat)
    requires depth != 0 && alpha < beta && j < |p.moves|
    requires beta <= Outcome(p, j, depth, false, true)
    ensures beta <= Search(p, depth, alpha, beta, false, true)
  {
    SearchWithinWindow(p, depth, alpha, beta, false, true);
  }

  /**
   * A minimizing node with a move worth at most alpha fails low.
   */
  lemma SearchMinCutoff(p: Position, depth: Int32, alpha: Int32, beta: Int32, j: nat)
    requires depth != 0 && alpha < beta && j < |p.moves|
    requires Outcome(p, j, depth, false, false) <= alpha
    ensures Search(p, depth, alpha, beta, false, false) <= alpha
  {
    SearchWithinWindow(p, depth, alpha, beta, false, false);
  }
}
