# Sexagono search core, modelled in Dafny

This project models the decision engine of the Hex player `Sexagono`. The
player runs a depth-limited minimax search with alpha-beta pruning. It then
chooses a root move by trying every legal move in generation order: a move
that ends the game is played at once, and otherwise the first move of
greatest searched value is kept.

The board class is not part of this model. A position is a finite game tree:
`Position(moves)` lists the legal moves in the order the board generates them.
Each move is a `Placement`. `GameOver` means the game is over right after
that stone is placed. `Continue(after)` carries the position that follows.

Java `int` is the newtype `Int32`. The sentinels are
`MIN_VALUE = Integer.MIN_VALUE` and `MAX_VALUE = Integer.MAX_VALUE`. They are
only ever compared, never used in arithmetic. The one piece of arithmetic is
`depth - 1`, which is modelled with Java's wrap-around (`Dec`). The leaf
evaluation `evaluateHeuristica` scores every position 0 (`Evaluate`).

Modules:

- `GameTree` (game_tree.dfy): `Int32`, the sentinels, `Math.max`/`Math.min`,
  the depth decrement, the game-tree datatypes and the leaf evaluation.
- `Minimax` (minimax.dfy): the exhaustive, unpruned minimax `Value`. It uses
  the same depth limit, leaf score and game-over sentinels as the search and
  is the reference the pruned search is proved against.
- `AlphaBeta` (alpha_beta.dfy): the pruned search `Search`. Its loops
  `MaxLoop`/`MinLoop` follow the source move by move. The module proves
  fail-soft correctness against `Value` and the behaviours at the horizon,
  on an empty move list and on a game-ending move.
- `Decision` (decision.dfy): the fixed-depth root loop `ChooseMove`.

Facts about `minimax` that the model keeps:

- The search never checks the position it enters for game over. It checks
  only the position after each placement (Sexagono.java:127, 148).
- The win and loss scores are the raw `Integer` extremes, with no separate
  sentinel constants.
- If the timeout flag is set on entry, the search returns the leaf score 0
  (Sexagono.java:113-114). If it is seen inside a loop, the loop breaks and
  returns its running best (Sexagono.java:122/136, 143/156). With the flag
  fixed for the whole search the second case cannot happen, as noted under
  "## Left out".

## Model

| member | source | states |
|---|---|---|
| AlphaBeta.Search | src/edu/upc/epsevg/prop/hex/players/Sexagono.java:109-157 | every value the pruned search returns, for any window, depth and flag, is `Integer.MIN_VALUE`, 0 or `Integer.MAX_VALUE` |
| AlphaBeta.MaxLoop | src/edu/upc/epsevg/prop/hex/players/Sexagono.java:118-136 | the maximizing loop, started from a running best that is a score, returns one of `Integer.MIN_VALUE`, 0, `Integer.MAX_VALUE` on every exit: the game-over return, the beta cutoff, the timeout break and the end of the moves |
| AlphaBeta.MinLoop | src/edu/upc/epsevg/prop/hex/players/Sexagono.java:139-156 | the minimizing loop, started from a running best that is a score, returns one of `Integer.MIN_VALUE`, 0, `Integer.MAX_VALUE` on every exit: the game-over return, the alpha cutoff, the timeout break and the end of the moves |
| AlphaBeta.SearchFailSoft | src/edu/upc/epsevg/prop/hex/players/Sexagono.java:109-157 | for any window with alpha < beta, the pruned result is exact when it lies strictly inside the window, an upper bound on the exhaustive minimax value when at or below alpha, and a lower bound when at or above beta |
| AlphaBeta.MaxLoopFailSoft | src/edu/upc/epsevg/prop/hex/players/Sexagono.java:118-136 | the maximizing loop, entered before any cutoff, never returns less than its running maximum; with no cutoff it bounds the exact maximum of the remaining moves from above and equals it above alpha; on a beta cutoff it bounds that maximum from below |
| AlphaBeta.MinLoopFailSoft | src/edu/upc/epsevg/prop/hex/players/Sexagono.java:139-156 | the minimizing loop is the mirror image: never above its running minimum, exact below beta and above alpha, a lower bound without cutoff, an upper bound on an alpha cutoff |
| AlphaBeta.SearchWithinWindow | src/edu/upc/epsevg/prop/hex/players/Sexagono.java:130-133 | with alpha < beta: if the exhaustive value v is strictly inside the window the search returns v; if v <= alpha the result is <= alpha; if v >= beta the result is >= beta |
| AlphaBeta.SearchFullWindow | src/edu/upc/epsevg/prop/hex/players/Sexagono.java:65 | searched with the window (`Integer.MIN_VALUE`, `Integer.MAX_VALUE`) that the root opens for each move, the pruned result equals the exhaustive minimax value |
| AlphaBeta.SearchAtHorizon | src/edu/upc/epsevg/prop/hex/players/Sexagono.java:113-114 | at depth 0, or when the timeout flag is set, the search returns the leaf evaluation, which is 0 |
| AlphaBeta.SearchNoMoves | src/edu/upc/epsevg/prop/hex/players/Sexagono.java:119-136 | above the horizon, a position with no legal moves yields `Integer.MIN_VALUE` when maximizing and `Integer.MAX_VALUE` when minimizing, for the pruned and the exhaustive search alike |
| AlphaBeta.SearchMaxStopsAtWin | src/edu/upc/epsevg/prop/hex/players/Sexagono.java:120-133 | a maximizing node whose k-th move ends the game returns `Integer.MAX_VALUE` whenever every earlier move is worth less than beta, that is, when no earlier cutoff happens |
| AlphaBeta.MaxLoopStopsAtWin | src/edu/upc/epsevg/prop/hex/players/Sexagono.java:127-128 | the maximizing loop, from any point before a game-ending move and with no cutoff on the way, reaches that move and returns `Integer.MAX_VALUE` |
| AlphaBeta.SearchMinStopsAtLoss | src/edu/upc/epsevg/prop/hex/players/Sexagono.java:141-154 | a minimizing node whose k-th move ends the game returns `Integer.MIN_VALUE` whenever every earlier move is worth more than alpha |
| AlphaBeta.MinLoopStopsAtLoss | src/edu/upc/epsevg/prop/hex/players/Sexagono.java:148-149 | the minimizing loop, from any point before a game-ending move and with no cutoff on the way, reaches that move and returns `Integer.MIN_VALUE` |
| AlphaBeta.SearchMaxCutoff | src/edu/upc/epsevg/prop/hex/players/Sexagono.java:132 | a maximizing node with some move worth at least beta fails high: its result is at least beta |
| AlphaBeta.SearchMinCutoff | src/edu/upc/epsevg/prop/hex/players/Sexagono.java:153 | a minimizing node with some move worth at most alpha fails low: its result is at most alpha |
| Minimax.Value | src/edu/upc/epsevg/prop/hex/players/Sexagono.java:109-157 | the exhaustive minimax value, with the same leaf score and sentinels, is always one of `Integer.MIN_VALUE`, 0, `Integer.MAX_VALUE` |
| Minimax.MaxFrom | src/edu/upc/epsevg/prop/hex/players/Sexagono.java:119-136 | the exhaustive maximum over moves i onward is a score at least as great as every one of those moves' outcomes |
| Minimax.MinFrom | src/edu/upc/epsevg/prop/hex/players/Sexagono.java:140-156 | the exhaustive minimum over moves i onward is a score no greater than any of those moves' outcomes |
| Minimax.MaxFromAttained | src/edu/upc/epsevg/prop/hex/players/Sexagono.java:119-130 | over a non-empty range of moves, the exhaustive maximum is the outcome of one of those moves, so together with `MaxFrom` it is exactly their greatest outcome |
| Minimax.MinFromAttained | src/edu/upc/epsevg/prop/hex/players/Sexagono.java:140-151 | over a non-empty range of moves, the exhaustive minimum is the outcome of one of those moves, so together with `MinFrom` it is exactly their least outcome |
| Minimax.Outcome | src/edu/upc/epsevg/prop/hex/players/Sexagono.java:127-130 | the worth of one move is a score; a move that ends the game is worth `Integer.MAX_VALUE` at a maximizing node and `Integer.MIN_VALUE` at a minimizing node (lines 127-128, 148-149), and any other move is worth the exhaustive value of its position at `depth - 1` with the roles swapped, the unpruned counterpart of lines 130 and 151 |
| Minimax.WinningMoveDominates | src/edu/upc/epsevg/prop/hex/players/Sexagono.java:127-128 | a maximizing node with a game-ending move has exhaustive value `Integer.MAX_VALUE` |
| Minimax.LosingMoveDominates | src/edu/upc/epsevg/prop/hex/players/Sexagono.java:148-149 | a minimizing node with a game-ending move has exhaustive value `Integer.MIN_VALUE` |
| GameTree.Evaluate | src/edu/upc/epsevg/prop/hex/players/Sexagono.java:160-174 | the leaf evaluation always returns one of `Integer.MIN_VALUE`, 0, `Integer.MAX_VALUE`, which the score range of `Search` and `Value` rests on; that the value is the constant 0 is stated by `AlphaBeta.SearchAtHorizon` |
| GameTree.Max | src/edu/upc/epsevg/prop/hex/players/Sexagono.java:130-133 | `Math.max` returns one of its two arguments and is at least each of them |
| GameTree.Min | src/edu/upc/epsevg/prop/hex/players/Sexagono.java:151-154 | `Math.min` returns one of its two arguments and is at most each of them |
| GameTree.Dec | src/edu/upc/epsevg/prop/hex/players/Sexagono.java:130 | `depth - 1` on a Java int: the result is congruent to `depth - 1` modulo 2^32, so it is exactly `depth - 1` except at `Integer.MIN_VALUE`, where it wraps to `Integer.MAX_VALUE` |
| Decision.RootValue | src/edu/upc/epsevg/prop/hex/players/Sexagono.java:62-65 | the value the root compares for its k-th move is always a score; for a move that continues the game it is the exhaustive value of the position it leads to, searched to the full depth with the opponent to play (line 65). A game-ending move is never valued by the source, which returns it at once (lines 62-63); giving it `Integer.MAX_VALUE` is the model's convention, and `ChooseMove` reads `RootValue` only when every root move continues |
| Decision.ChooseMove | src/edu/upc/epsevg/prop/hex/players/Sexagono.java:53-73 | the root returns no move exactly when there is no legal move. If some move ends the game, it returns the first such move in generation order. Otherwise it returns the first move whose full-depth value is the greatest over all root moves. |

## Left out

- `HexGameStatus` (moves, stone placement, game-over detection, neighbours,
  cell owners) is not part of this model. The game tree abstracts it, and Hex
  adjacency and win detection are not modelled.
- `timeout()` and the iterative-deepening loop of `move`
  (Sexagono.java:36-38, 75-100) are left out. Another thread flips the flag
  asynchronously, and the `while (!timeout)` loop ends only through that
  flag, unless a root move ends the game (Sexagono.java:86-87). `Search`
  takes the flag as a fixed boolean. With the flag fixed, the in-loop `if (timeout) break;` can never fire once the entry test has
  passed; it is kept in `MaxLoop`/`MinLoop` for fidelity.
- `Decision.ChooseMove` searches with the flag clear. At a fixed depth,
  `timeout()` never changes the flag.
- The shortest-path calls inside `evaluateHeuristica` (`dijkstra`,
  Sexagono.java:168-169, 176-245) are left out. The routine is an unfinished
  stub that returns 0, and its results are discarded. Only the constant-0
  evaluation is modelled.
- Diagnostics are left out: the `expandedNodes` counter, `System.out.println`
  of each root value, and the packaging of the answer into a `PlayerMove`
  with depth and search type. None of them affects the chosen move.
- `getName`, the `myPlayer`/`otherPlayer` fields, the console driver
  UnitTesting.java and the Swing wiring in Game.java are left out. They
  contain no search logic.
- Root moves are reported as indices into the legal-move list, not as board
  points.
