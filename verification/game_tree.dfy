/**
 * The game as the search sees it. The board class is not part of this
 * model: a position is described only by what the search asks of it,
 * namely the legal moves in generation order and, for each move, whether
 * placing that stone ends the game or leads to a further position.
 */
module GameTree {

  /** Java's `int`: every score, window bound and depth is one of these. */
  newtype Int32 = x: int | -0x8000_0000 <= x < 0x8000_0000

  /** `Integer.MIN_VALUE`, the loss sentinel and the initial `maxEval`. */
  const MIN_VALUE: Int32 := -0x8000_0000

  /** `Integer.MAX_VALUE`, the win sentinel and the initial `minEval`. */
  const MAX_VALUE: Int32 := 0x7fff_ffff

  /** `Math.max` on Java ints. */
  function Max(a: Int32, b: Int32): (r: Int32)
    ensures r == a || r == b
    ensures a <= r && b <= r
  {
    if a < b then b else a
  }

  /** `Math.min` on Java ints. */
  function Min(a: Int32, b: Int32): (r: Int32)
    ensures r == a || r == b
    ensures r <= a && r <= b
  {
    if a < b then a else b
  }

  /** `depth - 1` on a Java int, which wraps around below `Integer.MIN_VALUE`. */
  function Dec(depth: Int32): (r: Int32)
    ensures depth != MIN_VALUE ==> r < depth
    ensures depth == MIN_VALUE ==> r == MAX_VALUE
    ensures (r as int - (depth as int - 1)) % 0x1_0000_0000 == 0
  {
    if depth == MIN_VALUE then MAX_VALUE else depth - 1
  }

  /**
   * A position: one entry per legal move, in the order the board lists
   * them. An empty sequence is a full board.
   */
  datatype Position = Position(moves: seq<Placement>)

  /**
   * What placing the stone of one move yields: either the game is over
   * straight after the placement, or play continues from a new position.
   */
  datatype Placement = GameOver | Continue(after: Position)

  /** The only values a search can produce: the two sentinels and the leaf score. */
  predicate IsScore(v: Int32)
  {
    v == MIN_VALUE || v == 0 || v == MAX_VALUE
  }

  /**
   * The leaf evaluation. The shortest-path computations it starts are
   * discarded, and it scores every position 0.
   */
  function Evaluate(p: Position): (r: Int32)
    ensures IsScore(r)
  {
    0
  }
}
