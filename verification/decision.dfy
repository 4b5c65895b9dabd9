/**
 * The fixed-depth root decision of the player: try every legal move in
 * generation order, take a move that ends the game at once, and otherwise
 * keep the first move of greatest searched value.
 */
module Decision {
  import opened GameTree
  import opened Minimax
  import opened AlphaBeta

  /** A root move, or none when the board offers no legal move. */
  datatype Option<T> = None | Some(value: T)

  /**
   * What the root makes of its k-th move: a move that ends the game is a
   * win; any other is worth the exhaustive value of the position it leads
   * to, searched to the full depth with the opponent to play.
   */
  function RootValue(root: Position, k: nat, maxDepth: Int32): (v: Int32)
    requires k < |root.moves|
    ensures IsScore(v)
    ensures root.moves[k].GameOver? ==> v == MAX_VALUE
  {
    match root.moves[k]
    case GameOver => MAX_VALUE
    case Continue(q) => Value(q, maxDepth, false, false)
  }

  /**
   * The move chosen at the root, as an index into the legal moves, or
   * `None` when there is no legal move. Each move is searched with the full
   * window and the timeout flag clear, since that flag never changes when
   * the player runs at a fixed depth.
   */
  method ChooseMove(root: Position, maxDepth: Int32) returns (choice: Option<nat>)
    ensures choice.None? <==> |root.moves| == 0
    ensures choice.Some? ==> choice.value < |root.moves|
    ensures (exists k :: 0 <= k < |root.moves| && root.moves[k].GameOver?) ==>
              && choice.Some?
              && root.moves[choice.value].GameOver?
              && forall j :: 0 <= j < choice.value ==> root.moves[j].Continue?
    ensures (forall k :: 0 <= k < |root.moves| ==> root.moves[k].Continue?) && choice.Some? ==>
              && (forall j :: 0 <= j < |root.moves| ==> RootValue(root, j, maxDepth) <= RootValue(root, choice.value, maxDepth))
              && (forall j :: 0 <= j < choice.value ==> RootValue(root, j, maxDepth) < RootValue(root, choice.value, maxDepth))
  {
    choice := None;
    var bestValue := MIN_VALUE;
    var i := 0;
    while i < |root.moves|
      invariant 0 <= i <= |root.moves|
      invariant forall j :: 0 <= j < i ==> root.moves[j].Continue?
      invariant i == 0 ==> choice.None? && bestValue == MIN_VALUE
      invariant 0 < i ==> choice.Some? && choice.value < i && RootValue(root, choice.value, maxDepth) == bestValue
      invariant forall j :: 0 <= j < i ==> RootValue(root, j, maxDepth) <= bestValue
      invariant 0 < i ==> forall j :: 0 <= j < choice.value ==> RootValue(root, j, maxDepth) < bestValue
    {
      if choice.None? {
        choice := Some(0);
      }
      match root.moves[i]
      case GameOver =>
        choice := Some(i);
        return;
      case Continue(q) =>
        var value := Search(q, maxDepth, MIN_VALUE, MAX_VALUE, false, false);
        SearchFullWindow(q, maxDepth, false, false);
        if value > bestValue {
          bestValue := value;
          choice := Some(i);
        }
      i := i + 1;
    }
  }
}
