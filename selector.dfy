/**
  The random opponent: any empty cell, or nothing when the board is full.
 */
module MoveSelector {
  import opened Wrappers
  import opened BoardModel
  import opened Rules

  /**
    `get_random_move`: collects the empty indices in ascending order and
    picks one of them; the uniform distribution of `random.choice` is not
    modelled, only that the choice is one of the collected indices.
   */
  method RandomMove(board: Board) returns (move: Option<nat>)
    ensures move.None? <==> forall k :: 0 <= k < 9 ==> board[k] != Empty
    ensures move.Some? ==> move.value < 9 && board[move.value] == Empty
  {
    var validMoves := AvailableActions(board);
    if validMoves == [] {
      return None;
    }
    var k :| 0 <= k < |validMoves|;
    assert validMoves[k] in validMoves;
    return Some(validMoves[k]);
  }
}
