/**
  Two concrete positions and what the full-window search returns on them.
 */
module Scenarios {
  import opened Wrappers
  import opened BoardModel
  import opened Rules
  import opened Search

  /** X to move: two X in the top row, two O in the middle row. */
  const TwoInRow: Board := [X, X, Empty, O, O, Empty, Empty, Empty, Empty]

  /** Two X and two O are on the board. */
  lemma TwoInRowCounts()
    ensures Count(TwoInRow, X) == 2 && Count(TwoInRow, O) == 2
  {
    var board := TwoInRow;
    assert Count(board[..0], X) == 0 && Count(board[..0], O) == 0;
    CountSnoc(board, 0, X);
    CountSnoc(board, 0, O);
    assert Count(board[..1], X) == 1 && Count(board[..1], O) == 0;
    CountSnoc(board, 1, X);
    CountSnoc(board, 1, O);
    assert Count(board[..2], X) == 2 && Count(board[..2], O) == 0;
    CountSnoc(board, 2, X);
    CountSnoc(board, 2, O);
    assert Count(board[..3], X) == 2 && Count(board[..3], O) == 0;
    CountSnoc(board, 3, X);
    CountSnoc(board, 3, O);
    assert Count(board[..4], X) == 2 && Count(board[..4], O) == 1;
    CountSnoc(board, 4, X);
    CountSnoc(board, 4, O);
    assert Count(board[..5], X) == 2 && Count(board[..5], O) == 2;
    CountSnoc(board, 5, X);
    CountSnoc(board, 5, O);
    assert Count(board[..6], X) == 2 && Count(board[..6], O) == 2;
    CountSnoc(board, 6, X);
    CountSnoc(board, 6, O);
    assert Count(board[..7], X) == 2 && Count(board[..7], O) == 2;
    CountSnoc(board, 7, X);
    CountSnoc(board, 7, O);
    assert Count(board[..8], X) == 2 && Count(board[..8], O) == 2;
    CountSnoc(board, 8, X);
    CountSnoc(board, 8, O);
    assert Count(board[..9], X) == 2 && Count(board[..9], O) == 2;
    assert board[..9] == board;
  }

  /** The position is not finished and it is X's turn. */
  lemma TwoInRowToMove()
    ensures !IsTerminal(TwoInRow) && Player(TwoInRow) == X
  {
    assert WinnerOf(TwoInRow) == None;
    TwoInRowCounts();
  }

  /** Playing cell 2 completes the top row, so the position is worth a win for X. */
  lemma TwoInRowValue()
    ensures !IsTerminal(TwoInRow) && ChildValue(TwoInRow, 2) == 1 && Minimax(TwoInRow) == 1
  {
    TwoInRowToMove();
    assert Child(TwoInRow, 2) == [X, X, X, O, O, Empty, Empty, Empty, Empty];
    assert WinnerOf(Child(TwoInRow, 2)) == Some(X);
    MinimaxOfChildren(TwoInRow);
  }

  /** The full-window search plays the winning cell 2 with value 1. */
  method ImmediateWin() returns (move: Option<nat>, value: int)
    ensures move == Some(2) && value == 1
  {
    TwoInRowValue();
    move, value := OptimalMove(TwoInRow);
    assert move.value == 2 by {
      assert TwoInRow[0] != Empty && TwoInRow[1] != Empty;
    }
  }

  /** A full board with no line: the game is over, there is no move and the value is a draw. */
  method FullDraw() returns (move: Option<nat>, value: int)
    ensures move == None && value == 0
  {
    var board: Board := [X, O, X, X, O, O, O, X, X];
    assert WinnerOf(board) == None;
    move, value := OptimalMove(board);
  }
}
