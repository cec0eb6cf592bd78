# Tic-tac-toe engine, modelled in Dafny

This project models the game engine behind a small tic-tac-toe web service (`backend/app.py`):
- the validator that accepts a request's board list;
- the random opponent;
- the game rules: whose turn it is, applying a move, the empty cells, the winner, the end of the game and the score;
- the alpha-beta minimax search behind the "minmax" opponent.

A board is nine cells in row-major order. Each cell is `Empty` (the source's `None`), `X` or `O`. X always moves first.

Modules:

- `Wrappers`: `Option` and `Result`.
- `BoardModel` (`board.dfy`): cells, boards, the raw request values, and `validate_board_state` as a loop over the list.
- `Rules` (`rules.dfy`):
  - `player` works by counting marks.
  - `result_of_move` copies the board into a fresh array and writes one cell. It is proved equal to the pure function `Move`.
  - `available_actions` and `winner` are loops, each proved against a recursive reference function (`EmptyCells`, `FirstWinFrom`).
  - `is_terminal` and `board_utility` are pure.
- `Search` (`search.dfy`):
  - `minmax` is a recursive method whose two branches (`MaxPly`, `MinPly`) keep the source's running best value, strict improvement test, window update and `break`.
  - It is specified against `Minimax`, the plain game value with no pruning. In that value X maximises and O minimises over the children in ascending cell order.
- `MoveSelector` (`selector.dfy`): `get_random_move`.
- `Scenarios` (`scenarios.dfy`): two concrete positions and the search results on them.

What alpha-beta guarantees is stated by the predicate `FailSoft(v, m, alpha, beta)`. It relates the value `v` returned with the window (alpha, beta) to the true value `m`:
- if `v` lies inside the window, it is exact;
- if `v <= alpha`, it is an upper bound of `m`;
- if `v >= beta`, it is a lower bound of `m`.

With the full window that `get_minmax_move` uses (`-inf`, `inf`), this makes the returned value the minimax value. The returned move is then the lowest-index empty cell whose child has that value.

The search moves on only when a child's value is strictly better (`>` for X, `<` for O), so among equally good moves the first one in ascending order is kept. A later move of equal value never replaces an earlier one.

## Model

| member | source | states |
|---|---|---|
| BoardModel.ValidateBoardState | backend/app.py:35-43 | accepts exactly the lists of length 9 whose every element is "X", "O" or None, and returns the list unchanged; a list of the wrong length fails with the length error, and a list of length 9 with a bad element fails with the value error |
| BoardModel.BoardRoundTrip | backend/app.py:32-43 | every board written as a list is accepted by the validator, and reading it back gives the same board |
| BoardModel.StateRoundTrip | backend/app.py:32-43 | every accepted list is exactly the list form of the board it is read as |
| Rules.Count | backend/app.py:80 | `board.count(mark)`: the number of cells holding the mark, never more than the number of cells |
| Rules.Player | backend/app.py:75-82 | the player to move is never empty, and is O exactly when X has more marks than O |
| Rules.TurnsAlternate | backend/app.py:75-98 | after any sequence of successful moves from the empty board: X has made half the moves rounded up, O half rounded down, the next mover alternates with the move count, and the i-th move's cell holds X when i is even and O when it is odd |
| Rules.Move | backend/app.py:85-98 | a move fails exactly when the index is outside 0..8 or the cell is occupied; on success the cell holds the player to move and every other cell is unchanged |
| Rules.ResultOfMove | backend/app.py:85-98 | the array copy with one cell written yields exactly the board `Move` describes, including the error for a bad move |
| Rules.Child | backend/app.py:95-96 | a legal move leaves one fewer empty cell |
| Rules.EmptyCellsSpec | backend/app.py:101-111 | the collected indices are exactly the empty cells, strictly ascending, and as many as there are empty cells |
| Rules.AvailableActions | backend/app.py:101-111 | the loop returns exactly the empty cells in ascending order, and there are 9 − count(X) − count(O) of them |
| Rules.WinnerSpec | backend/app.py:113-130 | there is no winner exactly when no line is complete; otherwise the winner is the mark of the first complete line in scan order, and it is never empty |
| Rules.Winner | backend/app.py:113-130 | the scan over the eight lines returns the first complete line's mark, or None, and never an empty cell |
| Rules.IsTerminal | backend/app.py:133-142 | the game is over when no cell is empty or `winner` reports a mark |
| Rules.TerminalIff | backend/app.py:133-142 | a game is over exactly when the board is full or some line is complete |
| Rules.BoardUtility | backend/app.py:144-150 | the utility is -1, 0 or 1 |
| Rules.UtilityByLine | backend/app.py:144-150 | the utility is 0 exactly when no line is complete; otherwise it is 1 when the first complete line belongs to X and -1 when it belongs to O |
| Search.Minimax | backend/app.py:153-185 | the unpruned game value of every board is -1, 0 or 1 |
| Search.MinimaxOfChildren | backend/app.py:161-185 | on an unfinished board the game value bounds every legal child's value from above when X moves and from below when O moves, and some legal move attains it |
| Search.MinMax | backend/app.py:153-185 | a finished board gives no move and its utility; otherwise the move is a legal empty cell; the value is -1, 0 or 1; for any open window the value is fail-soft with respect to the unpruned value; with the full window the move is the lowest-index optimal move |
| Search.MaxPly | backend/app.py:161-172 | X's loop returns one of the moves given to it, and a running maximum that is fail-soft with respect to the largest child value; under the full window it is the first position of that maximum |
| Search.MinPly | backend/app.py:174-185 | O's loop returns one of the moves given to it, and a running minimum that is fail-soft with respect to the smallest child value; under the full window it is the first position of that minimum |
| Search.MaxLoopStep | backend/app.py:163-171 | one iteration of X's loop: raising alpha, the strict improvement test and the cut-off when beta <= alpha keep the loop's invariant, or deliver its result when the loop breaks |
| Search.MinLoopStep | backend/app.py:176-184 | one iteration of O's loop: lowering beta, the strict improvement test and the cut-off when beta <= alpha keep the loop's invariant, or deliver its result when the loop breaks |
| Search.FirstMaxStep | backend/app.py:166-168 | under the full window, the kept best move changes only when a child strictly beats the running maximum, so the kept move is the first one of maximal value |
| Search.FirstMinStep | backend/app.py:179-181 | under the full window, the kept best move changes only when a child strictly beats the running minimum, so the kept move is the first one of minimal value |
| Search.OptimalMove | backend/app.py:71 | the full-window search returns the unpruned game value; it returns no move exactly on a finished game, and otherwise the lowest-index empty cell whose child has that value |
| MoveSelector.RandomMove | backend/app.py:53-59 | the random opponent returns no move exactly when the board is full, and otherwise an empty cell |
| Scenarios.TwoInRowValue | backend/app.py:161-172 | on X,X,_ / O,O,_ / _,_,_ with X to move, playing cell 2 is a win, so the game value is 1 |
| Scenarios.ImmediateWin | backend/app.py:153-172 | the full-window search on that board returns move 2 with value 1 |
| Scenarios.FullDraw | backend/app.py:155-156 | on the full board X,O,X / X,O,O / O,X,X, which has no line, the search returns no move and value 0 |

## Left out

- The HTTP layer is not modelled: the FastAPI application, the CORS middleware, the routes and the response dictionaries (`{"ai_move": …, "player": …}`). `Search.OptimalMove` returns the `(move, value)` pair that `minmax(board, -inf, inf)` puts under `ai_move`. The `player` field is `Rules.Player`, computed separately. `MoveSelector.RandomMove` returns the move the random route puts under `ai_move`.
- The API-key check (`validate_api_key`) is not modelled. It compares a request header with an environment variable, and both are outside the engine.
- The pydantic machinery around the validator (`BaseModel`, `@validator`, `Required`) is not modelled. The validator is a method over the raw list, and its two `ValueError`s are a `Result` error.
- MoveSelector.RandomMove: does not model that `random.choice` is uniform. The choice is any one of the empty cells, written as a nondeterministic pick.
- The floating-point `-inf` and `inf` are not modelled. The model uses the integer sentinels -2 and 2; every game value lies in -1..1, so every comparison comes out the same. The window bounds are arbitrary integers.
- `deepcopy` is not modelled. The model copies the nine cells into a fresh array.
- The value of the empty board is not proved. Tic-tac-toe is a draw under perfect play, so the full-window search from the empty board would return 0. Proving it would take exploring the whole game tree of up to 9! move orders, which is out of reach for the verifier.
- Search.MinMax: the fail-soft property is stated only for an open window (alpha < beta). The source accepts any bounds; with alpha >= beta it searches one child and breaks, and the model leaves that value unconstrained.
- Search.MinMax: the source's value check on `player(board)` (`"X"` or else `"O"`) is modelled as a two-way choice, since `player` never returns anything else.
