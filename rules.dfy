/**
  The rules engine: whose turn it is, applying a move, the available moves,
  the winner, the terminal test and the utility of a board.
 */
module Rules {
  import opened Wrappers
  import opened BoardModel

  // ---------------------------------------------------------------------
  // Mark counts (`list.count`)
  // ---------------------------------------------------------------------

  /** The number of cells of `s` holding `c`. */
  function Count(s: seq<Cell>, c: Cell): (n: nat)
    ensures n <= |s|
  {
    if |s| == 0 then 0 else Count(s[..|s| - 1], c) + (if s[|s| - 1] == c then 1 else 0)
  }

  /** Counting over one more cell adds that cell's contribution. */
  lemma CountSnoc(s: seq<Cell>, n: nat, c: Cell)
    requires n < |s|
    ensures Count(s[..n + 1], c) == Count(s[..n], c) + (if s[n] == c then 1 else 0)
  {
    assert s[..n + 1][..n] == s[..n];
  }

  /** A mark is counted zero times exactly when it does not occur. */
  lemma {:induction false} CountZero(s: seq<Cell>, c: Cell)
    ensures Count(s, c) == 0 <==> c !in s
  {
    if |s| > 0 {
      CountZero(s[..|s| - 1], c);
      assert s == s[..|s| - 1] + [s[|s| - 1]];
    }
  }

  /** Every cell is empty, an X or an O. */
  lemma {:induction false} CountSum(s: seq<Cell>)
    ensures Count(s, Empty) + Count(s, X) + Count(s, O) == |s|
  {
    if |s| > 0 {
      CountSum(s[..|s| - 1]);
    }
  }

  /** Overwriting one cell moves one unit of count from the old mark to the new one. */
  lemma {:induction false} CountUpdate(s: seq<Cell>, k: nat, c: Cell, d: Cell)
    requires k < |s|
    ensures Count(s[k := c], d) == Count(s, d) - (if s[k] == d then 1 else 0) + (if c == d then 1 else 0)
  {
    var n := |s| - 1;
    if k == n {
      assert s[k := c][..n] == s[..n];
    } else {
      CountUpdate(s[..n], k, c, d);
      assert s[k := c][..n] == s[..n][k := c];
    }
  }

  // ---------------------------------------------------------------------
  // player, result_of_move
  // ---------------------------------------------------------------------

  /**
    `player`: O moves when X has more marks, X otherwise. The board is not
    checked for reachability.
   */
  function Player(b: Board): (p: Cell)
    ensures p != Empty
    ensures p == O <==> Count(b, X) > Count(b, O)
  {
    if Count(b, X) > Count(b, O) then O else X
  }

  /** The exception `result_of_move` raises. */
  datatype MoveError = InvalidMove

  /**
    The board `result_of_move` returns: it fails on an index outside 0..8
    or an occupied cell, and otherwise puts the mover's mark at `m`.
   */
  function Move(b: Board, m: int): (r: Result<Board, MoveError>)
    ensures r.Ok? <==> 0 <= m < 9 && b[m] == Empty
    ensures r.Ok? ==> r.value[m] == Player(b)
    ensures r.Ok? ==> forall k :: 0 <= k < 9 && k != m ==> r.value[k] == b[k]
  {
    if m < 0 || m >= 9 || b[m] != Empty then Err(InvalidMove) else Ok(b[m := Player(b)])
  }

  /**
    `result_of_move`: copies the board into a fresh array, writes the mover's
    mark into the copy and returns it; the input board is a value and is
    left as it was.
   */
  method ResultOfMove(board: Board, move: int) returns (r: Result<Board, MoveError>)
    ensures r == Move(board, move)
  {
    if move < 0 || move >= 9 || board[move] != Empty {
      return Err(InvalidMove);
    }
    var copy := new Cell[9](i requires 0 <= i < 9 => board[i]);
    copy[move] := Player(board);
    assert copy[..] == board[move := Player(board)];
    return Ok(copy[..]);
  }

  /** The board after a legal move: one empty cell fewer. */
  function Child(b: Board, m: Index): (c: Board)
    requires b[m] == Empty
    ensures Count(c, Empty) == Count(b, Empty) - 1
  {
    CountUpdate(b, m, Player(b), Empty);
    Move(b, m).value
  }

  // ---------------------------------------------------------------------
  // available_actions
  // ---------------------------------------------------------------------

  /** The indices of the empty cells of `s`, in the order a scan meets them. */
  function EmptyCells(s: seq<Cell>): seq<nat>
  {
    if |s| == 0 then []
    else EmptyCells(s[..|s| - 1]) + (if s[|s| - 1] == Empty then [|s| - 1] else [])
  }

  predicate StrictlyAscending(r: seq<nat>) {
    forall i, j :: 0 <= i < j < |r| ==> r[i] < r[j]
  }

  /**
    The empty-cell list holds exactly the indices of empty cells, each below
    `|s|`, in strictly ascending order, one per empty cell.
   */
  lemma {:induction false} EmptyCellsSpec(s: seq<Cell>)
    ensures forall k: nat :: k in EmptyCells(s) <==> k < |s| && s[k] == Empty
    ensures forall i :: 0 <= i < |EmptyCells(s)| ==> EmptyCells(s)[i] < |s| && s[EmptyCells(s)[i]] == Empty
    ensures StrictlyAscending(EmptyCells(s))
    ensures |EmptyCells(s)| == Count(s, Empty)
  {
    if |s| > 0 {
      var n := |s| - 1;
      EmptyCellsSpec(s[..n]);
    }
  }

  /**
    `available_actions`: appends every index whose cell is empty while
    scanning the board. The result is the list of empty cells, ascending,
    of length 9 - count(X) - count(O).
   */
  method AvailableActions(board: Board) returns (options: seq<nat>)
    ensures options == EmptyCells(board)
    ensures forall k: nat :: k in options <==> k < 9 && board[k] == Empty
    ensures StrictlyAscending(options)
    ensures |options| == 9 - Count(board, X) - Count(board, O)
  {
    options := [];
    for i := 0 to |board|
      invariant options == EmptyCells(board[..i])
    {
      assert board[..i + 1][..i] == board[..i];
      if board[i] == Empty {
        options := options + [i];
      }
    }
    assert board[..|board|] == board;
    EmptyCellsSpec(board);
    CountSum(board);
  }

  // ---------------------------------------------------------------------
  // winner
  // ---------------------------------------------------------------------

  /** The eight lines, scanned in this order: rows, columns, diagonals. */
  const WinLines: seq<(Index, Index, Index)> :=
    [(0, 1, 2), (3, 4, 5), (6, 7, 8), (0, 3, 6), (1, 4, 7), (2, 5, 8), (0, 4, 8), (2, 4, 6)]

  /** Line `k` holds three equal marks. */
  predicate Complete(b: Board, k: nat)
    requires k < |WinLines|
  {
    b[WinLines[k].0] != Empty && b[WinLines[k].0] == b[WinLines[k].1] && b[WinLines[k].1] == b[WinLines[k].2]
  }

  /** The mark in the first cell of line `k`. */
  function LineMark(b: Board, k: nat): Cell
    requires k < |WinLines|
  {
    b[WinLines[k].0]
  }

  /** Line `k` is complete and no line scanned before it is. */
  predicate IsFirstComplete(b: Board, k: nat) {
    k < |WinLines| && Complete(b, k) && forall j :: 0 <= j < k ==> !Complete(b, j)
  }

  /** The mark of the first complete line from line `i` on, if any. */
  function FirstWinFrom(b: Board, i: nat): Option<Cell>
    requires i <= |WinLines|
    decreases |WinLines| - i
  {
    if i == |WinLines| then None
    else if Complete(b, i) then Some(LineMark(b, i))
    else FirstWinFrom(b, i + 1)
  }

  /** The value `winner` returns. */
  function WinnerOf(b: Board): Option<Cell> {
    FirstWinFrom(b, 0)
  }

  /**
    The winner is the mark of the first complete line in scan order; there
    is none exactly when no line is complete; an empty cell is never reported.
   */
  lemma WinnerSpec(b: Board)
    ensures WinnerOf(b).None? <==> forall k :: 0 <= k < |WinLines| ==> !Complete(b, k)
    ensures forall k :: IsFirstComplete(b, k) ==> WinnerOf(b) == Some(LineMark(b, k))
    ensures WinnerOf(b).Some? ==> WinnerOf(b).value != Empty
  {
  }

  /** `winner`: scans the lines in order and returns at the first complete one. */
  method Winner(board: Board) returns (w: Option<Cell>)
    ensures w == WinnerOf(board)
    ensures w.Some? ==> w.value != Empty
  {
    WinnerSpec(board);
    for k := 0 to |WinLines|
      invariant FirstWinFrom(board, k) == WinnerOf(board)
    {
      var a, b, c := WinLines[k].0, WinLines[k].1, WinLines[k].2;
      if board[a] != Empty && board[a] == board[b] && board[b] == board[c] {
        return Some(board[a]);
      }
    }
    return None;
  }

  // ---------------------------------------------------------------------
  // is_terminal, board_utility
  // ---------------------------------------------------------------------

  /** `is_terminal`: no empty cell is left, or there is a winner. */
  predicate IsTerminal(b: Board) {
    Empty !in b || WinnerOf(b).Some?
  }

  /** The game is over exactly when the board is full or some line is complete. */
  lemma TerminalIff(b: Board)
    ensures IsTerminal(b) <==>
      (forall k :: 0 <= k < 9 ==> b[k] != Empty) || (exists k :: 0 <= k < |WinLines| && Complete(b, k))
  {
    WinnerSpec(b);
  }

  /** `board_utility`: +1 if X has won, -1 if O has won, 0 otherwise. */
  function BoardUtility(b: Board): (u: int)
    ensures -1 <= u <= 1
  {
    if WinnerOf(b) == Some(X) then 1 else if WinnerOf(b) == Some(O) then -1 else 0
  }

  /**
    The utility is 0 exactly when no line is complete (a draw or a game not
    yet over), and otherwise the sign of the first complete line's mark.
   */
  lemma UtilityByLine(b: Board)
    ensures BoardUtility(b) == 0 <==> forall k :: 0 <= k < |WinLines| ==> !Complete(b, k)
    ensures forall k :: IsFirstComplete(b, k) ==> BoardUtility(b) == (if LineMark(b, k) == X then 1 else -1)
  {
    WinnerSpec(b);
  }

  // ---------------------------------------------------------------------
  // Turn order over a game
  // ---------------------------------------------------------------------

  const EmptyBoard: Board := [Empty, Empty, Empty, Empty, Empty, Empty, Empty, Empty, Empty]

  /** The mark of the `n`-th move of a game (counting from 0): X, O, X, ... */
  function MoverAt(n: nat): Cell {
    if n % 2 == 0 then X else O
  }

  /** The board after applying `ms` in order to the empty board with `Move`. */
  function Play(ms: seq<int>): Result<Board, MoveError>
  {
    if ms == [] then Ok(EmptyBoard)
    else
      match Play(ms[..|ms| - 1])
      case Err(e) => Err(e)
      case Ok(b) => Move(b, ms[|ms| - 1])
  }

  /**
    Along any game started from the empty board, the marks alternate
    X, O, X, ...: the i-th move's cell holds MoverAt(i), X has one mark more
    than O or as many, and `player` names the next in the alternation.
   */
  lemma {:induction false} TurnsAlternate(ms: seq<int>)
    requires Play(ms).Ok?
    ensures Count(Play(ms).value, X) == (|ms| + 1) / 2
    ensures Count(Play(ms).value, O) == |ms| / 2
    ensures Player(Play(ms).value) == MoverAt(|ms|)
    ensures forall i :: 0 <= i < |ms| ==> 0 <= ms[i] < 9 && Play(ms).value[ms[i]] == MoverAt(i)
  {
    if ms == [] {
      CountZero(EmptyBoard, X);
      CountZero(EmptyBoard, O);
    } else {
      var n := |ms| - 1;
      var prefix := ms[..n];
      TurnsAlternate(prefix);
      var b := Play(prefix).value;
      var m := ms[n];
      var after := Play(ms).value;
      assert after == b[m := Player(b)];
      CountUpdate(b, m, Player(b), X);
      CountUpdate(b, m, Player(b), O);
      forall i | 0 <= i < |ms|
        ensures 0 <= ms[i] < 9 && after[ms[i]] == MoverAt(i)
      {
        if i < n {
          assert ms[i] == prefix[i];
        }
      }
    }
  }
}
