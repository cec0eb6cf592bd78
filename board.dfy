/**
  The board model: the cells of a 3x3 tic-tac-toe grid, the raw values a
  request may carry, and the validator that turns a raw list into a board.
 */
module BoardModel {
  import opened Wrappers

  /** A cell of the grid; `Empty` is the source's `None`. */
  datatype Cell = Empty | X | O

  /** A cell index, row-major: 0 1 2 / 3 4 5 / 6 7 8. */
  type Index = i: nat | i < 9

  /** A board: exactly nine cells, as the validator guarantees. */
  type Board = b: seq<Cell> | |b| == 9
    witness [Empty, Empty, Empty, Empty, Empty, Empty, Empty, Empty, Empty]

  /** An element of the request's `state` list: `None` or some string. */
  datatype Value = Null | Str(s: string)

  /** The two `ValueError`s the validator raises. */
  datatype ValidationError = WrongLength | InvalidValue

  /** The three values the validator admits: "X", "O" and None. */
  predicate IsValidValue(v: Value) {
    v == Null || v == Str("X") || v == Str("O")
  }

  /** A list the validator accepts: nine elements, each an admitted value. */
  predicate IsValidState(state: seq<Value>) {
    |state| == 9 && forall i :: 0 <= i < |state| ==> IsValidValue(state[i])
  }

  /**
    `BoardState.validate_board_state`: checks the length first, then every
    element in order, and returns the list itself when both checks pass.
   */
  method ValidateBoardState(state: seq<Value>) returns (r: Result<seq<Value>, ValidationError>)
    ensures r.Ok? <==> IsValidState(state)
    ensures r.Ok? ==> r.value == state
    ensures |state| != 9 ==> r == Err(WrongLength)
    ensures |state| == 9 && !IsValidState(state) ==> r == Err(InvalidValue)
  {
    if |state| != 9 {
      return Err(WrongLength);
    }
    for i := 0 to |state|
      invariant forall j :: 0 <= j < i ==> IsValidValue(state[j])
    {
      if !IsValidValue(state[i]) {
        return Err(InvalidValue);
      }
    }
    return Ok(state);
  }

  /** The cell an admitted value denotes. */
  function CellOf(v: Value): Cell
    requires IsValidValue(v)
  {
    if v == Null then Empty else if v == Str("X") then X else O
  }

  /** The raw value that denotes a cell. */
  function ValueOf(c: Cell): (v: Value)
    ensures IsValidValue(v) && CellOf(v) == c
  {
    match c
    case Empty => Null
    case X => Str("X")
    case O => Str("O")
  }

  /** Reads a validated list as a board, cell by cell. */
  function ToBoard(state: seq<Value>): (b: Board)
    requires IsValidState(state)
    ensures forall i :: 0 <= i < 9 ==> ValueOf(b[i]) == state[i]
  {
    seq(9, i requires 0 <= i < 9 => CellOf(state[i]))
  }

  /** Writes a board as the list a request carries. */
  function FromBoard(b: Board): (state: seq<Value>)
    ensures IsValidState(state)
    ensures forall i :: 0 <= i < 9 ==> state[i] == ValueOf(b[i])
  {
    seq(9, i requires 0 <= i < 9 => ValueOf(b[i]))
  }

  /** Every board is accepted by the validator, and reading it back gives the same board. */
  lemma BoardRoundTrip(b: Board)
    ensures IsValidState(FromBoard(b)) && ToBoard(FromBoard(b)) == b
  {
  }

  /** Every accepted list is the encoding of the board it is read as. */
  lemma StateRoundTrip(state: seq<Value>)
    requires IsValidState(state)
    ensures FromBoard(ToBoard(state)) == state
  {
  }
}
