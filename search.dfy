/**
  The search engine: exhaustive minimax with alpha-beta pruning, specified
  against the plain (unpruned) minimax value of a board.
 */
module Search {
  import opened Wrappers
  import opened BoardModel
  import opened Rules

  /** Integer stand-ins for `-inf` and `inf`: every game value lies in -1..1. */
  const NegInf: int := -2
  const PosInf: int := 2

  function Max(a: int, b: int): int { if a >= b then a else b }
  function Min(a: int, b: int): int { if a <= b then a else b }

  // ---------------------------------------------------------------------
  // The reference: plain minimax, no pruning
  // ---------------------------------------------------------------------

  /** Every index in `ms` is a legal move on `b`. */
  predicate AreMoves(b: Board, ms: seq<nat>) {
    forall i :: 0 <= i < |ms| ==> ms[i] < 9 && b[ms[i]] == Empty
  }

  /** The running maximum the source keeps: `NegInf` for no values. */
  function MaxList(vs: seq<int>): int {
    if vs == [] then NegInf else Max(MaxList(vs[..|vs| - 1]), vs[|vs| - 1])
  }

  /** The running minimum the source keeps: `PosInf` for no values. */
  function MinList(vs: seq<int>): int {
    if vs == [] then PosInf else Min(MinList(vs[..|vs| - 1]), vs[|vs| - 1])
  }

  /** The maximum bounds every value and, for a non-empty list above the sentinel, is one of them. */
  lemma {:induction false} MaxListBounds(vs: seq<int>)
    ensures forall j :: 0 <= j < |vs| ==> vs[j] <= MaxList(vs)
    ensures vs != [] && (forall j :: 0 <= j < |vs| ==> NegInf <= vs[j]) ==>
      exists j :: 0 <= j < |vs| && vs[j] == MaxList(vs)
    ensures vs == [] ==> MaxList(vs) == NegInf
  {
    if vs != [] {
      var n := |vs| - 1;
      var p := vs[..n];
      MaxListBounds(p);
      assert forall j :: 0 <= j < n ==> p[j] == vs[j];
      if forall j :: 0 <= j < |vs| ==> NegInf <= vs[j] {
        assert forall j :: 0 <= j < |p| ==> NegInf <= p[j];
        if n > 0 && MaxList(p) >= vs[n] {
          var j :| 0 <= j < n && p[j] == MaxList(p);
          assert vs[j] == MaxList(vs);
        } else {
          assert vs[n] == MaxList(vs);
        }
      }
    }
  }

  /** The minimum bounds every value and, for a non-empty list below the sentinel, is one of them. */
  lemma {:induction false} MinListBounds(vs: seq<int>)
    ensures forall j :: 0 <= j < |vs| ==> MinList(vs) <= vs[j]
    ensures vs != [] && (forall j :: 0 <= j < |vs| ==> vs[j] <= PosInf) ==>
      exists j :: 0 <= j < |vs| && vs[j] == MinList(vs)
    ensures vs == [] ==> MinList(vs) == PosInf
  {
    if vs != [] {
      var n := |vs| - 1;
      var p := vs[..n];
      MinListBounds(p);
      assert forall j :: 0 <= j < n ==> p[j] == vs[j];
      if forall j :: 0 <= j < |vs| ==> vs[j] <= PosInf {
        assert forall j :: 0 <= j < |p| ==> p[j] <= PosInf;
        if n > 0 && MinList(p) <= vs[n] {
          var j :| 0 <= j < n && p[j] == MinList(p);
          assert vs[j] == MinList(vs);
        } else {
          assert vs[n] == MinList(vs);
        }
      }
    }
  }

  /**
    The game value of `b` under optimal play: the utility of a finished game,
    otherwise the best child value for the player to move (X maximises, O
    minimises). The measure is the number of empty cells.
   */
  function Minimax(b: Board): (v: int)
    ensures -1 <= v <= 1
    decreases Count(b, Empty), 2
  {
    if IsTerminal(b) then BoardUtility(b)
    else
      EmptyCellsSpec(b);
      var vs := ChildValues(b, EmptyCells(b));
      MaxListBounds(vs);
      MinListBounds(vs);
      assert vs != [] by {
        var e :| 0 <= e < 9 && b[e] == Empty;
        assert e in EmptyCells(b);
      }
      if Player(b) == X then MaxList(vs) else MinList(vs)
  }

  /** The minimax values of the children reached by `ms`, in the order of `ms`. */
  function ChildValues(b: Board, ms: seq<nat>): (vs: seq<int>)
    requires AreMoves(b, ms)
    ensures |vs| == |ms|
    ensures forall j :: 0 <= j < |ms| ==> -1 <= vs[j] <= 1
    decreases Count(b, Empty), 1
  {
    seq(|ms|, j requires 0 <= j < |ms| => ChildValue(b, ms[j]))
  }

  /** The minimax value of the board a legal move leads to. */
  function ChildValue(b: Board, m: Index): (v: int)
    requires b[m] == Empty
    ensures -1 <= v <= 1
    decreases Count(b, Empty), 0
  {
    Minimax(Child(b, m))
  }

  /** On a board that is not finished, the minimax value is the extreme of the child values. */
  lemma MinimaxUnfold(b: Board)
    requires !IsTerminal(b)
    ensures AreMoves(b, EmptyCells(b))
    ensures Player(b) == X ==> Minimax(b) == MaxList(ChildValues(b, EmptyCells(b)))
    ensures Player(b) == O ==> Minimax(b) == MinList(ChildValues(b, EmptyCells(b)))
  {
    EmptyCellsSpec(b);
  }

  /**
    On a board that is not finished, the minimax value is the largest child
    value when X moves and the smallest when O moves, and some legal move
    attains it.
   */
  lemma MinimaxOfChildren(b: Board)
    requires !IsTerminal(b)
    ensures Player(b) == X ==> forall m: Index :: b[m] == Empty ==> ChildValue(b, m) <= Minimax(b)
    ensures Player(b) == O ==> forall m: Index :: b[m] == Empty ==> Minimax(b) <= ChildValue(b, m)
    ensures exists m: Index :: b[m] == Empty && ChildValue(b, m) == Minimax(b)
  {
    var ms := EmptyCells(b);
    EmptyCellsSpec(b);
    var vs := ChildValues(b, ms);
    MaxListBounds(vs);
    MinListBounds(vs);
    forall m: Index | b[m] == Empty
      ensures Player(b) == X ==> ChildValue(b, m) <= Minimax(b)
      ensures Player(b) == O ==> Minimax(b) <= ChildValue(b, m)
    {
      assert m in ms;
      var p :| 0 <= p < |ms| && ms[p] == m;
      assert vs[p] == ChildValue(b, m);
    }
    assert vs != [] by {
      var e :| 0 <= e < 9 && b[e] == Empty;
      assert e in ms;
    }
    var j :| 0 <= j < |vs| && vs[j] == Minimax(b);
    var m: Index := ms[j];
    assert b[m] == Empty && ChildValue(b, m) == Minimax(b);
  }

  // ---------------------------------------------------------------------
  // What alpha-beta guarantees
  // ---------------------------------------------------------------------

  /**
    Fail-soft alpha-beta: the value `v` searched in the window (alpha, beta)
    is exact when it lands inside the window, an upper bound of the true
    value `m` when at or below alpha, and a lower bound when at or above beta.
   */
  predicate FailSoft(v: int, m: int, alpha: int, beta: int) {
    && (v <= alpha ==> m <= v)
    && (v >= beta ==> m >= v)
    && (alpha < v < beta ==> m == v)
  }

  /**
    The returned move is the lowest-index empty cell whose child has the
    board's minimax value.
   */
  predicate IsFirstOptimal(b: Board, m: nat) {
    && m < 9 && b[m] == Empty
    && ChildValue(b, m) == Minimax(b)
    && forall c: Index :: c < m && b[c] == Empty ==> ChildValue(b, c) != Minimax(b)
  }

  /** A value found exact inside a window that holds the true value is the true value. */
  lemma FailSoftExact(v: int, m: int, alpha: int, beta: int)
    requires FailSoft(v, m, alpha, beta)
    requires alpha < m < beta
    ensures v == m
  {
  }

  /** One step of the maximising loop keeps the fail-soft relation of the prefix. */
  lemma MaxStep(vs: int, ms: int, v: int, m: int, alpha: int, beta: int, a: int)
    requires FailSoft(vs, ms, alpha, beta)
    requires FailSoft(v, m, a, beta)
    requires a == alpha || a == Max(alpha, vs)
    ensures FailSoft(Max(vs, v), Max(ms, m), alpha, beta)
  {
  }

  /** One step of the minimising loop keeps the fail-soft relation of the prefix. */
  lemma MinStep(vs: int, ms: int, v: int, m: int, alpha: int, beta: int, b: int)
    requires FailSoft(vs, ms, alpha, beta)
    requires FailSoft(v, m, alpha, b)
    requires b == beta || b == Min(beta, vs)
    ensures FailSoft(Min(vs, v), Min(ms, m), alpha, beta)
  {
  }

  /** Extending a prefix by one value extends the running maximum and minimum by it. */
  lemma PrefixStep(vs: seq<int>, i: nat)
    requires i < |vs|
    ensures MaxList(vs[..i + 1]) == Max(MaxList(vs[..i]), vs[i])
    ensures MinList(vs[..i + 1]) == Min(MinList(vs[..i]), vs[i])
  {
    assert vs[..i + 1][..i] == vs[..i];
  }

  /** The maximum of a prefix is at most that of the whole list; dually for the minimum. */
  lemma {:induction false} PrefixBound(vs: seq<int>, i: nat)
    requires i <= |vs|
    ensures MaxList(vs[..i]) <= MaxList(vs)
    ensures MinList(vs) <= MinList(vs[..i])
    decreases |vs| - i
  {
    if i == |vs| {
      assert vs[..i] == vs;
    } else {
      PrefixStep(vs, i);
      PrefixBound(vs, i + 1);
    }
  }

  /**
    A move at position `k` of the empty-cell list whose child value differs
    from `v` at every earlier position is the lowest empty cell with value `v`.
   */
  lemma LowestByPosition(b: Board, k: nat, v: int)
    requires k < |EmptyCells(b)|
    requires AreMoves(b, EmptyCells(b))
    requires forall j :: 0 <= j < k ==> ChildValue(b, EmptyCells(b)[j]) != v
    ensures forall c: Index :: c < EmptyCells(b)[k] && b[c] == Empty ==> ChildValue(b, c) != v
  {
    var ms := EmptyCells(b);
    EmptyCellsSpec(b);
    forall c: Index | c < ms[k] && b[c] == Empty
      ensures ChildValue(b, c) != v
    {
      assert c in ms;
      var p :| 0 <= p < |ms| && ms[p] == c;
      assert p < k;
    }
  }

  // ---------------------------------------------------------------------
  // minmax
  // ---------------------------------------------------------------------

  /**
    `minmax(board, alpha, beta)`: returns `(None, utility)` on a finished
    game; otherwise searches the available moves in ascending order as the
    maximiser when X is to move and as the minimiser when O is.
   */
  method MinMax(board: Board, alpha: int, beta: int) returns (move: Option<nat>, value: int)
    ensures -1 <= value <= 1
    ensures IsTerminal(board) ==> move == None && value == BoardUtility(board)
    ensures !IsTerminal(board) ==> move.Some? && move.value < 9 && board[move.value] == Empty
    ensures alpha < beta ==> FailSoft(value, Minimax(board), alpha, beta)
    ensures alpha <= NegInf && PosInf <= beta && !IsTerminal(board) ==> move.Some? && IsFirstOptimal(board, move.value)
    decreases Count(board, Empty), 1
  {
    if IsTerminal(board) {
      return None, BoardUtility(board);
    }
    var moves := AvailableActions(board);
    EmptyCellsSpec(board);
    assert moves != [] by {
      var e :| 0 <= e < 9 && board[e] == Empty;
      assert e in moves;
    }
    MinimaxUnfold(board);
    ghost var vals := ChildValues(board, moves);
    var m: nat;
    ghost var k: nat;
    if Player(board) == X {
      m, value, k := MaxPly(board, moves, alpha, beta);
    } else {
      m, value, k := MinPly(board, moves, alpha, beta);
    }
    move := Some(m);
    if alpha <= NegInf && PosInf <= beta {
      assert forall j :: 0 <= j < k ==> vals[j] == ChildValue(board, moves[j]);
      LowestByPosition(board, k, Minimax(board));
    }
  }

  // ---------------------------------------------------------------------
  // The two search loops, stated over the list of child values
  // ---------------------------------------------------------------------

  /** `vs[k]` is the first occurrence of the maximum of `vs`. */
  predicate FirstMax(vs: seq<int>, k: nat) {
    k < |vs| && vs[k] == MaxList(vs) && forall j :: 0 <= j < k ==> vs[j] < MaxList(vs)
  }

  /** `vs[k]` is the first occurrence of the minimum of `vs`. */
  predicate FirstMin(vs: seq<int>, k: nat) {
    k < |vs| && vs[k] == MinList(vs) && forall j :: 0 <= j < k ==> vs[j] > MinList(vs)
  }

  /**
    Under the full window the running maximum is exact, so the first position
    of the maximum moves only when the new value strictly beats it.
   */
  lemma FirstMaxStep(vs: seq<int>, i: nat, maxEval: int, k: nat, current: int)
    requires i < |vs| && -1 <= vs[i] <= 1 && -1 <= current
    requires i == 0 ==> maxEval == NegInf && k == 0
    requires i > 0 ==> maxEval == MaxList(vs[..i]) && FirstMax(vs[..i], k)
    requires current > maxEval ==> current == vs[i]
    requires current <= maxEval ==> vs[i] <= maxEval
    ensures FirstMax(vs[..i + 1], if current > maxEval then i else k)
  {
    PrefixStep(vs, i);
    MaxListBounds(vs[..i]);
    assert forall j :: 0 <= j < i ==> vs[..i + 1][j] == vs[..i][j];
  }

  /**
    Under the full window the running minimum is exact, so the first position
    of the minimum moves only when the new value strictly beats it.
   */
  lemma FirstMinStep(vs: seq<int>, i: nat, minEval: int, k: nat, current: int)
    requires i < |vs| && -1 <= vs[i] <= 1 && current <= 1
    requires i == 0 ==> minEval == PosInf && k == 0
    requires i > 0 ==> minEval == MinList(vs[..i]) && FirstMin(vs[..i], k)
    requires current < minEval ==> current == vs[i]
    requires current >= minEval ==> vs[i] >= minEval
    ensures FirstMin(vs[..i + 1], if current < minEval then i else k)
  {
    PrefixStep(vs, i);
    MinListBounds(vs[..i]);
    assert forall j :: 0 <= j < i ==> vs[..i + 1][j] == vs[..i][j];
  }

  /**
    What the maximising loop keeps after `i` children whose true values are
    `vs[..i]`: the running maximum, alpha raised to it, the window still
    open, the fail-soft relation to the prefix maximum, and under the full
    window the first position of that maximum.
   */
  ghost predicate MaxLoopInv(vs: seq<int>, i: nat, maxEval: int, a: int, k: nat, alpha: int, beta: int) {
    && i <= |vs| && k < |vs| && (forall j :: 0 <= j < |vs| ==> -1 <= vs[j] <= 1)
    && (i == 0 ==> maxEval == NegInf && a == alpha && k == 0)
    && (i > 0 ==> -1 <= maxEval <= 1 && a == Max(alpha, maxEval) && alpha < beta && a < beta)
    && (alpha < beta ==> FailSoft(maxEval, MaxList(vs[..i]), alpha, beta))
    && (alpha <= NegInf && PosInf <= beta && i > 0 ==> FirstMax(vs[..i], k))
  }

  /** What the maximising loop delivers, whether it ran to the end or was cut off. */
  ghost predicate MaxLoopResult(vs: seq<int>, maxEval: int, k: nat, alpha: int, beta: int) {
    && -1 <= maxEval <= 1 && k < |vs|
    && (alpha < beta ==> FailSoft(maxEval, MaxList(vs), alpha, beta))
    && (alpha <= NegInf && PosInf <= beta ==> FirstMax(vs, k))
  }

  /** One iteration of the maximising loop, with `current` the child's searched value. */
  lemma MaxLoopStep(vs: seq<int>, i: nat, maxEval: int, a: int, k: nat, alpha: int, beta: int, current: int)
    requires MaxLoopInv(vs, i, maxEval, a, k, alpha, beta) && i < |vs|
    requires -1 <= current <= 1
    requires a < beta ==> FailSoft(current, vs[i], a, beta)
    ensures var maxEval', k', a' := if current > maxEval then current else maxEval,
                                  if current > maxEval then i else k, Max(a, current);
      && (a' < beta ==> MaxLoopInv(vs, i + 1, maxEval', a', k', alpha, beta))
      && (beta <= a' ==> MaxLoopResult(vs, maxEval', k', alpha, beta))
  {
    var maxEval', k', a' := if current > maxEval then current else maxEval,
                           if current > maxEval then i else k, Max(a, current);
    PrefixStep(vs, i);
    MaxListBounds(vs[..i]);
    MaxListBounds(vs[..i + 1]);
    if alpha < beta {
      MaxStep(maxEval, MaxList(vs[..i]), current, vs[i], alpha, beta, a);
    }
    PrefixBound(vs, i + 1);
    if alpha <= NegInf && PosInf <= beta {
      FirstMaxStep(vs, i, maxEval, k, current);
    }
  }

  /** The maximising loop ran over every child. */
  lemma MaxLoopExit(vs: seq<int>, maxEval: int, a: int, k: nat, alpha: int, beta: int)
    requires MaxLoopInv(vs, |vs|, maxEval, a, k, alpha, beta) && vs != []
    ensures MaxLoopResult(vs, maxEval, k, alpha, beta)
  {
    assert vs[..|vs|] == vs;
  }

  /**
    What the minimising loop keeps after `i` children whose true values are
    `vs[..i]`: the mirror image of `MaxLoopInv`, with beta lowered.
   */
  ghost predicate MinLoopInv(vs: seq<int>, i: nat, minEval: int, b: int, k: nat, alpha: int, beta: int) {
    && i <= |vs| && k < |vs| && (forall j :: 0 <= j < |vs| ==> -1 <= vs[j] <= 1)
    && (i == 0 ==> minEval == PosInf && b == beta && k == 0)
    && (i > 0 ==> -1 <= minEval <= 1 && b == Min(beta, minEval) && alpha < beta && alpha < b)
    && (alpha < beta ==> FailSoft(minEval, MinList(vs[..i]), alpha, beta))
    && (alpha <= NegInf && PosInf <= beta && i > 0 ==> FirstMin(vs[..i], k))
  }

  /** What the minimising loop delivers, whether it ran to the end or was cut off. */
  ghost predicate MinLoopResult(vs: seq<int>, minEval: int, k: nat, alpha: int, beta: int) {
    && -1 <= minEval <= 1 && k < |vs|
    && (alpha < beta ==> FailSoft(minEval, MinList(vs), alpha, beta))
    && (alpha <= NegInf && PosInf <= beta ==> FirstMin(vs, k))
  }

  /** One iteration of the minimising loop, with `current` the child's searched value. */
  lemma MinLoopStep(vs: seq<int>, i: nat, minEval: int, b: int, k: nat, alpha: int, beta: int, current: int)
    requires MinLoopInv(vs, i, minEval, b, k, alpha, beta) && i < |vs|
    requires -1 <= current <= 1
    requires alpha < b ==> FailSoft(current, vs[i], alpha, b)
    ensures var minEval', k', b' := if current < minEval then current else minEval,
                                  if current < minEval then i else k, Min(b, current);
      && (alpha < b' ==> MinLoopInv(vs, i + 1, minEval', b', k', alpha, beta))
      && (b' <= alpha ==> MinLoopResult(vs, minEval', k', alpha, beta))
  {
    var minEval', k', b' := if current < minEval then current else minEval,
                           if current < minEval then i else k, Min(b, current);
    PrefixStep(vs, i);
    MinListBounds(vs[..i]);
    MinListBounds(vs[..i + 1]);
    if alpha < beta {
      MinStep(minEval, MinList(vs[..i]), current, vs[i], alpha, beta, b);
    }
    PrefixBound(vs, i + 1);
    if alpha <= NegInf && PosInf <= beta {
      FirstMinStep(vs, i, minEval, k, current);
    }
  }

  /** The minimising loop ran over every child. */
  lemma MinLoopExit(vs: seq<int>, minEval: int, b: int, k: nat, alpha: int, beta: int)
    requires MinLoopInv(vs, |vs|, minEval, b, k, alpha, beta) && vs != []
    ensures MinLoopResult(vs, minEval, k, alpha, beta)
  {
    assert vs[..|vs|] == vs;
  }

  /**
    The maximising branch of `minmax`: for each move, recurse on the child
    with the current window, keep the first move whose value strictly beats
    the running maximum, raise alpha, and stop once `beta <= alpha`.
    `k` is the position of the chosen move in `moves`.
   */
  method MaxPly(board: Board, moves: seq<nat>, alpha: int, beta: int)
    returns (bestMove: nat, maxEval: int, ghost k: nat)
    requires moves != [] && AreMoves(board, moves)
    ensures bestMove in moves && -1 <= maxEval <= 1
    ensures alpha < beta ==> FailSoft(maxEval, MaxList(ChildValues(board, moves)), alpha, beta)
    ensures k < |moves| && bestMove == moves[k]
    ensures MaxLoopResult(ChildValues(board, moves), maxEval, k, alpha, beta)
    decreases Count(board, Empty), 0
  {
    ghost var vals := ChildValues(board, moves);
    bestMove, maxEval, k := moves[0], NegInf, 0;
    var a := alpha;
    var i := 0;
    while i < |moves|
      invariant MaxLoopInv(vals, i, maxEval, a, k, alpha, beta)
      invariant k < |moves| && bestMove == moves[k]
    {
      var m := moves[i];
      var r := ResultOfMove(board, m);
      var child := r.value;
      assert child == Child(board, m);
      var childMove, current := MinMax(child, a, beta);
      assert vals[i] == ChildValue(board, m) == Minimax(child);
      MaxLoopStep(vals, i, maxEval, a, k, alpha, beta, current);
      if current > maxEval {
        maxEval, bestMove, k := current, m, i;
      }
      a := Max(a, current);
      i := i + 1;
      if beta <= a {
        break;
      }
    }
    if a < beta {
      MaxLoopExit(vals, maxEval, a, k, alpha, beta);
    }
  }

  /**
    The minimising branch of `minmax`: for each move, recurse on the child
    with the current window, keep the first move whose value strictly beats
    the running minimum, lower beta, and stop once `beta <= alpha`.
    `k` is the position of the chosen move in `moves`.
   */
  method MinPly(board: Board, moves: seq<nat>, alpha: int, beta: int)
    returns (bestMove: nat, minEval: int, ghost k: nat)
    requires moves != [] && AreMoves(board, moves)
    ensures bestMove in moves && -1 <= minEval <= 1
    ensures alpha < beta ==> FailSoft(minEval, MinList(ChildValues(board, moves)), alpha, beta)
    ensures k < |moves| && bestMove == moves[k]
    ensures MinLoopResult(ChildValues(board, moves), minEval, k, alpha, beta)
    decreases Count(board, Empty), 0
  {
    ghost var vals := ChildValues(board, moves);
    bestMove, minEval, k := moves[0], PosInf, 0;
    var b := beta;
    var i := 0;
    while i < |moves|
      invariant MinLoopInv(vals, i, minEval, b, k, alpha, beta)
      invariant k < |moves| && bestMove == moves[k]
    {
      var m := moves[i];
      var r := ResultOfMove(board, m);
      var child := r.value;
      assert child == Child(board, m);
      var childMove, current := MinMax(child, alpha, b);
      assert vals[i] == ChildValue(board, m) == Minimax(child);
      MinLoopStep(vals, i, minEval, b, k, alpha, beta, current);
      if current < minEval {
        minEval, bestMove, k := current, m, i;
      }
      b := Min(b, current);
      i := i + 1;
      if b <= alpha {
        break;
      }
    }
    if alpha < b {
      MinLoopExit(vals, minEval, b, k, alpha, beta);
    }
  }

  /**
    The call `minmax(board, -inf, inf)`: with the full window the value is
    the unpruned minimax value, and the move is the lowest-index empty cell
    whose child attains it (absent exactly on a finished game).
   */
  method OptimalMove(board: Board) returns (move: Option<nat>, value: int)
    ensures value == Minimax(board)
    ensures move.None? <==> IsTerminal(board)
    ensures move.Some? ==> IsFirstOptimal(board, move.value)
  {
    move, value := MinMax(board, NegInf, PosInf);
    FailSoftExact(value, Minimax(board), NegInf, PosInf);
  }
}
