/**
 * Optimal move selection by exhaustive game-tree search.
 *
 * `Value` is the minimax value of a position when the maximizing or the
 * minimizing side is to choose, with no cut-offs; `GameValue` is the
 * textbook minimax value in which the player to move is read off the board.
 * `MaxValue` and `MinValue` are the searching loops, which stop as soon as
 * the best possible value (1 for X, -1 for O) has been seen; they are
 * proved to compute `Value` and to return a move that attains it.
 */
module Minimax {
  import opened TicTacToe

  /** Every move in `acts` targets an empty cell of `b`. */
  predicate AllEmpty(b: Board, acts: seq<Move>) {
    forall k | 0 <= k < |acts| :: At(b, acts[k]) == Empty
  }

  lemma ActionsAllEmpty(b: Board)
    ensures AllEmpty(b, Actions(b))
  {
    forall k | 0 <= k < |Actions(b)| ensures At(b, Actions(b)[k]) == Empty {
      assert Actions(b)[k] in Actions(b);
    }
  }

  // ---------------------------------------------------------------------
  // The best of a list of values
  // ---------------------------------------------------------------------

  /** Both kinds of comparison the search makes: keep the new value if it is better. */
  function Better(w: int, u: int, maximizing: bool): int {
    if maximizing then (if w > u then w else u) else (if w < u then w else u)
  }

  /**
   * What the search starts from: -2 stands for minus infinity when
   * maximizing, 2 for plus infinity when minimizing; every utility is
   * better than it.
   */
  function Worst(maximizing: bool): int {
    if maximizing then -2 else 2
  }

  /**
   * The best of `vals`, folded from the left starting at `Worst`: the
   * largest when maximizing, the smallest otherwise.
   */
  function Best(vals: seq<int>, maximizing: bool): int {
    if vals == [] then Worst(maximizing)
    else
      var n := |vals| - 1;
      Better(vals[n], Best(vals[..n], maximizing), maximizing)
  }

  /** Every value is at most the largest (maximizing) or at least the smallest. */
  lemma {:induction false} BestBounds(vals: seq<int>, maximizing: bool)
    ensures forall k | 0 <= k < |vals| ::
      if maximizing then vals[k] <= Best(vals, maximizing) else Best(vals, maximizing) <= vals[k]
  {
    if vals != [] {
      var n := |vals| - 1;
      BestBounds(vals[..n], maximizing);
      assert forall k | 0 <= k < n :: vals[..n][k] == vals[k];
    }
  }

  /** Among utilities, the best of a non-empty list is one of its elements. */
  lemma {:induction false} BestAttained(vals: seq<int>, maximizing: bool)
    requires vals != []
    requires forall k | 0 <= k < |vals| :: -1 <= vals[k] <= 1
    ensures exists k | 0 <= k < |vals| :: Best(vals, maximizing) == vals[k]
  {
    var n := |vals| - 1;
    if n > 0 {
      assert forall k | 0 <= k < n :: vals[..n][k] == vals[k];
      BestAttained(vals[..n], maximizing);
      var k :| 0 <= k < n && Best(vals[..n], maximizing) == vals[..n][k];
      assert vals[..n][k] == vals[k];
      if Best(vals, maximizing) != vals[n] {
        assert Best(vals, maximizing) == vals[k];
      }
    } else {
      assert vals[..0] == [];
      assert Best(vals, maximizing) == vals[0];
    }
  }

  /** Looking at one more value: the best so far is compared with it. */
  lemma BestExtend(vals: seq<int>, n: nat, maximizing: bool)
    requires n < |vals|
    ensures Best(vals[..n + 1], maximizing) == Better(vals[n], Best(vals[..n], maximizing), maximizing)
  {
    assert vals[..n + 1][..n] == vals[..n];
  }

  /**
   * Stopping early is sound: among utilities, once a prefix reaches the
   * best possible value (1 when maximizing, -1 otherwise) the values after
   * it cannot change the result.
   */
  lemma EarlyStop(vals: seq<int>, n: nat, maximizing: bool)
    requires 0 < n <= |vals|
    requires forall k | 0 <= k < |vals| :: -1 <= vals[k] <= 1
    requires Best(vals[..n], maximizing) == (if maximizing then 1 else -1)
    ensures Best(vals, maximizing) == (if maximizing then 1 else -1)
  {
    assert forall k | 0 <= k < n :: vals[..n][k] == vals[k];
    BestAttained(vals[..n], maximizing);
    BestAttained(vals, maximizing);
    BestBounds(vals, maximizing);
  }

  // ---------------------------------------------------------------------
  // The minimax value of a position
  // ---------------------------------------------------------------------

  /**
   * The minimax value of `b` when the maximizing side (which X's score
   * favours) chooses the next move if `maximizing`, else the minimizing
   * side; the sides alternate at every ply, as in the search.
   */
  function Value(b: Board, maximizing: bool): (v: int)
    ensures -1 <= v <= 1
    decreases Count(b, Empty), 1
  {
    if Terminal(b) then Utility(b)
    else
      ActionsAllEmpty(b);
      var vals := ChildValues(b, Actions(b), !maximizing);
      BestAttained(vals, maximizing);
      Best(vals, maximizing)
  }

  /** The values of the boards that the moves `acts` lead to, in the same order. */
  function ChildValues(b: Board, acts: seq<Move>, maximizing: bool): (vals: seq<int>)
    requires AllEmpty(b, acts)
    ensures |vals| == |acts|
    ensures forall k | 0 <= k < |vals| :: -1 <= vals[k] <= 1
    decreases Count(b, Empty), 0, |acts|
  {
    if acts == [] then []
    else
      assert AllEmpty(b, acts[1..]) by {
        forall k | 0 <= k < |acts| - 1 ensures At(b, acts[1..][k]) == Empty {
          assert acts[1..][k] == acts[k + 1];
        }
      }
      [Value(Play(b, acts[0]), maximizing)] + ChildValues(b, acts[1..], maximizing)
  }

  /** The k-th child value is the value of the board after the k-th move. */
  lemma {:induction false} ChildValuesAt(b: Board, acts: seq<Move>, maximizing: bool, k: nat)
    requires AllEmpty(b, acts) && k < |acts|
    ensures ChildValues(b, acts, maximizing)[k] == Value(Play(b, acts[k]), maximizing)
    decreases k
  {
    if k > 0 {
      assert AllEmpty(b, acts[1..]) by {
        forall i | 0 <= i < |acts| - 1 ensures At(b, acts[1..][i]) == Empty {
          assert acts[1..][i] == acts[i + 1];
        }
      }
      ChildValuesAt(b, acts[1..], maximizing, k - 1);
    }
  }

  /**
   * The textbook minimax value, in which the side to choose is read off
   * the board at every position: X maximizes, O minimizes.
   */
  function GameValue(b: Board): (v: int)
    ensures -1 <= v <= 1
    decreases Count(b, Empty), 1
  {
    if Terminal(b) then Utility(b)
    else
      ActionsAllEmpty(b);
      var vals := GameChildValues(b, Actions(b));
      BestAttained(vals, Player(b) == X);
      Best(vals, Player(b) == X)
  }

  /** The game values of the boards that the moves `acts` lead to, in the same order. */
  function GameChildValues(b: Board, acts: seq<Move>): (vals: seq<int>)
    requires AllEmpty(b, acts)
    ensures |vals| == |acts|
    ensures forall k | 0 <= k < |vals| :: -1 <= vals[k] <= 1
    decreases Count(b, Empty), 0, |acts|
  {
    if acts == [] then []
    else
      assert AllEmpty(b, acts[1..]) by {
        forall k | 0 <= k < |acts| - 1 ensures At(b, acts[1..][k]) == Empty {
          assert acts[1..][k] == acts[k + 1];
        }
      }
      [GameValue(Play(b, acts[0]))] + GameChildValues(b, acts[1..])
  }

  /**
   * On a board that alternate play can reach, letting the two sides
   * alternate (as the search does) and asking the board whose turn it is
   * give the same value.
   */
  lemma {:induction false} ValueIsGameValue(b: Board)
    requires Balanced(b)
    ensures Value(b, Player(b) == X) == GameValue(b)
    decreases Count(b, Empty), 1
  {
    if !Terminal(b) {
      ActionsAllEmpty(b);
      ChildValuesAreGameValues(b, Actions(b));
    }
  }

  lemma {:induction false} ChildValuesAreGameValues(b: Board, acts: seq<Move>)
    requires Balanced(b) && AllEmpty(b, acts)
    ensures ChildValues(b, acts, Player(b) != X) == GameChildValues(b, acts)
    decreases Count(b, Empty), 0, |acts|
  {
    if acts != [] {
      PlayAlternates(b, acts[0]);
      ValueIsGameValue(Play(b, acts[0]));
      assert AllEmpty(b, acts[1..]) by {
        forall k | 0 <= k < |acts| - 1 ensures At(b, acts[1..][k]) == Empty {
          assert acts[1..][k] == acts[k + 1];
        }
      }
      ChildValuesAreGameValues(b, acts[1..]);
    }
  }

  /** `m` is a move of `b` that attains its minimax value for the side to choose. */
  predicate Optimal(b: Board, m: Move, maximizing: bool)
    requires At(b, m) == Empty
  {
    && Value(Play(b, m), !maximizing) == Value(b, maximizing)
    && forall a | a in Actions(b) ::
         if maximizing then Value(Play(b, a), !maximizing) <= Value(Play(b, m), !maximizing)
         else Value(Play(b, m), !maximizing) <= Value(Play(b, a), !maximizing)
  }

  /** On a board still in play, a move attaining the value is as good as any other move. */
  lemma AttainingIsOptimal(b: Board, m: Move, maximizing: bool)
    requires !Terminal(b) && At(b, m) == Empty
    requires Value(Play(b, m), !maximizing) == Value(b, maximizing)
    ensures Optimal(b, m, maximizing)
  {
    ActionsAllEmpty(b);
    var acts := Actions(b);
    var vals := ChildValues(b, acts, !maximizing);
    BestBounds(vals, maximizing);
    forall a | a in acts
      ensures if maximizing then Value(Play(b, a), !maximizing) <= Value(Play(b, m), !maximizing)
              else Value(Play(b, m), !maximizing) <= Value(Play(b, a), !maximizing)
    {
      var k :| 0 <= k < |acts| && acts[k] == a;
      ChildValuesAt(b, acts, !maximizing, k);
      assert Value(b, maximizing) == Best(vals, maximizing);
    }
  }

  /**
   * The search for the maximizing side (max_value): on a terminal board
   * its utility and no move; otherwise the minimax value and a move that
   * attains it. -2 stands for minus infinity.
   */
  method MaxValue(state: Board) returns (v: int, bestMove: Option<Move>)
    ensures v == Value(state, true)
    ensures bestMove.None? <==> Terminal(state)
    ensures bestMove.Some? ==> (bestMove.value in Actions(state)
                                && Value(Play(state, bestMove.value), false) == v)
    decreases Count(state, Empty)
  {
    if Terminal(state) {
      return Utility(state), None;
    }
    v := -2;
    bestMove := None;
    var acts := Actions(state);
    ActionsAllEmpty(state);
    ghost var vals := ChildValues(state, acts, false);
    assert |vals| > 0;
    var k := 0;
    ghost var best := 0;
    while k < |acts|
      invariant 0 <= k <= |acts|
      invariant v == Best(vals[..k], true)
      invariant k == 0 ==> bestMove.None?
      invariant k > 0 ==> 0 <= best < k && bestMove == Some(acts[best]) && vals[best] == v
    {
      var action := acts[k];
      var next := Result(state, action);
      assert next.board == Play(state, action);
      var minV, _ := MinValue(next.board);
      ChildValuesAt(state, acts, false, k);
      BestExtend(vals, k, true);
      if minV > v {
        v := minV;
        bestMove := Some(action);
        best := k;
        if v == 1 {
          EarlyStop(vals, k + 1, true);
          break;
        }
      }
      k := k + 1;
    }
    if k == |acts| {
      assert k > 0 && vals[..k] == vals;
    }
    assert v == Best(vals, true) == Value(state, true);
    ChildValuesAt(state, acts, false, best);
  }

  /**
   * The search for the minimizing side (min_value), symmetric to
   * `MaxValue`. 2 stands for plus infinity.
   */
  method MinValue(state: Board) returns (v: int, bestMove: Option<Move>)
    ensures v == Value(state, false)
    ensures bestMove.None? <==> Terminal(state)
    ensures bestMove.Some? ==> (bestMove.value in Actions(state)
                                && Value(Play(state, bestMove.value), true) == v)
    decreases Count(state, Empty)
  {
    if Terminal(state) {
      return Utility(state), None;
    }
    v := 2;
    bestMove := None;
    var acts := Actions(state);
    ActionsAllEmpty(state);
    ghost var vals := ChildValues(state, acts, true);
    assert |vals| > 0;
    var k := 0;
    ghost var best := 0;
    while k < |acts|
      invariant 0 <= k <= |acts|
      invariant v == Best(vals[..k], false)
      invariant k == 0 ==> bestMove.None?
      invariant k > 0 ==> 0 <= best < k && bestMove == Some(acts[best]) && vals[best] == v
    {
      var action := acts[k];
      var next := Result(state, action);
      assert next.board == Play(state, action);
      var maxV, _ := MaxValue(next.board);
      ChildValuesAt(state, acts, true, k);
      BestExtend(vals, k, false);
      if maxV < v {
        v := maxV;
        bestMove := Some(action);
        best := k;
        if v == -1 {
          EarlyStop(vals, k + 1, false);
          break;
        }
      }
      k := k + 1;
    }
    if k == |acts| {
      assert k > 0 && vals[..k] == vals;
    }
    assert v == Best(vals, false) == Value(state, false);
    ChildValuesAt(state, acts, true, best);
  }

  /**
   * The optimal action for the player to move: None on a terminal board,
   * otherwise a legal move that is optimal for that player (X maximizes,
   * O minimizes).
   */
  method Minimax(board: Board) returns (action: Option<Move>)
    ensures action.None? <==> Terminal(board)
    ensures action.Some? ==> (action.value in Actions(board)
                              && Optimal(board, action.value, Player(board) == X)
                              && (Balanced(board) ==>
                                    GameValue(Play(board, action.value)) == GameValue(board)))
  {
    if Terminal(board) {
      return None;
    }
    var turn := Player(board);
    if turn == X {
      var _, move := MaxValue(board);
      action := move;
    } else {
      var _, move := MinValue(board);
      action := move;
    }
    AttainingIsOptimal(board, action.value, turn == X);
    if Balanced(board) {
      ValueIsGameValue(board);
      PlayAlternates(board, action.value);
      ValueIsGameValue(Play(board, action.value));
    }
  }

  /**
   * X to move with two in the top row; O holds two in the middle row. The
   * O marks are what makes it X's turn: with X on (0, 0) and (0, 1) and no
   * O mark at all, the counting rule gives O the move.
   */
  const TwoInARow: Board := [[Marked(X), Marked(X), Empty],
                             [Marked(O), Marked(O), Empty],
                             [Empty, Empty, Empty]]

  /** The position is still open, X is to move and the top-right cell is the first action. */
  lemma TwoInARowOpen()
    ensures Player(TwoInARow) == X && !Terminal(TwoInARow)
    ensures Actions(TwoInARow) != [] && Actions(TwoInARow)[0] == (0, 2)
  {
    var b := TwoInARow;
    assert Count(b, Marked(X)) == 2 && Count(b, Marked(O)) == 2;
    assert WinnerFrom(b, 3) == None;
    assert WinnerFrom(b, 2) == None;
    assert WinnerFrom(b, 1) == None;
    assert Actions(b)[0] == (0, 2);
  }

  /** Completing the top row ends the game with X the winner. */
  lemma TwoInARowCompleted()
    ensures Value(Play(TwoInARow, (0, 2)), false) == 1
  {
    var won := Play(TwoInARow, (0, 2));
    assert Three(won, RowLine(0)) == Some(X);
  }

  /**
   * Completing the row wins at once, so the position is worth 1 and that
   * move is optimal.
   */
  lemma ImmediateWin()
    ensures Player(TwoInARow) == X && Value(TwoInARow, true) == 1
    ensures Optimal(TwoInARow, (0, 2), true)
  {
    var b := TwoInARow;
    TwoInARowOpen();
    TwoInARowCompleted();
    ActionsAllEmpty(b);
    var acts := Actions(b);
    var vals := ChildValues(b, acts, false);
    ChildValuesAt(b, acts, false, 0);
    BestBounds(vals, true);
    assert Value(b, true) == Best(vals, true);
    AttainingIsOptimal(b, (0, 2), true);
  }
}
