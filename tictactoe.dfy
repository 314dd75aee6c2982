/**
 * Rules of 3x3 Tic-Tac-Toe: the board, whose turn it is, the legal moves,
 * the successor board, the winner, terminal positions and their utility.
 *
 * A board is an immutable value; a move produces a new board and never
 * changes the one it was made on.
 */
module TicTacToe {

  datatype Option<T> = None | Some(value: T)

  /** The two players' marks. X always moves first. */
  datatype Mark = X | O

  /** A cell holds a mark or is empty. */
  datatype Cell = Empty | Marked(mark: Mark)

  predicate IsGrid(g: seq<seq<Cell>>) {
    |g| == 3 && forall i | 0 <= i < 3 :: |g[i]| == 3
  }

  /** Three rows of three cells each. */
  type Board = g: seq<seq<Cell>> | IsGrid(g)
    witness [[Empty, Empty, Empty], [Empty, Empty, Empty], [Empty, Empty, Empty]]

  /** A row or column index. */
  type Coord = i: int | 0 <= i < 3

  /** A move (row, column). */
  type Move = (Coord, Coord)

  function At(b: Board, m: Move): Cell {
    b[m.0][m.1]
  }

  function Other(m: Mark): Mark {
    if m == X then O else X
  }

  /** Position of a move in row-major order, 0 .. 8. */
  function Index(m: Move): int {
    3 * m.0 + m.1
  }

  // ---------------------------------------------------------------------
  // Counting marks
  // ---------------------------------------------------------------------

  /** How many times `c` occurs in one row. */
  function Occurrences(s: seq<Cell>, c: Cell): nat {
    if s == [] then 0
    else (if s[0] == c then 1 else 0) + Occurrences(s[1..], c)
  }

  /** How many times `c` occurs in a sequence of rows, summed row by row. */
  function CountRows(rows: seq<seq<Cell>>, c: Cell): nat {
    if rows == [] then 0
    else Occurrences(rows[0], c) + CountRows(rows[1..], c)
  }

  /** How many cells of the board hold `c`. */
  function Count(b: Board, c: Cell): nat {
    CountRows(b, c)
  }

  lemma {:induction false} OccurrencesUpdate(s: seq<Cell>, j: nat, v: Cell, c: Cell)
    requires j < |s|
    ensures Occurrences(s[j := v], c)
         == Occurrences(s, c) - (if s[j] == c then 1 else 0) + (if v == c then 1 else 0)
  {
    if j == 0 {
      assert s[j := v][1..] == s[1..];
    } else {
      assert s[j := v][1..] == s[1..][j - 1 := v];
      OccurrencesUpdate(s[1..], j - 1, v, c);
    }
  }

  lemma {:induction false} CountRowsUpdate(rows: seq<seq<Cell>>, i: nat, row: seq<Cell>, c: Cell)
    requires i < |rows|
    ensures CountRows(rows[i := row], c)
         == CountRows(rows, c) - Occurrences(rows[i], c) + Occurrences(row, c)
  {
    if i == 0 {
      assert rows[i := row][1..] == rows[1..];
    } else {
      assert rows[i := row][1..] == rows[1..][i - 1 := row];
      CountRowsUpdate(rows[1..], i - 1, row, c);
    }
  }

  // ---------------------------------------------------------------------
  // initial_state, player
  // ---------------------------------------------------------------------

  /** The starting board: every cell empty. */
  function InitialState(): (b: Board)
    ensures forall m: Move :: At(b, m) == Empty
  {
    [[Empty, Empty, Empty], [Empty, Empty, Empty], [Empty, Empty, Empty]]
  }

  /**
   * The player to move: X when X and O have placed equally many marks,
   * O otherwise. Nothing else about the board is consulted.
   */
  function Player(b: Board): Mark {
    if Count(b, Marked(X)) == Count(b, Marked(O)) then X else O
  }

  /**
   * A board that can arise from alternate play: X has as many marks as O,
   * or one more. The rules never check this. It holds of the starting
   * board and every move keeps it (`InitialStateFacts`, `PlayAlternates`);
   * it is the hypothesis of the lemmas that relate the turn rule to
   * alternate play and of one clause of `Minimax`'s postcondition.
   */
  predicate Balanced(b: Board) {
    Count(b, Marked(X)) == Count(b, Marked(O)) || Count(b, Marked(X)) == Count(b, Marked(O)) + 1
  }

  /** On a board alternate play can reach, O is to move exactly when X is one mark ahead. */
  lemma PlayerOnBalanced(b: Board)
    requires Balanced(b)
    ensures Player(b) == O <==> Count(b, Marked(X)) == Count(b, Marked(O)) + 1
  {
  }

  /** On the empty board it is X's turn, nine moves are open and the game is on. */
  lemma InitialStateFacts()
    ensures Player(InitialState()) == X
    ensures Balanced(InitialState())
    ensures Count(InitialState(), Empty) == 9
    ensures |Actions(InitialState())| == 9
    ensures !Terminal(InitialState())
  {
    var b := InitialState();
    assert Count(b, Marked(X)) == 0 && Count(b, Marked(O)) == 0 && Count(b, Empty) == 9;
    assert Winner(b) == None;
  }

  // ---------------------------------------------------------------------
  // actions
  // ---------------------------------------------------------------------

  /** Moves are listed in strictly increasing row-major order. */
  predicate RowMajor(ms: seq<Move>) {
    forall p, q | 0 <= p < q < |ms| :: Index(ms[p]) < Index(ms[q])
  }

  /** Joining two row-major lists, the first wholly before the second, keeps row-major order. */
  lemma RowMajorAppend(a: seq<Move>, c: seq<Move>)
    requires RowMajor(a) && RowMajor(c)
    requires forall p, q | 0 <= p < |a| && 0 <= q < |c| :: Index(a[p]) < Index(c[q])
    ensures RowMajor(a + c)
  {
    forall p, q | 0 <= p < q < |a + c| ensures Index((a + c)[p]) < Index((a + c)[q]) {
      if q < |a| {
      } else if p < |a| {
        assert Index(a[p]) < Index(c[q - |a|]);
      } else {
        assert Index(c[p - |a|]) < Index(c[q - |a|]);
      }
    }
  }

  /** The empty cells (i, j') of row i with j <= j', left to right. */
  function RowActions(b: Board, i: Coord, j: nat): seq<Move>
    requires j <= 3
    decreases |b[i]| - j
  {
    if j == 3 then []
    else (if b[i][j] == Empty then [(i, j)] else []) + RowActions(b, i, j + 1)
  }

  lemma {:induction false} RowActionsMembers(b: Board, i: Coord, j: nat)
    requires j <= 3
    ensures forall m {:trigger m in RowActions(b, i, j)} ::
      m in RowActions(b, i, j) <==> m.0 == i && j <= m.1 && At(b, m) == Empty
    decreases 3 - j
  {
    if j < 3 {
      RowActionsMembers(b, i, j + 1);
    }
  }

  lemma {:induction false} RowActionsLength(b: Board, i: Coord, j: nat)
    requires j <= 3
    ensures |RowActions(b, i, j)| == Occurrences(b[i][j..], Empty)
    decreases 3 - j
  {
    if j < 3 {
      RowActionsLength(b, i, j + 1);
      assert b[i][j..][1..] == b[i][j + 1..];
    }
  }

  lemma {:induction false} RowActionsRowMajor(b: Board, i: Coord, j: nat)
    requires j <= 3
    ensures forall k | 0 <= k < |RowActions(b, i, j)| ::
      RowActions(b, i, j)[k].0 == i && j <= RowActions(b, i, j)[k].1
    ensures RowMajor(RowActions(b, i, j))
    decreases 3 - j
  {
    if j < 3 {
      RowActionsRowMajor(b, i, j + 1);
      var here: seq<Move> := if b[i][j] == Empty then [(i, j)] else [];
      RowMajorAppend(here, RowActions(b, i, j + 1));
    }
  }

  /** The empty cells of rows i, i+1, ..., 2, in row-major order. */
  function ActionsFrom(b: Board, i: nat): seq<Move>
    requires i <= 3
    decreases |b| - i
  {
    if i == 3 then [] else RowActions(b, i, 0) + ActionsFrom(b, i + 1)
  }

  lemma {:induction false} ActionsFromMembers(b: Board, i: nat)
    requires i <= 3
    ensures forall m {:trigger m in ActionsFrom(b, i)} :: m in ActionsFrom(b, i) <==> i <= m.0 && At(b, m) == Empty
    decreases 3 - i
  {
    if i < 3 {
      RowActionsMembers(b, i, 0);
      ActionsFromMembers(b, i + 1);
    }
  }

  lemma {:induction false} ActionsFromRowMajor(b: Board, i: nat)
    requires i <= 3
    ensures forall k | 0 <= k < |ActionsFrom(b, i)| :: i <= ActionsFrom(b, i)[k].0
    ensures RowMajor(ActionsFrom(b, i))
    decreases 3 - i
  {
    if i < 3 {
      ActionsFromRowMajor(b, i + 1);
      RowActionsRowMajor(b, i, 0);
      RowMajorAppend(RowActions(b, i, 0), ActionsFrom(b, i + 1));
    }
  }

  lemma {:induction false} ActionsFromLength(b: Board, i: nat)
    requires i <= 3
    ensures |ActionsFrom(b, i)| == CountRows(b[i..], Empty)
    decreases 3 - i
  {
    if i < 3 {
      ActionsFromLength(b, i + 1);
      RowActionsLength(b, i, 0);
      assert b[i..][1..] == b[i + 1..];
      assert b[i][0..] == b[i];
    }
  }

  /** Every cell holds a mark. */
  predicate Full(b: Board) {
    forall i, j | 0 <= i < 3 && 0 <= j < 3 :: b[i][j] != Empty
  }

  /** A list of exactly the empty cells is empty just when the board is full. */
  lemma FullIffNone(b: Board, r: seq<Move>)
    requires forall m {:trigger m in r} :: m in r <==> At(b, m) == Empty
    ensures r == [] <==> Full(b)
  {
    if r != [] {
      assert r[0] in r;
    }
    if !Full(b) {
      var i, j :| 0 <= i < 3 && 0 <= j < 3 && b[i][j] == Empty;
      assert At(b, (i, j)) == Empty;
      assert (i, j) in r;
    }
  }

  /**
   * The legal moves: every empty cell, in row-major order, each once.
   * Only occupancy counts; a won board may still have actions.
   */
  function Actions(b: Board): (r: seq<Move>)
    ensures forall m {:trigger m in r} :: m in r <==> At(b, m) == Empty
    ensures |r| == Count(b, Empty)
    ensures r == [] <==> Full(b)
  {
    var r := ActionsFrom(b, 0);
    ActionsFromMembers(b, 0);
    ActionsFromLength(b, 0);
    assert b[0..] == b;
    FullIffNone(b, r);
    r
  }

  /**
   * The actions come in row-major order, so no move is listed twice and
   * the order the search tries them in is fixed.
   */
  lemma ActionsRowMajor(b: Board)
    ensures RowMajor(Actions(b))
  {
    ActionsFromRowMajor(b, 0);
  }

  // ---------------------------------------------------------------------
  // result
  // ---------------------------------------------------------------------

  /** The successor of `b` after the player to move marks the empty cell `m`. */
  function Play(b: Board, m: Move): (r: Board)
    requires At(b, m) == Empty
    ensures At(r, m) == Marked(Player(b))
    ensures Count(r, Empty) == Count(b, Empty) - 1
  {
    var row := b[m.0][m.1 := Marked(Player(b))];
    OccurrencesUpdate(b[m.0], m.1, Marked(Player(b)), Empty);
    CountRowsUpdate(b, m.0, row, Empty);
    b[m.0 := row]
  }

  /** A move changes its target cell only. */
  lemma PlayChangesOnlyTarget(b: Board, m: Move)
    requires At(b, m) == Empty
    ensures forall n: Move | n != m :: At(Play(b, m), n) == At(b, n)
  {
  }

  /** How a move changes the mark counts: one more for the mover, none for the other. */
  lemma PlayCounts(b: Board, m: Move)
    requires At(b, m) == Empty
    ensures Count(Play(b, m), Marked(Player(b))) == Count(b, Marked(Player(b))) + 1
    ensures Count(Play(b, m), Marked(Other(Player(b)))) == Count(b, Marked(Other(Player(b))))
  {
    var p := Player(b);
    var row := b[m.0][m.1 := Marked(p)];
    assert Play(b, m) == b[m.0 := row];
    OccurrencesUpdate(b[m.0], m.1, Marked(p), Marked(p));
    CountRowsUpdate(b, m.0, row, Marked(p));
    OccurrencesUpdate(b[m.0], m.1, Marked(p), Marked(Other(p)));
    CountRowsUpdate(b, m.0, row, Marked(Other(p)));
  }

  /** Alternate play keeps a board balanced, and the turn passes to the other player. */
  lemma PlayAlternates(b: Board, m: Move)
    requires Balanced(b) && At(b, m) == Empty
    ensures Balanced(Play(b, m))
    ensures Player(Play(b, m)) == Other(Player(b))
  {
    PlayCounts(b, m);
  }

  datatype Outcome = Ok(board: Board) | InvalidAction

  /**
   * The board after `action`: fails when the cell is already occupied,
   * otherwise a copy of `board` whose target cell holds the mover's mark.
   * `board` itself is a value and cannot be changed by the update.
   */
  method Result(board: Board, action: Move) returns (r: Outcome)
    ensures r.InvalidAction? <==> At(board, action) != Empty
    ensures r.Ok? ==> r.board == Play(board, action)
  {
    var (i, j) := action;
    if board[i][j] != Empty {
      return InvalidAction;
    }
    var newBoard := board;
    newBoard := newBoard[i := newBoard[i][j := Marked(Player(board))]];
    return Ok(newBoard);
  }

  // ---------------------------------------------------------------------
  // winner
  // ---------------------------------------------------------------------

  /** Three cells of the board. */
  datatype Line = Line(p: Move, q: Move, r: Move)

  function RowLine(i: Coord): Line { Line((i, 0), (i, 1), (i, 2)) }
  function ColLine(i: Coord): Line { Line((0, i), (1, i), (2, i)) }
  const MainDiagonal: Line := Line((0, 0), (1, 1), (2, 2))
  const AntiDiagonal: Line := Line((0, 2), (1, 1), (2, 0))

  /** Mark `m` fills line `l`. */
  predicate Owns(b: Board, l: Line, m: Mark) {
    At(b, l.p) == Marked(m) && At(b, l.q) == Marked(m) && At(b, l.r) == Marked(m)
  }

  /** Some row, column or diagonal holds three copies of `m`. */
  predicate HasLine(b: Board, m: Mark) {
    || Owns(b, RowLine(0), m) || Owns(b, RowLine(1), m) || Owns(b, RowLine(2), m)
    || Owns(b, ColLine(0), m) || Owns(b, ColLine(1), m) || Owns(b, ColLine(2), m)
    || Owns(b, MainDiagonal, m) || Owns(b, AntiDiagonal, m)
  }

  /** Nobody owns line `l`. */
  predicate Unowned(b: Board, l: Line) {
    !Owns(b, l, X) && !Owns(b, l, O)
  }

  /** The common mark of three equal, non-empty cells, if they are. */
  function Three(b: Board, l: Line): Option<Mark> {
    if At(b, l.p) == At(b, l.q) && At(b, l.q) == At(b, l.r) && At(b, l.r) != Empty
    then Some(At(b, l.p).mark)
    else None
  }

  /** A line yields a mark only if that mark fills it, and nothing just when nobody does. */
  lemma ThreeSpec(b: Board, l: Line)
    ensures Three(b, l).Some? ==> Owns(b, l, Three(b, l).value)
    ensures Three(b, l).None? <==> Unowned(b, l)
  {
    if Three(b, l).Some? {
      var m := At(b, l.p).mark;
      assert Owns(b, l, m) && Owns(b, l, m) != Owns(b, l, Other(m));
    }
  }

  /**
   * The check of the winner from index i on: row i, then column i, then
   * the same for i + 1, and finally the two diagonals; the first
   * complete line decides.
   */
  function WinnerFrom(b: Board, i: nat): Option<Mark>
    requires i <= 3
    decreases |b| - i
  {
    if i < 3 then
      if Three(b, RowLine(i)).Some? then Three(b, RowLine(i))
      else if Three(b, ColLine(i)).Some? then Three(b, ColLine(i))
      else WinnerFrom(b, i + 1)
    else
      if Three(b, MainDiagonal).Some? then Three(b, MainDiagonal)
      else if Three(b, AntiDiagonal).Some? then Three(b, AntiDiagonal)
      else None
  }

  /**
   * The check from index i on reports only a filled line, and reports
   * nothing exactly when no row or column from i on and neither diagonal
   * is filled.
   */
  lemma {:induction false} WinnerFromSpec(b: Board, i: nat)
    requires i <= 3
    ensures WinnerFrom(b, i).Some? ==> HasLine(b, WinnerFrom(b, i).value)
    ensures WinnerFrom(b, i).None? <==>
      (forall k: Coord | i <= k :: Unowned(b, RowLine(k)) && Unowned(b, ColLine(k)))
      && Unowned(b, MainDiagonal) && Unowned(b, AntiDiagonal)
    decreases 3 - i
  {
    ThreeSpec(b, MainDiagonal);
    ThreeSpec(b, AntiDiagonal);
    if i < 3 {
      ThreeSpec(b, RowLine(i));
      ThreeSpec(b, ColLine(i));
      WinnerFromSpec(b, i + 1);
    }
  }

  /** The winner: the first filled line in the order rows and columns by index, then the diagonals. */
  function Winner(b: Board): Option<Mark> {
    WinnerFrom(b, 0)
  }

  /**
   * The winner is a mark only if it fills some line; None exactly when no
   * line is filled; when just one mark fills a line, that mark.
   */
  lemma WinnerSpec(b: Board)
    ensures Winner(b).Some? ==> HasLine(b, Winner(b).value)
    ensures Winner(b).None? <==> !HasLine(b, X) && !HasLine(b, O)
    ensures forall m: Mark :: HasLine(b, m) && !HasLine(b, Other(m)) ==> Winner(b) == Some(m)
  {
    WinnerFromSpec(b, 0);
  }

  // ---------------------------------------------------------------------
  // terminal, utility
  // ---------------------------------------------------------------------

  /** The game is over: someone has won, or no cell is empty. */
  function Terminal(b: Board): bool {
    Winner(b).Some? || Full(b)
  }

  /**
   * Equivalently, some mark fills a line or there is no action left; so a
   * board that is not over has a legal move.
   */
  lemma TerminalSpec(b: Board)
    ensures Terminal(b) <==> HasLine(b, X) || HasLine(b, O) || Actions(b) == []
  {
    WinnerSpec(b);
  }

  /** The score of a board from X's point of view. */
  function Utility(b: Board): (u: int)
    ensures -1 <= u <= 1
  {
    var win := Winner(b);
    if win == Some(X) then 1
    else if win == Some(O) then -1
    else 0
  }

  /** 1 when X is the winner, -1 when O is, 0 when no line is filled. */
  lemma UtilitySpec(b: Board)
    ensures Utility(b) == 1 <==> Winner(b) == Some(X)
    ensures Utility(b) == -1 <==> Winner(b) == Some(O)
    ensures Utility(b) == 0 <==> !HasLine(b, X) && !HasLine(b, O)
  {
    WinnerSpec(b);
  }

  // ---------------------------------------------------------------------
  // Two finished games
  // ---------------------------------------------------------------------

  /**
   * X has completed the top row: X is the winner, the game is over and
   * scores 1, yet the four empty cells are still listed as actions.
   */
  lemma WonGameStillHasActions()
    ensures var b: Board := [[Marked(X), Marked(X), Marked(X)],
                             [Empty, Marked(O), Empty],
                             [Marked(O), Empty, Empty]];
      && Winner(b) == Some(X) && Terminal(b) && Utility(b) == 1
      && Actions(b) == [(1, 0), (1, 2), (2, 1), (2, 2)]
  {
    var b: Board := [[Marked(X), Marked(X), Marked(X)],
                     [Empty, Marked(O), Empty],
                     [Marked(O), Empty, Empty]];
    assert Three(b, RowLine(0)) == Some(X);
    assert ActionsFrom(b, 2) == [(2, 1), (2, 2)];
    assert ActionsFrom(b, 1) == [(1, 0), (1, 2), (2, 1), (2, 2)];
  }

  /** A full board without a filled line: a draw with no actions left. */
  lemma DrawnGame()
    ensures var b: Board := [[Marked(X), Marked(O), Marked(X)],
                             [Marked(X), Marked(O), Marked(O)],
                             [Marked(O), Marked(X), Marked(X)]];
      && Winner(b) == None && Terminal(b) && Utility(b) == 0 && Actions(b) == []
  {
    var b: Board := [[Marked(X), Marked(O), Marked(X)],
                     [Marked(X), Marked(O), Marked(O)],
                     [Marked(O), Marked(X), Marked(X)]];
    assert WinnerFrom(b, 3) == None;
    assert WinnerFrom(b, 2) == None;
    assert WinnerFrom(b, 1) == None;
  }

  /**
   * X holds (0, 0) and (1, 1) but O holds (2, 2), so the main diagonal is
   * not filled and nobody has won; two cells are still free.
   */
  lemma BrokenDiagonal()
    ensures var b: Board := [[Marked(X), Marked(O), Marked(X)],
                             [Marked(O), Marked(X), Marked(O)],
                             [Empty, Empty, Marked(O)]];
      && !Owns(b, MainDiagonal, X) && Winner(b) == None && !Terminal(b)
      && Actions(b) == [(2, 0), (2, 1)]
  {
    var b: Board := [[Marked(X), Marked(O), Marked(X)],
                     [Marked(O), Marked(X), Marked(O)],
                     [Empty, Empty, Marked(O)]];
    assert WinnerFrom(b, 3) == None;
    assert WinnerFrom(b, 2) == None;
    assert WinnerFrom(b, 1) == None;
    assert ActionsFrom(b, 2) == [(2, 0), (2, 1)];
  }
}
