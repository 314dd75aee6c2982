# Tic-Tac-Toe player: a verified model

This project models the game engine of a small Tic-Tac-Toe player. The engine consists of:

- the board as a 3x3 grid of cells that are empty or hold X or O;
- the rule for whose turn it is;
- the set of legal moves;
- the successor board after a move, which rejects an occupied cell;
- the winner check;
- terminal positions and their utility (1, -1 or 0);
- the minimax search that chooses the move for the player to move.

That search is two mutually recursive loops, `max_value` and `min_value`. Each stops early once it has seen the best value possible for its side.

There are two modules:

- `TicTacToe` (`tictactoe.dfy`) holds the rules. A board is a `seq<seq<Cell>>` constrained to 3x3. Moves are pairs of coordinates in 0..2. Every rule is a function, and lemmas state what each rule means.
  - `Result` is a method. It returns an `Outcome` (either `Ok(board)` or `InvalidAction`) and is proved equal to the pure successor `Play`.
  - `Winner` is written as the source's scan: row i, then column i, for i = 0, 1, 2, then the two diagonals. It is proved against the independent predicate `HasLine`.
- `Minimax` (`minimax.dfy`) holds the search. `MaxValue` and `MinValue` are methods that keep the source's loop over the actions (a `for` there, an indexed `while` here), its strict comparisons and its early `break`. They are proved against these specification functions:
  - `Value(b, maximizing)` is the plain minimax value, with the two sides alternating at each ply as in the search and no cut-offs.
  - `Best` is the left fold over child values that starts from the sentinel ∓infinity.
  - `EarlyStop` shows that the `break` does not change the result.
  - `GameValue` is the textbook minimax value, where X maximizes and O minimizes by reading the player off the board. `ValueIsGameValue` proves the two values agree on every board that alternate play can reach.
  - `Minimax` is proved to return `None` exactly on terminal boards. Otherwise it returns a legal move that is optimal for the player to move.

## Model

| member | source | states |
|---|---|---|
| TicTacToe.InitialState | tictactoe.py:12-18 | every cell of the starting board is empty |
| TicTacToe.InitialStateFacts | tictactoe.py:12-35 | on the starting board X is to move, all nine cells are empty, there are nine actions and the game is not over |
| TicTacToe.Player | tictactoe.py:21-28 | the turn rule itself (X when both have equally many marks, O otherwise); no contract of its own, its meaning is stated by the `PlayerOnBalanced` and `PlayAlternates` rows |
| TicTacToe.PlayerOnBalanced | tictactoe.py:21-28 | on a board where X has as many marks as O or one more, O is to move exactly when X is one mark ahead |
| TicTacToe.PlayAlternates | tictactoe.py:21-28 | after a move on such a board the board stays balanced and the player to move is the other one |
| TicTacToe.Actions | tictactoe.py:31-35 | a move is an action exactly when its cell is empty; the number of actions is the number of empty cells; there are none exactly when the board is full; occupancy is the only thing consulted |
| TicTacToe.ActionsRowMajor | tictactoe.py:31-35 | the actions come in strictly increasing row-major order, so each cell is listed at most once |
| TicTacToe.WonGameStillHasActions | tictactoe.py:31-35 | on a board X has already won, the four empty cells are still actions, and the board is terminal with winner X and utility 1 |
| TicTacToe.Play | tictactoe.py:47-50 | the target cell of the successor holds the mark of the player to move, and there is one empty cell fewer |
| TicTacToe.PlayChangesOnlyTarget | tictactoe.py:47-48 | a move changes no cell other than its target |
| TicTacToe.PlayCounts | tictactoe.py:47-48 | a move adds one mark of the player to move and leaves the other player's count unchanged |
| TicTacToe.Result | tictactoe.py:39-50 | fails with InvalidAction exactly when the target cell is occupied; otherwise returns the successor board `Play` |
| TicTacToe.ThreeSpec | tictactoe.py:59-68 | the three-equal-cells test yields a mark only if that mark fills the line, and yields nothing exactly when neither mark fills it |
| TicTacToe.WinnerFromSpec | tictactoe.py:58-70 | the scan from row/column i on reports only a mark that fills some line, and reports nothing exactly when no row or column from i on and neither diagonal is filled |
| TicTacToe.Winner | tictactoe.py:53-70 | the winner scan itself; no contract of its own, its meaning is stated by the `WinnerFromSpec` and `WinnerSpec` rows |
| TicTacToe.WinnerSpec | tictactoe.py:53-70 | the winner fills some line; it is None exactly when no line is filled by either mark; when only one mark fills a line, that mark is the winner |
| TicTacToe.BrokenDiagonal | tictactoe.py:53-83 | on [[X,O,X],[O,X,O],[_,_,O]] the main diagonal is not X's, there is no winner, the game is not over and (2,0), (2,1) are the actions |
| TicTacToe.Terminal | tictactoe.py:73-83 | the end-of-game test itself; no contract of its own, its meaning is stated by the `TerminalSpec` row |
| TicTacToe.TerminalSpec | tictactoe.py:73-83 | the board is terminal exactly when some mark fills a line or no action is left |
| TicTacToe.DrawnGame | tictactoe.py:73-96 | a full board with no filled line has no winner, is terminal, has utility 0 and no actions |
| TicTacToe.Utility | tictactoe.py:86-96 | the utility is -1, 0 or 1 |
| TicTacToe.UtilitySpec | tictactoe.py:86-96 | utility 1 exactly when X is the winner, -1 exactly when O is, 0 exactly when no line is filled |
| Minimax.BestBounds | tictactoe.py:114-120 | the best of a list bounds each of its values: none larger when maximizing, none smaller when minimizing |
| Minimax.BestAttained | tictactoe.py:114-134 | among utilities, the best of a non-empty list is one of its values (the infinite start value never survives) |
| Minimax.BestExtend | tictactoe.py:116-117 | one more loop step compares the next value with the best so far, keeping the larger (maximizing) or the smaller |
| Minimax.EarlyStop | tictactoe.py:119-120 | once a prefix of utilities reaches 1 (maximizing) or -1 (minimizing), the whole list has that best value, so the break is sound |
| Minimax.Value | tictactoe.py:109-135 | the minimax value is a utility, -1..1 |
| Minimax.ChildValues | tictactoe.py:114-115 | one value per action, each in -1..1 |
| Minimax.ChildValuesAt | tictactoe.py:114-115 | the k-th child value is the value of the board after the k-th action |
| Minimax.GameValue | tictactoe.py:100-141 | the textbook minimax value (X maximizes, O minimizes) is in -1..1 |
| Minimax.ValueIsGameValue | tictactoe.py:137-140 | on a board reachable by alternate play, the search's alternating value, started with the side of the player to move, equals the textbook value |
| Minimax.AttainingIsOptimal | tictactoe.py:114-121 | on a board still in play, a move whose successor has the board's value is at least as good as every action for the side choosing |
| Minimax.MaxValue | tictactoe.py:109-121 | returns the board's utility and no move on a terminal board; otherwise the maximizing minimax value and a legal move whose successor has that value, despite stopping at 1 |
| Minimax.MinValue | tictactoe.py:123-135 | returns the board's utility and no move on a terminal board; otherwise the minimizing minimax value and a legal move whose successor has that value, despite stopping at -1 |
| Minimax.Minimax | tictactoe.py:100-141 | None exactly on a terminal board; otherwise an action that is optimal for the player to move and, on a reachable board, keeps the textbook game value |
| Minimax.TwoInARowOpen | tictactoe.py:21-35 | with X on (0,0), (0,1) and O on (1,0), (1,1), X is to move, the game is not over and (0,2) is the first action |
| Minimax.TwoInARowCompleted | tictactoe.py:86-111 | completing the top row gives a board whose value is 1 |
| Minimax.ImmediateWin | tictactoe.py:109-121 | on that board the value for X is 1 and completing the top row at (0,2) is optimal |

## Left out

- Minimax.Minimax: the contract says that the move is legal and optimal, not which of several equally good moves is returned. The source enumerates actions from a set, whose iteration order is not fixed. The model searches in row-major order.
- The `ValueError` message is not modelled. An occupied target gives the `InvalidAction` outcome instead of an exception.
- Coordinates outside 0..2 are excluded by the `Coord` type. So are negative indices, which Python would wrap around, and malformed actions. This means the model has no `IndexError` path.
- Cells hold only X, O or empty. The source's list of lists could hold any value.
- `copy.deepcopy` is not modelled as such. Boards are immutable values, so the caller's board cannot change.
- `math.inf` is modelled by the sentinels -2 and 2 (`Worst`). Every utility beats them, just as every utility beats infinity.
- `max_value` and `min_value` are nested functions in the source. Here they are top-level methods. The only names they take from the enclosing scope of `minimax` are each other, and both are top-level here, so lifting them changes nothing.
- Reachability is not modelled. The source never checks it, and the rules accept any board. The hypothesis `Balanced` (X has as many marks as O, or one more) appears in the lemmas that relate the turn rule to alternate play, and in the one clause of `Minimax`'s postcondition that ties the chosen move to the textbook value `GameValue`.
- Whole-game claims are not proved, for example that the move chosen on the empty board never loses or that the empty board's value is 0. They need an evaluation of the full game tree, far beyond what the verifier can unfold.
