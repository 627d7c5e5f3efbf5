# Tic-tac-toe against a minimax computer — a Dafny model

This project models the game logic of a small tic-tac-toe program in which a
human ("X") plays against the computer ("O"). The board is nine cells in
row-major order (`index = row * 3 + col`). A player wins by owning one of
eight fixed lines (three rows, three columns, two diagonals). A board with no
empty cell is a draw. The computer picks its move by exhaustive minimax with
depth-aware scores: `10 - depth` for a computer win, `depth - 10` for a human
win, `0` for a draw. At the root it scans cells 0 .. 8 and keeps the first
cell whose score is strictly greater than the best so far.

Modules:

- `Options` (options.dfy): `Option`. Here `None` stands for the infinite float
  sentinel that every real score beats.
- `Boards` (board.dfy): cells, the board, mark counting, the line table,
  `check_winner`, `check_draw`, the grid coordinates and `reset_game`.
- `Search` (search.dfy): the pure recursive `Minimax` and its per-node loop
  `BestFrom`. The lemmas show that a node's score is the max (or min) over its
  children. `MinimaxInPlace` does the same search by mutating and undoing a
  shared array, as the program does. `ChooseMove` is the root scan of
  `computer_move`.
- `Play` (play.dfy): the board update of `player_click`, the move application
  of `computer_move`, and the whole click handler. The handler returns the
  board, the game-over dialog it would show, and the computer's reply.

Termination of the search follows from the number of empty cells, which drops
by one with every placement (`Boards.CountAfterPlace`). On a terminal board
`Search.Minimax` returns its score before the per-node loop `BestFrom` is
reached, so it makes no recursive call there.

The model follows the code in these points:

- A click on an occupied cell is silently ignored. It is not an error.
- The row and column always come from the 3×3 button grid, so the model
  requires them to be below 3. It has no out-of-range error.
- The computer is always the maximizing side and the human the minimizing one.
- `computer_move` does not refuse a board that already has a winner. It returns
  no move only when the board is full. The game never calls it on a finished
  board.

## Model

| member | source | states |
|---|---|---|
| Boards.CellIndex | tic_tac_toe.py:46 | the index `row * 3 + col` of a grid cell is undone by `divmod(index, 3)`: its quotient is the row and its remainder the column |
| Boards.CellIndexOfDivMod | tic_tac_toe.py:78 | every index 0 .. 8 is the cell index of its own `divmod(index, 3)`, so the computer's move lands on the button it names |
| Boards.WinnerFrom | tic_tac_toe.py:123-126 | the scan of the line table from entry k answers true exactly when some line at or after k has all three cells equal to the mark |
| Boards.HasWinnerIffThreeInARow | tic_tac_toe.py:116-126 | `check_winner(p)` holds exactly when p fills a whole row, a whole column or one of the two diagonals of the 3×3 grid (both directions) |
| Boards.WinNeedsThreeMarks | tic_tac_toe.py:116-126 | a mark that has won has at least three cells on the board |
| Boards.IsFull | tic_tac_toe.py:128-129 | `check_draw` holds exactly when no cell is empty, equivalently when the count of empty cells is zero |
| Boards.CountAfterPlace | tic_tac_toe.py:100-102 | putting a mark on an empty cell lowers the number of empty cells by exactly one and raises that mark's count by one, so every recursive call has fewer empty cells |
| Boards.EmptyBoardIsOpen | tic_tac_toe.py:28 | the new-game board has nine empty cells and no line for either mark |
| Boards.Reset | tic_tac_toe.py:131-132 | `reset_game` leaves all nine cells empty whatever the board held, so the new board is not terminal |
| Boards.ResetIdempotent | tic_tac_toe.py:131-132 | resetting twice gives the same board as resetting once |
| Search.Pick | tic_tac_toe.py:104 | folding a child score into the best so far gives the larger of the two (the smaller one when minimizing); with no best yet it gives the score, as `max(score, -inf)` does |
| Search.Minimax | tic_tac_toe.py:89-114 | a board where the computer owns a line scores `10 - depth`, even when it is also full; else a human line scores `depth - 10`; else a full board scores 0; and the score always lies in `[depth - 10, 10 - depth]` when at most 10 - depth cells are empty |
| Search.BestFrom | tic_tac_toe.py:97-114 | the loop over cells i .. 8 of one node produces a score exactly when a score was already held or some later cell is empty, and every child score lies one level inside the parent's range |
| Search.BestFromAttained | tic_tac_toe.py:99-105 | the loop's result is the incoming best or the score of one of the empty cells it visited |
| Search.BestFromKeepsBest | tic_tac_toe.py:104 | the loop never ends with anything worse than the best it started with |
| Search.BestFromBeatsChildren | tic_tac_toe.py:108-114 | the loop's result is no worse, for the side to move, than the score of any empty cell it visited |
| Search.MinimaxIsBestChild | tic_tac_toe.py:97-114 | on a board that is not terminal, the minimax score is the maximum over the children when maximizing and the minimum when minimizing: some empty cell reaches it and none does better |
| Search.MinimaxInPlace | tic_tac_toe.py:89-114 | the mark-recurse-unmark search on the shared board returns the pure minimax score and leaves the caller's board exactly as it found it |
| Search.ChooseMove | tic_tac_toe.py:62-76 | no move only when the board has no empty cell; otherwise the chosen cell is empty, its score `minimax(.., 0, False)` is maximal among all empty cells, every empty cell before it scores strictly lower, and it is the only cell with these properties |
| Play.PlaceHumanMark | tic_tac_toe.py:45-48 | a click on an occupied cell changes nothing; on an empty cell it sets exactly `board[row*3+col]` to X and leaves the other eight cells alone |
| Play.Settle | tic_tac_toe.py:51-58 | after a move, a line for the mover shows that side's win dialog and resets; else a full board shows the draw dialog and resets; else play continues on the unchanged board |
| Play.ComputerMove | tic_tac_toe.py:62-87 | the computer takes the first best cell; a win shows "Computer wins!" and resets, a full board shows the draw and resets, otherwise the board is the old one plus that cell; a full board is left alone |
| Play.PlayerClick | tic_tac_toe.py:45-60 | a click on an occupied cell changes nothing; the human wins exactly when their mark completes a line; the computer replies exactly when the human's move neither wins nor fills the board, and its reply is the first best cell; every game end resets the board |

## Left out

- The tkinter window, the buttons' text and enabled state, the `messagebox` dialogs and the main loop are user-interface plumbing. The dialogs are kept only as the `Message` value a handler returns.
- The header comment says the computer's move is random, and the program imports `random`. It never uses it: the model keeps the deterministic first-maximum tie-break.
- The `float('-inf')` and `float('inf')` starting values are replaced by `Option<int>`. Every real score is an integer between -10 and 10.
- `check_winner` reads the game's own board rather than the `board` argument of `minimax`. The program always passes that same board, so the model has one board.
- Search.Minimax: the range bound `[depth - 10, 10 - depth]` is stated only when `depth` plus the number of empty cells is at most 10. Every search in the program starts at depth 0 with at most eight empty cells, and each recursive call adds one to the depth and removes one empty cell, so the condition always holds in the program.
- Whole-game claims are not proved: that optimal self-play always draws, that the empty board's chosen move is cell 0, or what the computer answers on a particular board. Each needs the verifier to evaluate the full game tree.
- The claim that a board where both marks own a line cannot arise in legal alternating play is not modelled. It concerns reachable games, not a single operation.
