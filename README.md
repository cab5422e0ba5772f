# Tic-Tac-Toe engine with memoised alpha-beta search

This project models the game engine of `tik_toe.py`: the `TicTacToe` class
with its N x N board changed in place, the win and fullness checks, the
memoised alpha-beta search and the AI's move choice for O. Console I/O is not
modelled. In the search, O maximises and X minimises.

The project has three modules:

- `Board`: the grid as a value. It covers cells, placement, the line checks
  and the fullness check as the source computes them, and a quantified
  statement of what each check means. It also has the row-major list of blank
  cells that both searches walk through, and the count of blank cells that
  serves as the search's termination measure.
- `Scan`: what one non-terminal alpha-beta call does with its blank cells. A
  left fold `Run` over the cells keeps the running best, alpha, beta, and the
  row the scan last broke out of. `Follows` says which cells get explored.
  Lemmas cover cutoffs, skipped cells and the extreme value.
- `Game`: the class `TicTacToe`. Its fields are `size`, `board` (a
  `seq<seq<Cell>>` reassigned in place) and `memo` (a `map` from grids to
  scores). Its methods are `MakeMove`, `UndoMove`, `AlphaBeta` and `BestMove`,
  plus the loops they run.

The search loops are split into methods. Each call runs `AlphaBeta`, then
`ScanMoves` (the row loop), then `ScanRow` (the column loop), then `ScanCell`
(one cell). `ScanCell` calls `TryMove` (make the move, search, undo), and
`TryMove` calls `AlphaBeta` again. `BestMove` is built the same way from
`BestInRow` and `BestInCell`. The loop methods of the search are proved
against the fold in `Scan`. The loop methods of `BestMove` are proved against
`FirstMax` (the first index of a highest score) and the running-choice
predicate `Leading`.

Each `AlphaBeta` call returns a ghost trace. It lists, cell by cell in
row-major order, the child value the scan used, or None where a cutoff skipped
the cell. The contract ties the result to this trace (`Game.Explains`):

- the trace follows the scan's rule;
- the result is the fold's best value;
- each explored child was searched one level deeper, with the other side to
  move and the alpha and beta the scan had reached before that cell
  (`Game.ChildSearched`);
- each child's value is stored in the memo under that child's grid, or is that
  child's terminal score.

`Game.Searched` states the same thing about each child's own search,
recursively. If the child was neither memoised nor terminal when it was
searched, its trace explains its value in the same way. That trace is stated
against the memo as it stood when the child was searched, which the predicate
names by an existential. The model shows that an earlier sibling's search
cannot have stored the next child (`Game.FreshChild`). So a child that was not
in the memo when its parent's scan began was searched, not looked up.

The search methods require and keep the memo invariant `Game.MemoSound`. It says
that each entry holds a live position and the value a scan of that position
computed, with some window, side and depth and from a memo that did not yet
hold it (`Game.KeySound`). The memo is written only at tik_toe.py:76 and 90,
right after such a scan. So a memo hit returns a value that an earlier scan of
the same position explains. The invariant holds from the constructor's empty
memo on, and `Game.MemoSoundStore` shows that storing a freshly explained
result preserves it.

Behaviour the model keeps as the code has it:

- **The cutoff leaves only the column loop.** The code's `break`
  (tik_toe.py:75 and 89) exits the inner loop over columns. The row loop goes
  on, with alpha and beta still crossed. So after a cutoff, the rest of that
  row is skipped, but every later row still explores its first blank cell and
  then breaks again. Textbook alpha-beta would end the whole scan at a cutoff;
  this code does not. `Scan.NextRowExplored` proves that the first blank cell
  of every later row is explored, and `Scan.ScanContinuesInNextRow` shows a
  concrete trace where this happens.
- **The memo ignores depth.** The key is the grid alone. Terminal scores
  depend on depth, and values found with a narrowed window are stored as if
  exact. The memo is never cleared between `BestMove` calls. So the model makes
  no claim that the result equals the minimax value, or that the chosen move
  is optimal. The contracts state what the code guarantees: which cells were
  explored, and with which window and side each child was searched. They also
  state how the children's values were combined and what was stored in the
  memo.
- **`BestMove` tie-breaking.** A cell replaces the current choice only when
  its score is strictly higher. The choice is therefore the first maximum in
  row-major order.
- **A 0 x 0 board counts as won.** On a 0 x 0 board the diagonal check runs
  over no cells, so it succeeds (`Board.ZeroBoardWon`).

The infinite starting bounds (`-math.inf`, `math.inf`) are the `NegInf` and
`PosInf` cases of `Scan.Bound`. Python compares an infinity with an integer
score as an ordering on this extended type; `Scan.Le` is that ordering.

## Model

| member | source | states |
|---|---|---|
| Game.TicTacToe.constructor | tik_toe.py:6-11 | a new engine has a size x size board of blank cells and an empty memo, which is trivially sound |
| Board.EmptyGrid | tik_toe.py:9 | the fresh grid is square and every cell is blank |
| Board.FreshBoard | tik_toe.py:6-11 | a fresh board of size at least 1 is neither full nor won by either player |
| Board.ZeroBoardWon | tik_toe.py:39-40 | on a 0 x 0 board the win check succeeds for every player and the board counts as full |
| Board.Place | tik_toe.py:22 | writing a mark keeps the grid square and puts the mark in the named cell |
| Board.PlaceKeepsOthers | tik_toe.py:22 | writing a mark changes no other cell |
| Game.TicTacToe.MakeMove | tik_toe.py:19-24 | succeeds exactly when the cell was blank; the board then gains the mark, and otherwise it is unchanged |
| Game.TicTacToe.UndoMove | tik_toe.py:26-28 | the cell is blank afterwards and the rest of the board is as before |
| Board.UndoRestores | tik_toe.py:19-28 | making a move in a blank cell and then undoing it restores the whole board |
| Board.RowFromAll | tik_toe.py:34 | the row generator accepts exactly when every remaining cell of the row holds the player's mark |
| Board.ColFromAll | tik_toe.py:37 | the column generator accepts exactly when every remaining cell of the column holds the mark |
| Board.DiagFromAll | tik_toe.py:39 | the main-diagonal generator accepts exactly when every remaining (i, i) holds the mark |
| Board.AntiFromAll | tik_toe.py:41 | the anti-diagonal generator accepts exactly when every remaining (i, n-1-i) holds the mark |
| Board.RowScanFinds | tik_toe.py:33-35 | the row loop returns true exactly when some row from the start row on is all the player's |
| Board.ColScanFinds | tik_toe.py:36-38 | the column loop returns true exactly when some column from the start column on is all the player's |
| Board.IsWinnerIffHasLine | tik_toe.py:30-43 | the win check holds exactly when the player fills a row, a column or one of the two diagonals |
| Board.FullFromAll | tik_toe.py:47 | the fullness generator from (r, c) accepts exactly when every cell from (r, c) on in row-major order is marked |
| Board.IsFullIffNoBlank | tik_toe.py:45-47 | the fullness check holds exactly when no cell is blank |
| Board.RowEmptiesInRange | tik_toe.py:67-68 | every cell the column loop would try lies in its row and column range and is blank |
| Board.RowEmptiesExact | tik_toe.py:67-68 | the column loop tries exactly the blank cells of its range, left to right |
| Board.RowEmptiesSplit | tik_toe.py:67-68 | splitting the column range splits the list of tried cells |
| Board.EmptiesNextCol | tik_toe.py:66-68 | one more column adds that cell to the tried list exactly when it is blank |
| Board.EmptiesNextRow | tik_toe.py:66-68 | after the last column, or after skipping the rest of a row, the list is the next row's prefix |
| Board.RowsEmptiesExact | tik_toe.py:66-68 | the first `rows` rows are tried exactly at their blank cells, in row-major order |
| Board.EmptyCellsExact | tik_toe.py:66-68 | the nested loops try exactly the blank cells of the board, each once, in row-major order |
| Board.FullIffNoEmptyCells | tik_toe.py:61-68 | the board is full exactly when the nested loops have no cell to try |
| Board.PlaceShrinksEmptySet | tik_toe.py:69-70 | a move into a blank cell removes exactly that cell from the blank set, so each recursive call has one fewer blank cell |
| Game.TerminalScoreByLines | tik_toe.py:57-62 | X's line gives -10 + depth (checked first), then O's line gives 10 - depth, then a full board gives 0; play goes on exactly when none holds |
| Game.TicTacToe.AlphaBeta | tik_toe.py:52-91 | a memo hit returns the stored value, which an earlier scan of the same position explains, and leaves the memo alone; a terminal position returns its terminal score and stores nothing; otherwise the value is stored under the position and is explained by the scan's trace, each explored child having been searched one level deeper with the other side to move and the window reached before it; added keys are the position itself or positions with fewer blank cells; every memo entry stays the explained result of a scan of its key; the board is unchanged and no old memo entry changes |
| Game.TicTacToe.TryMove | tik_toe.py:69-71 | the board is as before; the child position was searched with exactly the given window, side and depth: its value is recorded, and if it was not memoised and not terminal, its own scan explains the value; only the child and positions below it are added to the memo, and every entry remains the explained result of a scan of its key |
| Game.TicTacToe.ScanMoves | tik_toe.py:64-91 | the trace covers every blank cell in row-major order and follows the cutoff rule; the result is the fold's best value; every explored child was searched with the other side to move, depth + 1 and the window the fold had reached before it |
| Game.TicTacToe.ScanRow | tik_toe.py:67-75 | one more row is scanned: its cells are explored or skipped by the cutoff rule, best, alpha and beta are the fold's, and each explored child was searched with the window reached before it |
| Game.TicTacToe.ScanCell | tik_toe.py:68-75 | a marked cell is passed over; a blank cell's child is searched with the current alpha and beta, the other side to move and depth + 1, and its value is folded in; cut is reported exactly when the cell was blank and beta <= alpha afterwards, and the rest of the row then counts as skipped |
| Game.TicTacToe.BestMove | tik_toe.py:93-106 | every blank cell gets a score from a search of O's move there, with window (-inf, +inf), depth 0 and X to move; the result is None exactly when there is no blank cell, and otherwise it is the first blank cell with the highest score; old memo entries are kept and every entry, old or new, is the explained result of a scan of its key, so the memo carried into the next call holds nothing else |
| Game.TicTacToe.BestInRow | tik_toe.py:98-105 | after one more row, the scores cover all blank cells up to its end, each from a full-window search at depth 0 with X to move, and the choice is their first maximum |
| Game.TicTacToe.BestInCell | tik_toe.py:99-105 | a marked cell is passed over; a blank cell is scored by a full-window search at depth 0 with X to move, and becomes the choice exactly when its score is strictly higher |
| Game.FirstMax | tik_toe.py:103-105 | the index returned is strictly above every earlier score and at least every later one |
| Game.FirstMaxSnoc | tik_toe.py:103-105 | appending a score moves the first maximum to it exactly when it is strictly higher |
| Game.FirstMaxUnique | tik_toe.py:103-105 | only one index is strictly above all earlier scores and at least all later ones |
| Game.LeadingSnoc | tik_toe.py:103-105 | a new score replaces the choice exactly when it is strictly above the best so far, and it keeps the first-maximum property |
| Game.RowStateExplore | tik_toe.py:68-75 | exploring a blank cell whose child was searched with the current window appends its value and applies the fold step; on a cutoff the rest of the row is skipped and the row is finished |
| Game.MemoSoundStore | tik_toe.py:76-90 | storing, under a position not yet memoised, the value a scan of that position explains keeps every entry of the memo the explained result of a scan of its key |
| Game.SearchedStable | tik_toe.py:76-90 | while the memo only gains entries, and only for live positions (the two stores), a recorded search stays valid at every level |
| Game.SearchedFrom | tik_toe.py:64-71 | a child's search, stated against the memo at the moment it was called, also holds against the memo at the start of the parent's scan when the child was not added in between |
| Game.FreshChild | tik_toe.py:66-71 | the searches of earlier siblings cannot have stored the child at a blank cell not yet tried, since each adds only its own child (which differs from it at that cell) and positions with fewer blank cells |
| Game.AddedStep | tik_toe.py:69-71 | searching the child at one more blank cell adds only that child and positions with fewer blank cells |
| Scan.Max | tik_toe.py:72-73 | the result is at least both arguments and is one of them |
| Scan.Min | tik_toe.py:86-87 | the result is at most both arguments and is one of them |
| Scan.RunBestIsExtreme | tik_toe.py:72 | the running best is at least (O to move) or at most (X to move) every explored value, and is the starting infinity or one of those values |
| Scan.StepKeepsCut | tik_toe.py:73-74 | once beta <= alpha, folding in another value keeps it so, because alpha only grows and beta only shrinks |
| Scan.CutStays | tik_toe.py:74-75 | once the cutoff condition holds, it holds for the rest of the scan |
| Scan.UncutKeepsBroken | tik_toe.py:74-75 | before any cutoff the scan has broken out of no row |
| Scan.ExploredBeforeCut | tik_toe.py:68-75 | every blank cell before the first cutoff is explored |
| Scan.NoCutExploresAll | tik_toe.py:66-75 | a scan that never reaches the cutoff explores every blank cell |
| Scan.FollowsSkip | tik_toe.py:74-75 | skipping the remaining cells of the row broken out of changes neither the state nor the rule |
| Scan.BrokenRowPersists | tik_toe.py:74-75 | after a cutoff at cell j, the scan stays broken out of j's row while the cells remain in that row |
| Scan.AfterCutRowSkipped | tik_toe.py:74-75 | after a cutoff, no later cell of the same row is explored |
| Scan.BrokenIsSomeRow | tik_toe.py:74-75 | the row a scan has broken out of is the starting value or the row of a cell already folded in |
| Scan.NextRowExplored | tik_toe.py:66-75 | whatever cutoffs came before, the first blank cell of a new row is explored, because the cutoff only leaves the column loop |
| Scan.ScanContinuesInNextRow | tik_toe.py:66-75 | on the concrete cells (0,0), (0,1), (1,0), the cutoff at (0,0) skips (0,1), but (1,0) in the next row is still explored |

## Left out

- `display_board`, `play` and the `__main__` block: console I/O and the human player's input loop.
- The default `size=3` (tik_toe.py:6): the constructor takes the size as a parameter, and Dafny has no default arguments.
- `current_player`: it is read and written only by `play`, so the constructor does not model it.
- `Game.TicTacToe.BoardToTuple`: the immutable snapshot is the grid value itself (`seq` is a value type), so the function returns the board and has no contract of its own.
- Game.TicTacToe.AlphaBeta: does not claim that the returned value is the minimax value, because the depth-blind memo and the values stored under pruned windows make that untrue in general.
- Game.TicTacToe.BestMove: does not claim that the move is optimal, for the same reason.
- Out-of-range `row` and `col` (an IndexError or a negative index in Python) are excluded by preconditions. Negative sizes are excluded by `size: nat`.
- Aliasing of the row lists: Python's board is a list of lists mutated in place. The model reassigns a value-typed grid, so an alias of a row could not see the change.
- Python's arbitrary-precision integers and the float infinities: scores are `int`, and the infinities are `Scan.Bound`. No floating-point arithmetic is involved.
