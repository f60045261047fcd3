# Match-3 resolution engine, modelled in Dafny

A model of the engine of a command-line Match-3 game on a 4x4 board
(`Match3.py`). A cell holds a letter tile or the empty marker `[*]`
(`Cell = Empty | Letter(ch)`). The player swipes a cell, numbered 1 to 16
row by row, up, down, left or right. The swap is committed only if it forms
a run of three or more equal letters in a row or column. Matched runs are
cleared, letters fall down their columns, and empty cells are refilled at
random. Refills keep going until the board holds no match and still offers
a move that would make one.

The model has six modules:

- `Grid` (`grid.dfy`): cells, the board as `seq<seq<Cell>>` of fixed size 4x4, columns, single-cell updates and swaps, and the count of occupied cells.
- `Detection` (`detection.dfy`): the row-major scan. It is specified as the function `Detect`, a fold of one `Step` per cell. The `while` loops of `match_presence_and_info` are the methods `MatchPresenceAndInfo`, `ScanCell` and `SearchDown`/`SearchUp`/`SearchRight`/`SearchLeft`, each proved equal to that function. Lemmas prove the scan complete against `HasMatch` (three equal letters in a row or column), and prove every reported run maximal and well formed.
- `Clearing` (`clearing.dfy`): `Clear` empties the reported runs, and `ClearAll` repeats detect-then-clear until no match is left. Each clear removes at least three letters, and that count is the termination measure.
- `Gravity` (`gravity.dfy`): `Settle` compacts one column, and `Collapse` compacts every column. Lemmas prove the compacted column is a permutation of the old one, keeps its letters in order, has its empty cells on top, and is unchanged when already compacted. `SettleStep` proves one step of the bottom-up pointer pass of `drop_floating_letters`.
- `Moves` (`moves.dfy`): `Movable` and `HasFeasibleMove` say when a swipe can make a match. `CellOf` turns a cell number into its row and column.
- `Match3` (`game.dfy`): the class `Game`, whose field `board` stands for the source's global `board`. Its methods are the source's functions that read or change the board.

The source's global `board` is a field of `Game`. Its methods reassign the
field, and a `deepcopy` is a copy of the sequence value. The source's
`choice(letters)` is a nondeterministic pick from `Alphabet`
(`var letter :| letter in Alphabet`).

## Model

| member | source | states |
|---|---|---|
| `Detection.ExtendForward` | Match3.py:54-74 | the downward search (lines 54-57) and the rightward search (lines 71-74) stop at the first index past the start whose cell differs from the letter, or at the edge; every cell passed holds the letter |
| `Detection.ExtendBackward` | Match3.py:59-79 | the upward search (lines 59-62) and the leftward search (lines 76-79) stop at the last index before the start whose cell differs from the letter, or at -1; every cell passed holds the letter |
| `Detection.SearchDown` | Match3.py:54-57 | the `while` loop returns the lowest row of the run through the cell: all rows from the cell down to it hold the letter, and the next row differs or is off the board |
| `Detection.SearchUp` | Match3.py:59-62 | the `while` loop returns the highest row of the run through the cell; the row above it differs or is off the board |
| `Detection.SearchRight` | Match3.py:71-74 | the `while` loop returns the rightmost column of the run through the cell; the next column differs or is off the board |
| `Detection.SearchLeft` | Match3.py:76-79 | the `while` loop returns the leftmost column of the run through the cell; the column before it differs or is off the board |
| `Detection.ScanCell` | Match3.py:49-85 | one cell of the scan: an empty cell changes nothing; a vertical run of length 3 or more sets `high`/`low`, then a horizontal one sets `left`/`right` |
| `Detection.MatchPresenceAndInfo` | Match3.py:35-87 | the nested loops compute the row-major scan `Detect`; the flag is true exactly when the board holds a match, and the report is well formed |
| `Detection.DetectComplete` | Match3.py:44-87 | detection is complete: the flag is true iff some row or column holds three consecutive equal letters, and with no match all four positions are `(-1,-1)` |
| `Detection.DetectWellFormed` | Match3.py:53-85 | a reported vertical run has `high` and `low` in one column, is at least 3 long, holds one letter, and the cells just above and below differ or are off the board; the same holds for `left`/`right` in one row; the flag is set iff a run is reported |
| `Detection.HitIffMatch` | Match3.py:64-83 | a cell whose run reaches length 3 exists iff three consecutive equal letters exist, so empty cells never start a run |
| `Detection.CheckCurrentMatch` | Match3.py:90-98 | returns the presence flag of the scan, which is true exactly when the board holds a match |
| `Moves.CellOf` | Match3.py:174-175 | for cell numbers 1..16, `cellspace // 4.1` and the `% 4` rule give the row `(cellspace-1) div 4` and the column `(cellspace-1) mod 4`, a cell on the board with `4*row + col + 1 == cellspace` |
| `Match3.Game.constructor` | Match3.py:6-9 | the board starts 4x4 with every cell empty |
| `Match3.Game.TrySwipe` | Match3.py:113-141 | each of the four swap blocks (up 113-117, down 121-125, left 129-133, right 137-141): swapping a cell with an in-bounds neighbour on a copy and checking the copy is true exactly when that swap makes a match |
| `Match3.Game.CheckCellMoves` | Match3.py:109-141 | an empty cell is skipped; otherwise true exactly when some in-bounds swipe (up, down, left, right) of the cell makes a match |
| `Match3.Game.CheckPotentialMatch` | Match3.py:101-142 | true exactly when some occupied cell has an in-bounds neighbour whose swap yields a board with a match; it has no `modifies` clause, so the board is not changed |
| `Match3.Game.HandleMatch` | Match3.py:212-233 | exactly the rows `high..low` of the reported column and the columns `left..right` of the reported row become empty (an axis with sentinel row -1 is skipped); every other cell is unchanged |
| `Clearing.ClearShrinks` | Match3.py:212-233 | clearing a detected match only empties cells, and it empties at least three occupied ones, so the count of occupied cells drops by 3 or more |
| `Clearing.ClearAll` | Match3.py:236-249 | repeated detect-and-clear ends with no match, only empties cells, drops the count by 3 or more when a match was present, and leaves a board without a match unchanged |
| `Match3.Game.HandleAllMatches` | Match3.py:236-249 | the loop terminates because the count of occupied cells strictly drops; on exit the board equals `ClearAll` of the entry board and holds no match |
| `Gravity.SettleCorrect` | Match3.py:256-266 | a compacted column has its empty cells exactly on top and its letters below, in their original top-to-bottom order, and is a permutation (same multiset) of the original column |
| `Gravity.SettleKeepsSettled` | Match3.py:256-266 | a column is left unchanged by compaction iff it has no empty cell below a letter |
| `Gravity.SettleExample` | Match3.py:256-266 | the column `[A, *, *, B]` becomes `[*, *, A, B]` |
| `Gravity.SettleStep` | Match3.py:258-266 | with the rows below already compacted, leaving an empty cell, or swapping a letter with the last empty cell above the first letter below it, compacts the column from that row down |
| `Gravity.CollapseCorrect` | Match3.py:256-266 | after the pass every column is compacted and a permutation of the old column, the count of occupied cells is unchanged, and an already compacted board is unchanged |
| `Match3.Game.DropCell` | Match3.py:258-266 | the pointer walk and swap for one cell extends the compacted part of its column by one row and leaves the other columns unchanged |
| `Match3.Game.CompactColumns` | Match3.py:256-266 | the bottom-up pass over rows `len-2..0` leaves each column compacted, as `Collapse` of the board on entry |
| `Match3.Cascade` | Match3.py:254-277 | the board the drop-and-clear cascade rests on has no match and every column compacted, holds no more letters than the board it started from, and is the board itself when that is already compacted and match-free |
| `Match3.Game.DropFloatingLetters` | Match3.py:252-277 | the compaction and the cascade with its recursive call terminate, because the count of occupied cells strictly drops before each recursive call; on exit the board is exactly `Cascade` of the entry board, so no match is present and every column is compacted; when the compacted board has no match it is the result |
| `Match3.Game.Swipe` | Match3.py:165-209 | a swipe off the board or a swap that forms no match leaves the board unchanged and reports which; a swap that forms a match replaces the board by `ClearAll` of the swapped copy, so no match remains |
| `Match3.Game.FillAllCells` | Match3.py:150-152 | every cell receives a letter of `A, D, F, G, X` |
| `Match3.Game.FillEmptyCells` | Match3.py:288-292 | only empty cells receive a letter of the alphabet; occupied cells keep theirs |
| `Match3.Game.InitializeBoard` | Match3.py:145-162 | every cell holds a letter of the alphabet, and the method reports settled exactly when the board has no match and a feasible move |
| `Match3.Game.RefillEmptyCells` | Match3.py:286-302 | each retry restores the snapshot taken on entry, so cells occupied on entry keep their letters and only cells empty on entry are filled; the result is true exactly when a feasible move exists |
| `Match3.Game.ReplaceMatchedLetters` | Match3.py:280-314 | the refills it draws form the chain reaction `Refills` of the entry board: the first keeps every letter on the board and puts a letter of the alphabet in every empty cell; every refill but the last holds a match and has a feasible move (the retry loop accepts no other), and the next refills the board left by clearing all its matches and cascading; when it settles, or when the last refill holds no match, the board is that last refill; when it settles, the board has no match, has a feasible move, and has no empty cell |
| `Match3.Game.PlayTurn` | Match3.py:354-358 | the outcome says whether the swipe left the board or made no match, as for `Swipe`; the board after the drop is `Cascade` of the cleared swapped board when the swipe applied and of the entry board otherwise; the refills are the chain reaction from that board, each one the chain continues from holding a match and a feasible move, and a settled turn ends on the last one with no match, a feasible move and no empty cell; a rejected swipe on a full board with no match leaves the board unchanged |
| `Match3.RefillsAtRest` | Match3.py:286-312 | a full board with no match is its own refill and starts no chain reaction, so refilling leaves it as it is |

## Left out

- `print_board` and `last_printed` (Match3.py:11-32), and the `print` calls in `swipe` and in the cascade loops, are console output only. `Swipe` returns a `SwipeOutcome` where the source prints "cannot swipe" or "no match".
- The interactive loop (Match3.py:317-359), covering `input`, parsing and `os._exit`, is not modelled. `PlayTurn` models only the calls one turn makes after its input is read. Callers must pass a cell number in 1..16 and one of the four directions.
- `Match3.Game.Swipe`: a direction string other than `w`, `a`, `s` or `d` matches no case in the source, so the source re-checks an unchanged copy. The `Direction` type has only the four directions, so this case is not modelled.
- `Moves.CellOf`: `cellspace // 4.1` is float division. The model computes it as exact rational floor division, `cellspace * 10 / 41`, and does not model binary floating-point rounding. For 1..16 the quotients are far from whole numbers.
- `Match3.Game.InitializeBoard`: the source redraws without bound until the board is settled. The model stops after `redraws` redraws and returns `settled == false` if the board is still unsettled.
- `Match3.Game.RefillEmptyCells`: the source retries without bound until a feasible move exists. The model retries at most `redraws` times.
- `Match3.Game.ReplaceMatchedLetters`: the source's redraw loop and its recursion are unbounded. The model bounds both by `fuel` and returns `settled == false` when `fuel` runs out, so only the partial-correctness statement is proved. Nothing is proved about how likely the random fills are to succeed.
- `Match3.Game.PlayTurn`: it inherits the bound of `ReplaceMatchedLetters`.
- The randomness of `choice` is a nondeterministic choice among the five letters. Its distribution is not modelled.
- The board size is fixed at 4x4 (`Size`). The source's loops read `len(board)`, which is always 4.
