# SameGame engine in Dafny

SameGame is played on a 15 × 12 board of coloured cells. Clicking a cell removes its group: every
cell of its colour that can be reached from it through orthogonally adjacent cells of that colour.
A click only counts when the group has at least two cells. A group of n cells scores (n − 1)².
After a removal, the blocks in every column fall to the bottom and the empty columns close up to
the left. The game is won when the board is empty, and lost when no pair of equal neighbours is
left.

This project models the engine of `c/same.c`:

- the board `Board[x][y]`, column-major with row 0 at the top, plus the score and the game state;
- the recursive flood fill and the group count;
- group removal, gravity and column compaction;
- the two end-of-game tests;
- the move controller and the reset.

The engine's globals become the class `Game.SameGame`. Its board is an `array2<Cell>` that the
methods update in place. Each C function becomes a method, with the same loops, branches and
constants. Each method is proved against value-level definitions on a `Grid`, a sequence of
columns:

- `Cells`: cell states, board size, the flat marker index `y * 15 + x` and its inverse.
- `Groups`: paths, reachability and the `Group` of a cell; the invariants the flood fill keeps on
  its visited markers; the cleared board.
- `Gravity`: `Settle`, the column after gravity (its empty cells on top of its blocks, in order),
  and the step-by-step form of the in-place scan.
- `Compaction`: `Kept`, the non-empty columns, and `Compact`, those columns followed by empty ones.
- `Moves`: legal moves, `AfterMove`, the score of a move and the phase a board leads to.
- `Game`: the engine itself.

Some loops are split out into methods of their own, each proved on its own, for example
`CountMarked`, `ClearMarked`, `SettleColumn`, `CopyBoard`, `ColumnIsEmpty`, `CopyColumn` and
`ClearColumnsFrom`. Inside `FindConnected`, the loop over the four directions is the method
`ExploreNeighbours`, and the two call each other. Together the methods do what the C functions'
bodies do, in the same order.

The flood fill terminates because every call that gets past the guards marks a cell that was not
marked before. The number of unmarked cells is the termination measure.

The C source's comment at line 446 says a group of n blocks scores n². The code adds
(groupSize − 1) × (groupSize − 1), and the model follows the code.

## Model

| member | source | states |
|---|---|---|
| Cells.Ordinal | c/same.c:14-21 | The enumeration value of a cell state is between 0 and 5, and it is 0 exactly for the empty state |
| Cells.CellOf | c/same.c:207 | The cast of a value in 0..5 to a cell state gives back that value as its ordinal; the state is empty exactly when the value is 0 |
| Cells.Idx | c/same.c:256-261 | The flat index `y * BOARD_WIDTH + x` of an on-board cell lies inside the 180-entry marker arrays; `% BOARD_WIDTH` and `/ BOARD_WIDTH` recover x and y |
| Cells.PosOf | c/same.c:335-336 | The cell `(i % BOARD_WIDTH, i / BOARD_WIDTH)` of a flat index is on the board, and its flat index is i again |
| Groups.Step | c/same.c:264-275 | Definition: the neighbour `(x + directions[i][0], y + directions[i][1])`, with the table `Directions` holding the offsets right, left, down, up in the source's order; `StepIsAdjacent` and `AdjacentIsStep` prove these are exactly the four orthogonal neighbours |
| Groups.Group | c/same.c:249-278 | Definition: the on-board cells reachable from (x, y) through 4-adjacent cells of the colour, the set the flood fill is proved to mark (`FillFindsGroup`) and `GetConnectedCount` to count |
| Groups.GroupMembers | c/same.c:249-278 | A cell is in the group of (x, y) for a colour exactly when it is on the board and reachable from (x, y) through adjacent cells of that colour |
| Groups.ReachableSymmetric | c/same.c:263-277 | Reachability through the four directions is symmetric: a path read backwards is a path |
| Groups.ReachableTrans | c/same.c:263-277 | Reachability is transitive: two paths that meet join into one |
| Groups.GroupShape | c/same.c:252-257 | A group holds only on-board cells of its colour; it holds the seed exactly when the seed has the colour, and is empty otherwise (off the board included) |
| Groups.GroupOfMember | c/same.c:249-278 | Every member of a group has the same group, so the group does not depend on the cell it is entered from |
| Groups.MarkKeepsClosed | c/same.c:259-261 | Marking a cell keeps the flood fill's invariant: every marked cell, other than those whose calls are still under way, has all its same-coloured neighbours marked |
| Groups.FinishKeepsClosed | c/same.c:271-277 | Once the four neighbour calls of a cell have returned, the cell no longer needs to count as under way |
| Groups.FillStarts | c/same.c:259-261 | Marking a cell of the colour starts its fill: markers only grow, the new marker is reached from the cell, and the invariant holds with the cell under way |
| Groups.NeighbourExplored | c/same.c:272-276 | After the call on neighbour i, which lies at `x + directions[i][0]`, `y + directions[i][1]`, every marker set since the cell was marked is reachable from the cell, and neighbours 0..i are covered |
| Groups.NeighbourReached | c/same.c:272-276 | The same step, stated for the neighbour `Step(p, i)`: markers the neighbour's fill adds are reachable from the cell itself |
| Groups.ClosedCovers | c/same.c:249-278 | Markers closed under same-coloured adjacency hold every cell that a marked cell reaches |
| Groups.PathMarked | c/same.c:249-278 | Along a path of the colour that starts at a marked cell, every cell of the path is marked, when the markers are closed |
| Groups.FillMarksGroup | c/same.c:249-278 | Closed markers that cover the seed and mark only cells the seed reaches mark a cell exactly when the seed reaches it |
| Groups.FillFindsGroup | c/same.c:286-297 | A flood fill from all-false markers that finishes closed marks exactly the seed's group |
| Groups.Unvisited | c/same.c:256-260 | The number of unmarked cells is at most the number of markers (the termination measure) |
| Groups.UnvisitedShrinks | c/same.c:256-260 | Setting a marker that was clear, without clearing any, lowers the number of unmarked cells, so the recursion terminates |
| Groups.UnvisitedMono | c/same.c:256-260 | Markers that only grow never raise the number of unmarked cells |
| Groups.MarkedStep | c/same.c:300-302 | Scanning the markers one index further adds that index's cell exactly when its marker is set, and that cell was not counted before |
| Groups.MarkedIsGroup | c/same.c:299-302 | Markers that mark exactly the cells the seed reaches pick out the seed's group |
| Groups.Cleared | c/same.c:330-339 | The cleared board has the board's shape; a cell is empty when it is in the group and unchanged otherwise |
| Groups.AdjacentIsStep | c/same.c:264-269 | Every orthogonal neighbour is one of the four direction offsets (right, left, down, up) |
| Groups.StepIsAdjacent | c/same.c:264-275 | Each of the four direction offsets leads to an orthogonal neighbour |
| Gravity.Settle | c/same.c:352-364 | Definition: a column after gravity is its empty cells on top of its blocks in their original order; `SettleColumn` is proved to produce it and `SettleSpec` states its properties |
| Gravity.SettleBoard | c/same.c:347-366 | Definition: gravity applied to each column on its own; it has the board's width and column x becomes `Settle` of column x |
| Gravity.Blocks | c/same.c:354-363 | The blocks of a column are no more than its cells, and none of them is empty |
| Gravity.BlocksMultiset | c/same.c:354-363 | A column's cells are its blocks plus as many empty cells as it had |
| Gravity.SettleSpec | c/same.c:347-366 | After gravity a column has its height, has no empty cell below a block, has the same multiset of cells, and has the same blocks in the same top-to-bottom order |
| Gravity.SettleFixesSettled | c/same.c:354-363 | Gravity leaves a settled column as it is |
| Gravity.SettleIdempotent | c/same.c:347-366 | Applying gravity a second time to a column changes nothing |
| Gravity.SettleBoardIdempotent | c/same.c:347-366 | Applying gravity a second time to the board changes nothing |
| Gravity.SettleBoardSpec | c/same.c:350-365 | Gravity works column by column: each column becomes settled and keeps its multiset of cells, and the board keeps its shape |
| Gravity.EmptyBelowCounts | c/same.c:352-357 | `emptyCount` at row y (the value `SettleColumn` keeps in its invariant) is the number of empty cells in the rows below y |
| Gravity.PartialStart | c/same.c:352-354 | Before the bottom-up scan the column is untouched and `emptyCount` is 0 |
| Gravity.PartialStep | c/same.c:354-363 | At row y, row y is still as it was and `y + emptyCount` is on the board. An empty cell adds one to `emptyCount`. A block moves down by `emptyCount` when that is positive, and its old cell becomes empty |
| Gravity.PartialEnd | c/same.c:354-364 | After the scan the column is its settled form |
| Compaction.Kept | c/same.c:381-400 | Definition: the non-empty columns from left to right, no more than the board has; the columns the `shift` loop copies, in its order |
| Compaction.Compact | c/same.c:369-406 | Definition: the kept columns followed by empty columns up to the board's width; `RemoveEmptyColumns` is proved to produce it and `CompactSpec` states its properties |
| Compaction.KeptColumns | c/same.c:381-400 | Every kept column is a non-empty column of the board |
| Compaction.KeptOfNonEmpty | c/same.c:381-400 | A board with no empty column keeps all its columns |
| Compaction.KeptStep | c/same.c:383-399 | The kept columns of the first x + 1 columns are those of the first x, followed by column x when it is not empty |
| Compaction.KeptMultiset | c/same.c:381-405 | A board's columns are its kept columns plus as many empty columns as it had |
| Compaction.CompactSpec | c/same.c:369-406 | After compaction the board has its shape, no empty column stands left of a non-empty one, and the board holds the same columns (so the same cells) as before |
| Compaction.CompactFixesCompacted | c/same.c:381-405 | Compaction leaves a compacted board as it is |
| Compaction.CompactedBoard | c/same.c:393-405 | A board that holds the kept columns in order at its left and is empty beyond them is the compacted board |
| Compaction.CompactIdempotent | c/same.c:369-406 | Compacting a second time changes nothing |
| Compaction.CompactKeepsSettled | c/same.c:451-452 | Compaction moves whole columns, so columns that gravity settled stay settled |
| Compaction.SettleThenCompactNormal | c/same.c:451-452 | After gravity and then compaction, every column is settled and the board is compacted |
| Compaction.NormalIsFixed | c/same.c:451-452 | On a board in that normal form, gravity and compaction change nothing |
| Moves.PairAt | c/same.c:232-241 | Definition: the test in the loop body of `HasValidMoves`: the cell is not empty and its right or lower neighbour, where there is one, has its colour |
| Moves.HasMove | c/same.c:226-246 | Definition: some on-board cell passes `PairAt`; `HasValidMoves` is proved to return it |
| Moves.Removable | c/same.c:432-444 | Definition: the click is on the board, on a non-empty cell whose group has at least two cells (the three early returns after the state check) |
| Moves.IsMove | c/same.c:422-444 | Definition: the game state is gsPlaying and the click is `Removable`: all four early returns of `HandleMouseClick` fail |
| Moves.AfterMove | c/same.c:446-452 | Definition: the board after a move: the group cleared, then gravity, then compaction |
| Moves.AfterMoveNormal | c/same.c:447-452 | Whatever board a move starts from, the removal, gravity and compaction leave a board in normal form |
| Moves.Points | c/same.c:448 | `(groupSize - 1) * (groupSize - 1)` is never negative, and is at least 1 for a group of two or more |
| Moves.MoveScore | c/same.c:440-448 | A legal move scores at least one point |
| Moves.PhaseAfter | c/same.c:455-458 | After a move the state (the three values of `TGameState` at c/same.c:24-28, the datatype `Phase`) is gsVictory exactly when the board is empty, gsGameOver exactly when cells are left but no move is, and gsPlaying otherwise |
| Moves.GameOverIffNoRemovable | c/same.c:455-458 | The game is over after a move exactly when cells are left but no click on any cell would remove a group |
| Moves.TwoOrMore | c/same.c:443 | A group that holds the seed has two or more cells exactly when it holds a cell other than the seed |
| Moves.PairIsRemovable | c/same.c:237-241 | An equal right or lower neighbour of a coloured cell puts that cell in a group of at least two |
| Moves.RemovableHasPair | c/same.c:226-246 | A cell whose group has two or more cells gives some cell an equal right or lower neighbour |
| Moves.HasMoveIffRemovable | c/same.c:226-246 | Looking only at right and lower neighbours finds a move exactly when some click would remove a group of two or more |
| Game.CountMarked | c/same.c:300-302 | The counting loop returns the number of cells whose marker is set, which is at most the number of markers |
| Game.ColumnIsEmpty | c/same.c:383-391 | The scan with its early `break` reports a column empty exactly when none of its cells holds a block |
| Game.SameGame.constructor | c/same.c:31-33 | Before the first game the globals are zero: an empty board, score 0, gsPlaying. The empty board is in normal form and the state agrees with it, so `HandleMouseClick` keeps both from the start |
| Game.SameGame.InitializeGame | c/same.c:199-208 | Score 0 and gsPlaying. Cell (x, y) is colour `roll % 5 + 1` for the roll drawn at its turn in the column-by-column loop, so every cell holds a colour. The new board is settled and compacted, and the state agrees with it |
| Game.SameGame.HasValidMoves | c/same.c:226-246 | The result is true exactly when some coloured cell has an equal right or lower neighbour |
| Game.SameGame.FindConnected | c/same.c:249-278 | Marks only cells reachable from (x, y) through cells of the colour; it marks (x, y) when it has the colour; it never clears a marker; `visited` and `connected` stay equal; and it terminates |
| Game.SameGame.ExploreNeighbours | c/same.c:263-277 | The loop over right, left, down and up leaves every same-coloured neighbour of (x, y) marked, and every marker it adds reachable from (x, y) |
| Game.SameGame.GetConnectedCount | c/same.c:281-309 | 0 for csEmpty; otherwise the size of the group of (x, y), between 1 and 180 when the cell holds the colour, and 0 when it is off the board or holds another colour |
| Game.SameGame.RemoveConnectedGroup | c/same.c:312-344 | Exactly the cells of the group of (x, y) become empty, and every other cell is unchanged; nothing changes for csEmpty |
| Game.SameGame.ClearMarked | c/same.c:330-339 | Every cell whose marker is set becomes empty, and no other cell changes |
| Game.SameGame.ApplyGravity | c/same.c:347-366 | The board becomes its settled form, column by column |
| Game.SameGame.SettleColumn | c/same.c:352-364 | The bottom-up scan with `emptyCount` turns column x into its settled form and leaves the other columns alone |
| Game.SameGame.RemoveEmptyColumns | c/same.c:369-406 | The board becomes its compacted form: the non-empty columns unchanged and in order in columns 0..k-1, and the rest empty |
| Game.SameGame.CopyBoard | c/same.c:371-376 | The temporary board is a fresh copy of every cell of the board |
| Game.SameGame.CopyColumn | c/same.c:393-399 | Column x of the copy is written into column `shift`, and no other cell changes |
| Game.SameGame.ClearColumnsFrom | c/same.c:402-405 | Every column from `shift` on becomes empty, and the columns before it are unchanged |
| Game.SameGame.IsBoardEmpty | c/same.c:409-417 | The result is true exactly when every cell is csEmpty |
| Game.SameGame.HandleMouseClick | c/same.c:422-459 | Board, score and state change only when the game is on and the click hits a group of two or more. In that case the board becomes the move's result, the score rises by (n − 1)² and the state follows from the new board. A board in normal form stays in it, the state keeps agreeing with the board, and the score never decreases |
| Game.SameGame.PlayMove | c/same.c:446-458 | Removal, scoring, gravity, compaction and the end test, in the source's order. The board becomes the move's result, the score rises by (groupSize − 1)², and the state follows from the new board |
| Game.SameGame.CheckGameEnd | c/same.c:454-458 | gsVictory for an empty board, else gsGameOver when no move is left, else still gsPlaying; the score is unchanged |

## Left out

- `main` and the frame loop, drawing, text, hover highlighting and popups (c/same.c:47-196) are
  presentation and I/O. The reset key is the `InitializeGame` method.
- `GetCellColor` (c/same.c:211-223) maps cell states to display colours of the graphics library.
- The mouse-to-cell conversion in `HandleMouseClick` (c/same.c:425-429) reads the mouse and does
  float arithmetic. The model's `HandleMouseClick` takes the board coordinates (x, y) as
  integers. In C, the state check (line 422) comes before the coordinates are read. The model
  checks the state, the bounds and the empty cell in one guard. Reading the mouse changes
  nothing, so the two are the same.
- `rand()` (c/same.c:207) is the input sequence `rolls` of `InitializeGame`: one value per cell, in
  the order the loops draw them. The model claims nothing about their distribution.
- `calloc` failure and `free` (c/same.c:286-294, 304-306, 317-325, 341-343) are not modelled.
  Dafny's `new` always succeeds, and memory is not freed explicitly.
- The depth of the flood fill's recursion and stack exhaustion are not modelled. The depth reaches
  181 nested `FindConnected` calls: on a one-colour board the right, left, down, up order snakes
  through all 180 cells, and the deepest of them makes one more call that returns at its guard.
- Game.SameGame.HandleMouseClick: the score is an unbounded `int`, so the model does not capture
  C's 32-bit `int`. Within one game at most 180 cells are removed, so the score stays below 180²
  and cannot wrap.
- The proof-only parameters of `FindConnected` (`g`, the board as a value, and `pending`, the calls
  still under way) carry the invariant of the recursion. The C function has no counterpart to
  them.
