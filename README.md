# Tetris grid engines of the eightball arcade

The eightball repository ships three independent falling-block games. Each
has an occupancy grid, a falling piece given as a shape matrix and a
position, a collision test, a clockwise rotation, merging of a landed piece,
removal of complete rows with empty rows refilled on top, scoring and
game-over rules, and drop loops that stop at the first collision. This project models
the grid engine of each variant and proves what each operation does.

- `Tetris` and `TetrisGame` (`tetris.dfy`, `tetris_game.dfy`) model
  `app/tetris/TetrisComponent.tsx`:
  - a 16 x 20 board of `colour | null` cells, prefilled with a "worm hole"
    pattern;
  - a three-entry preview queue;
  - level-dependent scoring and the gravity interval.

  The React state is the class `TetrisGame.Game`, and every handler is a
  method on it.
- `Tetris3D` and `Tetris3DGame` (`tetris3d.dfy`) model
  `app/tetris3js/Tetris3D.tsx`:
  - a 10 x 20 board of integers, where 0 means empty;
  - the seven `SHAPES` and their colours;
  - the spawn test;
  - `lockPiece`, with its in-place bottom-up `splice`/`unshift` loop that
    re-examines the same row index;
  - moves, rotation, hard drop and restart.
- `Terracotta` and `TerracottaGame` (`terracotta.dfy`) model
  `app/terracotta/page.tsx`:
  - a 27 x 30 board of booleans;
  - `isValidMove`, `rotate` and `mergePiece`;
  - the defective multi-row removal (see Findings);
  - `move`, `rotatePiece`, `drop` and `getGhostPosition`.
- Shared modules:
  - `Shapes` (`shapes.dfy`) holds the shape matrices and the clockwise
    quarter turn that all three games use.
  - `Rows` (`rows.dfy`) holds the generic row-clearing specification:
    surviving rows in order under one blank row per removed row. It also
    holds the intermediate state of an in-place bottom-up clearing.
  - `Brightness` (`brightness.dfy`) models the `adjustBrightness` colour
    helper of the first game.
  - `Wrappers` holds `Option`.

Boards are sequences of rows. The sources always copy a board before writing
to it (`board.map(row => [...row])`), so value semantics is exact. Loops of
the source are `while` loops in methods, proved against specification
functions. `Math.random` choices (piece kind, skin entry, prefill colour)
are parameters of the methods that use them.

A few facts about the code that the model keeps:
- Scoring adds a fixed amount per cleared line: `100 * level` in the first
  game, `100` in the other two.
- The first game's board is 16 cells wide.
- In the terracotta game a merge does not always remove a complete row (see
  Findings).

## Model

| member | source | states |
|---|---|---|
| Shapes.RotateCW | app/tetris/TetrisComponent.tsx:669-672 | the quarter turn of a well-formed shape is well formed, has its dimensions swapped, and cell (i, j) of the result is cell (h-1-j, i) of the input |
| Shapes.Reverse | app/tetris/TetrisComponent.tsx:670 | the reversed row has the same length and holds at k the entry at length-1-k of the input |
| Shapes.FlippedTwice | app/tetris/TetrisComponent.tsx:669-672 | flipping twice gives back the shape |
| Shapes.HalfTurnCell | app/tetris/TetrisComponent.tsx:669-672 | two quarter turns of a well-formed h x w shape send cell (i, j) to (h-1-i, w-1-j) and keep the row width |
| Shapes.HalfTurn | app/tetris/TetrisComponent.tsx:669-672 | two quarter turns of a well-formed shape are its upside-down, mirrored form |
| Shapes.RotateFourTimes | app/tetris/TetrisComponent.tsx:669-672 | four quarter turns give back the original shape |
| Shapes.TurnedCount | app/tetris/TetrisComponent.tsx:669-672 | moving a set of cells (i, j) to (j, h-1-i) keeps the number of cells, since the move is one-to-one |
| Shapes.FilledCellsTurned | app/tetris/TetrisComponent.tsx:669-672 | the filled cells of the quarter-turned shape are exactly the filled cells (i, j) of the input moved to (j, h-1-i) |
| Shapes.RotatePreservesFilled | app/tetris/TetrisComponent.tsx:669-672 | a quarter turn moves each filled cell (i, j) to (j, h-1-i), so the number of filled cells is preserved and a shape with a filled cell keeps one |
| Rows.Repeat | app/tetris/TetrisComponent.tsx:766-768 | unshifting n copies of a row gives n rows, each that row |
| Rows.Survivors | app/tetris/TetrisComponent.tsx:757-764 | the filter keeps only incomplete rows and never more rows than the input has |
| Rows.SurvivorsKeep | app/tetris/TetrisComponent.tsx:757-764 | a property that holds of every row of the input holds of every surviving row |
| Rows.SurvivorsCount | app/tetris/TetrisComponent.tsx:757-764 | every row is either kept or counted as complete: survivors plus complete rows equals the height |
| Rows.SurvivorsAppend | app/tetris/TetrisComponent.tsx:757-764 | filtering and counting distribute over concatenation of row blocks |
| Rows.ScanNext | app/tetris/TetrisComponent.tsx:757-764 | a scan extended by one row either keeps that row at the end of the survivors or adds one to the count |
| Rows.SurvivorsOfIncomplete | app/tetris/TetrisComponent.tsx:757-764 | a board with no complete row is kept unchanged and counts zero lines |
| Rows.FullCountPositive | app/tetris/TetrisComponent.tsx:757-764 | the line count is positive iff some row is complete |
| Rows.Cleared | app/tetris/TetrisComponent.tsx:753-768 | clearing keeps the height, and no row of the result is complete, provided the blank row is incomplete |
| Rows.PartlyCleared | app/tetris3js/Tetris3D.tsx:310-318 | the in-place clearing state has one row per blank, unexamined row and survivor; it has the input's height once the blanks equal the complete rows examined |
| Rows.PartlyClearedStart | app/tetris3js/Tetris3D.tsx:310-318 | before any row is examined, the state is the merged board itself |
| Rows.PartlyClearedDone | app/tetris3js/Tetris3D.tsx:310-318 | after every row is examined, the state is the cleared board |
| Rows.RemoveNext | app/tetris3js/Tetris3D.tsx:312-314 | splicing out a complete row at the scan index and unshifting a blank row moves the state one row up with one more blank, and adds one to the count |
| Rows.KeepNext | app/tetris3js/Tetris3D.tsx:315-316 | passing an incomplete row leaves the board as it is and moves the state one row up, with the count unchanged |
| Tetris.CheckCollision | app/tetris/TetrisComponent.tsx:650-667 | the nested scan returns true iff some filled cell, shifted by the offset, lands on x < 0, x >= 16 or y >= 20, or at y >= 0 on an occupied cell; filled cells above the top are tested only against the side walls and the floor |
| Tetris.CollidesShifted | app/tetris/TetrisComponent.tsx:780-791 | testing a piece moved by (dx, dy) at offset 0 is testing the original at offset (dx, dy) |
| Tetris.NoCollisionFits | app/tetris/TetrisComponent.tsx:674-688 | a piece that does not collide has every filled cell at row >= 0 inside the board, which the unchecked write of the merge needs |
| Tetris.Merged | app/tetris/TetrisComponent.tsx:674-688 | merging keeps the board 16 x 20 |
| Tetris.MergePiece | app/tetris/TetrisComponent.tsx:674-688 | the copy holds the piece's colour exactly at the filled cells with row >= 0 and equals the input everywhere else |
| Tetris.ClearedBoard | app/tetris/TetrisComponent.tsx:753-768 | the cleared board is 16 x 20 with no complete row |
| Tetris.ClearLines | app/tetris/TetrisComponent.tsx:753-778 | the count is the number of complete rows; the result is that many empty rows above the incomplete rows in their order, which is the cleared board and so 16 x 20 with no complete row |
| Tetris.CreatePrefilledBoard | app/tetris/TetrisComponent.tsx:576-616 | rows 0 to 9 are empty; every cell of rows 10 to 19 outside the worm holes holds the palette colour chosen for it; the worm holes are empty |
| Tetris.PrefilledRows | app/tetris/TetrisComponent.tsx:585-613 | on the starting board rows 0 to 9 are empty, and row 10 is its one complete row, since no hole condition matches row 10 |
| Tetris.NewPiece | app/tetris/TetrisComponent.tsx:638-648 | the new piece has the entry's shape and colour, starts on row 0, and is centred and inside the board, leaning left when the margins cannot be equal |
| Tetris.SkinShapesAreSmall | app/tetris/TetrisComponent.tsx:56-100 | every skin shape is a well-formed matrix of at most 2 rows and 4 columns with a filled cell |
| Tetris.SpawnOnPrefilled | app/tetris/TetrisComponent.tsx:638-648 | a newly created skin piece never collides with a starting board |
| Tetris.DropDistance | app/tetris/TetrisComponent.tsx:839-853 | the loop stops for a shape with a filled cell; at the result d the piece does not collide at any offset 1..d and collides at d + 1 |
| Tetris.Level | app/tetris/TetrisComponent.tsx:966-968 | the level is at least 1 |
| Tetris.DropInterval | app/tetris/TetrisComponent.tsx:950 | the gravity interval is never below 100 ms |
| Tetris.LevelSpeedsUp | app/tetris/TetrisComponent.tsx:949-968 | more lines never lower the level or raise the interval; from 90 lines on the interval is 100 ms |
| Tetris.SwapWithHead | app/tetris/TetrisComponent.tsx:1746-1754 | the clicked entry and the head change places, every other entry stays, and the queue is a permutation of the old one |
| TetrisGame.Deck | app/tetris/TetrisComponent.tsx:971-975 | the dealt queue has one new piece per chosen entry, in order |
| TetrisGame.SkinPiecesArePlayable | app/tetris/TetrisComponent.tsx:638-648 | a new piece from a skin entry has a skin shape and fits inside the board |
| TetrisGame.Game.constructor | app/tetris/TetrisComponent.tsx:971-975 | after mounting the board is prefilled, the queue is dealt, counters are zero, level 1, and the invariant holds with the current piece clear of the board |
| TetrisGame.Game.ResetGame | app/tetris/TetrisComponent.tsx:998-1010 | a new prefilled board, zero score and lines, level 1, a new deal, not over, not paused |
| TetrisGame.Game.ChangeSkin | app/tetris/TetrisComponent.tsx:971-975 | a skin change deals a new queue and current piece and leaves board, counters and flags alone |
| TetrisGame.Game.MovePiece | app/tetris/TetrisComponent.tsx:780-826 | a move is adopted iff it does not collide; a colliding move with dy <= 0 changes nothing; a colliding move down lands the piece; an inactive game changes nothing; the falling piece stays clear of the board |
| TetrisGame.Game.Land | app/tetris/TetrisComponent.tsx:792-811 | the board becomes the cleared merge; lines go up by n and score by n * 100 * level; level follows lines; the game is over iff the queue head collides with the new board, otherwise the head becomes current and one piece is appended |
| TetrisGame.Game.Settle | app/tetris/TetrisComponent.tsx:792-799 | the board becomes the cleared merge, lines go up by the complete-row count n, score by n * 100 * level, the level follows the lines, and the piece, queue and flags are unchanged |
| TetrisGame.Game.TakeNext | app/tetris/TetrisComponent.tsx:801-811 | the game is over iff the queue head collides with the board, and then piece and queue stay; otherwise the head becomes current and the queue is its tail plus one new piece; board and counters are unchanged |
| TetrisGame.Game.Rotate | app/tetris/TetrisComponent.tsx:828-837 | the quarter-turned piece replaces the current one iff it does not collide; nothing else changes |
| TetrisGame.Game.HardDrop | app/tetris/TetrisComponent.tsx:839-853 | the piece moves straight down by d, where every offset 1..d is clear and d + 1 is the first collision; nothing else changes |
| TetrisGame.Game.TogglePause | app/tetris/TetrisComponent.tsx:862-882 | the paused flag flips while the game is running and stays as it is once the game is over, since the key handler returns first and the button is disabled |
| TetrisGame.Game.SwapQueue | app/tetris/TetrisComponent.tsx:1746-1754 | the queue becomes the swap of the clicked entry with the head |
| Tetris3D.ColorOf | app/tetris3js/Tetris3D.tsx:13-21 | every piece colour is nonzero, so a locked cell is never read as empty |
| Tetris3D.ShapesAreWellFormed | app/tetris3js/Tetris3D.tsx:23-59 | every one of the seven shapes is a well-formed matrix of at most 4 x 4 with a filled cell |
| Tetris3D.CheckCollision | app/tetris3js/Tetris3D.tsx:270-290 | true iff some filled cell, moved by the offset, is outside columns 0..9, at or below row 20, or at row >= 0 on a nonzero cell |
| Tetris3D.CollidesMoved | app/tetris3js/Tetris3D.tsx:331-347 | testing the moved piece in place is testing the original at the offset |
| Tetris3D.Spawned | app/tetris3js/Tetris3D.tsx:243-254 | the spawned piece has the kind's shape and colour, y = 0, and x = floor((10 - w) / 2), which puts it inside the board with margins differing by at most one |
| Tetris3D.CheckSpawn | app/tetris3js/Tetris3D.tsx:256-264 | the spawn scan is true iff some filled cell (py, px) hits a nonzero board[py][x + px] |
| Tetris3D.SpawnTestAtTop | app/tetris3js/Tetris3D.tsx:256-264 | for a piece on row 0 inside the board, the spawn scan is exactly the collision test |
| Tetris3D.SpawnTestIsCollision | app/tetris3js/Tetris3D.tsx:243-267 | the game-over test of a spawned piece is exactly its collision with the board |
| Tetris3D.Stamped | app/tetris3js/Tetris3D.tsx:295-307 | stamping keeps the board 10 x 20 |
| Tetris3D.StampPiece | app/tetris3js/Tetris3D.tsx:295-307 | the copy holds the colour exactly at the filled cells inside the board; every other cell is unchanged |
| Tetris3D.ClearedBoard | app/tetris3js/Tetris3D.tsx:310-318 | the cleared board is 10 x 20 with no complete row |
| Tetris3D.ClearStep | app/tetris3js/Tetris3D.tsx:310-318 | one pass of the loop body moves the in-place clearing state on: a complete row at y is spliced out with an empty row unshifted and one more blank counted, an incomplete row moves the scan up with the count unchanged |
| Tetris3D.ClearFullRows | app/tetris3js/Tetris3D.tsx:310-318 | the loop that re-examines the same index ends; the count is the number of complete rows of the merged board; the board is the incomplete rows in order under that many empty rows |
| Tetris3D.DropDistance | app/tetris3js/Tetris3D.tsx:389-397 | the loop ends; the piece is clear at every offset 1..d and collides at d + 1 |
| Tetris3DGame.Game.constructor | app/tetris3js/Tetris3D.tsx:77-81 | an all-zero board, no piece, score 0, not over |
| Tetris3DGame.Game.SpawnPiece | app/tetris3js/Tetris3D.tsx:243-267 | with no piece and no game over, the game is over iff the spawned piece collides, and otherwise it becomes current; board and score are unchanged |
| Tetris3DGame.Game.MovePiece | app/tetris3js/Tetris3D.tsx:331-347 | a move is adopted iff it does not collide; a colliding move with dy > 0 locks the piece; any other colliding move, or no piece, changes nothing |
| Tetris3DGame.Game.LockPiece | app/tetris3js/Tetris3D.tsx:293-328 | the board becomes the cleared stamp, the score goes up by 100 per cleared line regardless of level, and the current piece becomes null |
| Tetris3DGame.Game.RotatePiece | app/tetris3js/Tetris3D.tsx:350-359 | the quarter-turned piece is adopted iff it does not collide; board, score and game over are unchanged |
| Tetris3DGame.Game.HardDrop | app/tetris3js/Tetris3D.tsx:389-397 | the piece moves down by d, where every offset 1..d is clear and d + 1 collides, and is not locked |
| Tetris3DGame.Game.Restart | app/tetris3js/Tetris3D.tsx:364-373 | when the game is over: an all-zero board, score 0, not over, no piece; otherwise nothing changes |
| Terracotta.TetrominosAreWellFormed | app/terracotta/page.tsx:39-47 | every tetromino is a well-formed matrix of at most 2 x 4 with a filled cell |
| Terracotta.IsValidMove | app/terracotta/page.tsx:222-236 | a valid position keeps every filled cell between the side walls and above the floor |
| Terracotta.ValidMoveIsInBoundsAndDisjoint | app/terracotta/page.tsx:222-236 | a move is valid iff every filled cell has 0 <= x < 27 and y < 30 and no covered cell is filled |
| Terracotta.StartIsValidOnEmpty | app/terracotta/page.tsx:293-296 | every tetromino is valid at (12, 0) on an empty board |
| Terracotta.Rotate | app/terracotta/page.tsx:215-220 | the rotated piece keeps its kind, is well formed, has its dimensions swapped and keeps its filled-cell count |
| Terracotta.Merged | app/terracotta/page.tsx:241-248 | merging keeps the board 27 x 30 |
| Terracotta.FillPiece | app/terracotta/page.tsx:241-248 | the copy is true exactly at the filled cells with row >= 0 and equal to the input elsewhere |
| Terracotta.MergeChangesCoveredCells | app/terracotta/page.tsx:241-248 | after a valid move, a cell changes iff the piece covers it |
| Terracotta.FullRowsAmong | app/terracotta/page.tsx:251-258 | the scan of rows n-1 down to 0 lists one entry per complete row among them |
| Terracotta.FullRows | app/terracotta/page.tsx:251-258 | the scan of the whole board lists one entry per complete row |
| Terracotta.FullRowsAmongSpec | app/terracotta/page.tsx:251-258 | the complete rows below a bound are listed strictly descending, each complete, all of them, as many as the complete rows |
| Terracotta.FullRowsSpec | app/terracotta/page.tsx:251-258 | the same for the whole board |
| Terracotta.ScanStep | app/terracotta/page.tsx:251-258 | one iteration of the bottom-up scan appends y exactly when row y is complete, keeping the list equal to the complete rows of the board |
| Terracotta.LinesToClear | app/terracotta/page.tsx:251-258 | the bottom-up scan returns the descending list of complete rows and its length |
| Terracotta.ClearedBoard | app/terracotta/page.tsx:279-284 | the intended cleared board is 27 x 30 with no complete row |
| Terracotta.RemoveRow | app/terracotta/page.tsx:281-282 | one splice plus unshift keeps the height |
| Terracotta.RemoveRows | app/terracotta/page.tsx:279-284 | the removal as written keeps the height |
| Terracotta.RemoveClearedLines | app/terracotta/page.tsx:280-283 | the `forEach` loop computes the removal as written |
| Terracotta.AdjacentRowsLeftBehind | app/terracotta/page.tsx:279-284 | with rows y and y + 1 complete, the removal leaves complete row y at y + 1 and differs from the cleared board |
| Terracotta.FullRowsOfAdjacentPair | app/terracotta/page.tsx:251-258 | when exactly rows y and y + 1 are complete, the scan lists [y + 1, y] |
| Terracotta.SingleRowRemoval | app/terracotta/page.tsx:279-284 | with exactly one complete row y, the removal drops that row, shifts rows 0..y-1 down by one, puts an empty row on top, and equals the cleared board |
| Terracotta.RemoveRowsShifted | app/terracotta/page.tsx:279-284 | the removal with each index offset by the rows already removed keeps the height |
| Terracotta.RemoveRowsCorrected | app/terracotta/page.tsx:279-284 | the corrected removal keeps the height |
| Terracotta.RemoveShiftedStep | app/terracotta/page.tsx:279-284 | examining one more row of an in-place clearing state: a complete row is removed at its offset index with an empty row on top, an incomplete row is kept, and the state moves on |
| Terracotta.RemoveShiftedClears | app/terracotta/page.tsx:279-284 | applied to an in-place clearing state, the corrected removal of the remaining complete rows finishes the clearing |
| Terracotta.RemoveRowsCorrectedClears | app/terracotta/page.tsx:279-284 | the corrected removal of the scanned rows is the cleared board: height kept, incomplete rows in order, no complete row |
| Terracotta.LowestValid | app/terracotta/page.tsx:324-331 | the loop ends; the result is at least the start row, every row down to it is valid, and the next is not |
| TerracottaGame.Game.constructor | app/terracotta/page.tsx:350-354 | an empty board, a first tetromino valid at (12, 0), score 0, no cleared lines, not over |
| TerracottaGame.Game.MergePiece | app/terracotta/page.tsx:238-302 | the board becomes the merge when no row is complete and is otherwise left for the deferred removal; the score goes up by 100 per complete row; the game is over iff it was, or the next tetromino is invalid at (12, 0) against the board before the merge; otherwise that tetromino is current at (12, 0) |
| TerracottaGame.Game.Move | app/terracotta/page.tsx:304-313 | with a piece and the game running: a valid move is adopted and nothing else changes; an invalid move down has exactly the effect of the merge; any other invalid move changes nothing |
| TerracottaGame.Game.RotatePiece | app/terracotta/page.tsx:315-322 | the rotated piece is adopted iff valid where it is; nothing else changes |
| TerracottaGame.Game.Drop | app/terracotta/page.tsx:324-333 | with a piece and the game running, the piece stays in its column and moves down to the last valid row before the first invalid one; otherwise it stays |
| TerracottaGame.Game.GhostPosition | app/terracotta/page.tsx:369-377 | no ghost without a piece; otherwise it is in the piece's column, at or below the piece, on the last valid row before the first invalid one |
| Brightness.HexDigit | app/tetris/TetrisComponent.tsx:986-994 | each value below 16 prints as a hex digit that parses back to it |
| Brightness.ToHexRoundTrip | app/tetris/TetrisComponent.tsx:986-994 | `toString(16)` of a natural number is non-empty and parses back to that number |
| Brightness.ColorValue | app/tetris/TetrisComponent.tsx:979-983 | the parsed number of a `#rrggbb` colour is red * 65536 + green * 256 + blue |
| Brightness.Unpack | app/tetris/TetrisComponent.tsx:979-983 | the shifts and masks take back each channel of the parsed number |
| Brightness.Repack | app/tetris/TetrisComponent.tsx:984-994 | packing clamped channels gives a number whose digits after the leading 1 are the six channel digits |
| Brightness.ChannelsOfHex | app/tetris/TetrisComponent.tsx:984-994 | the two-digit form of each clamped channel decodes back to it |
| Brightness.Readjusted | app/tetris/TetrisComponent.tsx:984-994 | unpacking, shifting, clamping, packing above a leading 1 and printing without it gives `#` and the two-digit forms of the three clamped, adjusted channels |
| Brightness.AdjustBrightness | app/tetris/TetrisComponent.tsx:978-995 | the result is `#` followed by the two-digit forms of the clamped, adjusted channels; it is again a `#rrggbb` colour whose channels are each the input channel plus the amount, clamped to [0, 255] |

## Left out

- Rendering: canvas drawing, `draw3DBrick`, skin visuals, the Three.js scene and the block and fragment CSS. None of it affects the grid.
- Explosion particles and their float physics, including the explosion side effect of `clearLines`. They do not change the board.
- Gravity timers, `requestAnimationFrame` loops and `setInterval`. They only decide when `MovePiece(0, 1)` is called; the gravity formula itself is modelled (`Tetris.DropInterval`).
- The timer-deferred lock after the first game's hard drop, and terracotta's deferred merge after `drop`. These callbacks capture state from before the position update, so their effect depends on React scheduling. `HardDrop` and `Drop` model only the position part.
- The 300 ms delayed row removal in terracotta. `TerracottaGame.Game.MergePiece` leaves the board unmerged when rows are complete, as the code does before the timer fires. The removal itself is modelled on its own (`Terracotta.RemoveRows`) and is not wired to a timer event.
- Keyboard and touch wiring. Touch-direction classification is float division and is left out; each key maps to one modelled method.
- `Math.random`: piece kind, skin entry and prefill colour are parameters.
- `Tetris.LinePoints`: carries no contract of its own; its effect is stated by `TetrisGame.Game.Land`.
- `TetrisGame.Game.ChangeSkin`: does not promise that the new current piece is clear of the board, because the source deals it without a collision test.
- `TerracottaGame.Game`: the invariant does not promise that the falling piece is clear of the board. The spawn test uses the board from before the merge, so a new piece can overlap the cells just merged.
- Pausing in the first game only stops timers and input. `TogglePause` models the flag; the `Active` guard models its effect on the handlers.
- `Brightness.AdjustBrightness`: models only `#rrggbb` input. Three-digit colours and malformed strings, which the source would parse to `NaN` or to a shorter value, are left out. The 32-bit semantics of `>>` and `&` do not matter below 2^24 and are not modelled. `amt` is the integer `Math.round(2.55 * percent)` and is a parameter; the float rounding is left out.
- The pool games, high-score storage, the service worker, native bridges and the application shell are not part of this model.

## Findings

| source | as written | input that shows it | evidently intended | confidence | as-written member | corrected member |
|---|---|---|---|---|---|---|
| app/terracotta/page.tsx:279-284 | the complete rows, listed largest index (bottom row) first, are each spliced out and an empty row unshifted at once, so after the first removal every smaller index points one row too high | a board whose rows 28 and 29 are complete and whose other rows are empty: the list is [29, 28]; removing 29 moves complete row 28 to 29, then splicing 28 removes the empty row 27, and a complete row remains at 29 | every complete row is removed, the incomplete rows keep their order, and as many empty rows as were removed appear on top | not executed | Terracotta.AdjacentRowsLeftBehind | Terracotta.RemoveRowsCorrectedClears |
