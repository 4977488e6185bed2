# Tetris rules engine in Dafny

This project models the rules engine of a terminal Tetris game written in Rust. The engine has:

- a rectangular field of cell colours;
- an active piece: a 4x4 shape at a position;
- a hold slot, a score and a cleared-line counter.

A few small operations change these:

- the piece moves, rotates with a one-cell kick fallback, and drops;
- a landed piece is locked into the field, and full rows are cleared;
- score and line counters grow, and the next piece is spawned;
- the current piece can be held once per piece.

Module layout:

- `Block` (`block.dfy`): the colour constants, `BlockKind` and the seven base shapes.
- `Rotation` (`rotation.dfy`): the two 4x4 rotations.
- `Positions` and `Kick` (`position.dfy`): positions, the spawn point and the kick search.
- `Collision` (`collision.dfy`): the field as a value, and the specification functions for collision, locking, line clearing and dropping.
- `GameState` (`game.dfy`): the `Game` record as a class. It holds the field as an array of rows and has `View`, a snapshot of all its fields.
- `GameControl` (`game_control.dfy`): spawning, holding and starting a game.
- `BlockControl` (`block_control.dfy`): the active-piece controller.

The operations that change state in the source are module-level methods that take a `Game` or the field array and update them in place. Each method is proved against a specification function:

- `FixBlock` against `Locked`;
- `EraseLine` against `EraseScan`;
- `GhostPos` and `HardDrop` against `DropTarget`;
- `RotateRight` and `RotateLeft` against `Rotated`;
- `Hold` against `Held`;
- `SuperRotation` against `FirstFree`.

The properties of those functions are proved as lemmas.

The field module of the program (`Field`, `FIELD_HEIGHT`, `FIELD_WIDTH`, `TEMPLATE_FIELD`) is not part of this model. The field dimensions are the dimensions of the grid. What the engine needs of them is stated as `IsField`:

- the grid is rectangular;
- it has at least 3 rows;
- it has at least 2 columns.

The template field is a parameter of `Game`'s constructor. The random choice of a piece (`rand::random::<BlockKind>()`) becomes a `BlockKind` parameter.

## Model

| member | source | states |
|---|---|---|
| Block.BlockKind.Color | src/block.rs:17-28 | the colour constant of the k-th kind is k+3 |
| Block.ColorsDistinct | src/block.rs:17-28 | NONE, WALL, GHOST and the seven piece colours are 0..9 and pairwise distinct |
| Block.IndexInjective | src/block.rs:4-13 | distinct kinds have distinct table indices, so they select distinct shapes and colours |
| Block.WithCell | src/block.rs:45 | writing one cell of a 4x4 shape changes exactly that cell |
| Block.BaseShapeWellFormed | src/block.rs:46-61 | every base shape has exactly 4 non-NONE cells. Every such cell has its kind's colour. Every cell is below 10, the length of the colour table. Rows 0 and 3 are empty |
| Rotation.TurnsAreInverse | src/block_control.rs:72-76 | the left turn `new[3-x][y] = old[y][x]` undoes the right turn `new[y][x] = old[3-x][y]`, in both orders |
| Rotation.FourRightTurnsAreIdentity | src/block_control.rs:72-76 | four right turns give back the original shape |
| Rotation.TurnsKeepCellCount | src/block_control.rs:72-76 | both turns keep the number of non-NONE cells |
| Collision.IsCollision | src/block_control.rs:9-22 | true exactly when some non-NONE shape cell maps inside the field onto a non-NONE field cell |
| Collision.OutsideCellIgnored | src/block_control.rs:12-14 | a shape cell mapped outside the field never changes the answer, whatever its colour |
| Collision.Locked | src/block_control.rs:25-37 | the locked field keeps the field's dimensions |
| Collision.LockedPieceOccupiesItsCells | src/block_control.rs:30-36 | locking keeps every occupied cell occupied. A locked piece with a cell inside the field collides where it was locked |
| BlockControl.FixBlock | src/block_control.rs:25-37 | the field becomes `Locked`: the cells under the shape take its colours and all other cells stay. Position, shape, hold and counters are unchanged |
| Collision.ShiftDown | src/block_control.rs:52-54 | shifting keeps the field's dimensions |
| Collision.ShiftedRows | src/block_control.rs:52-54 | a grid whose rows 2..y hold the rows above them, and whose other rows are unchanged, is `ShiftDown` |
| BlockControl.ShiftRows | src/block_control.rs:52-54 | copying row y2-1 into row y2, for y2 from y down to 2, leaves the field equal to `ShiftDown` |
| Collision.EraseScan | src/block_control.rs:40-58 | the scan keeps the field's dimensions and returns as its count the number of full rows (`CountFull`) |
| Collision.CountFullReadsScannedRows | src/block_control.rs:42-49 | the count depends only on the rows the scan examines. A shift, which changes only rows above the scan point, does not change how many of the remaining rows are full |
| Collision.EraseScanFrame | src/block_control.rs:40-58 | the count is at most H-3. Rows 0 and 1 and the two bottom rows are never overwritten. A count of 0 leaves the field unchanged |
| Collision.NoFullRowNoChange | src/block_control.rs:40-58 | with no full row in the scanned range, the result is the field unchanged and 0 |
| Collision.NoFullRowCountsZero | src/block_control.rs:42-49 | with no full row from y on, `CountFull` is 0 |
| Collision.EraseAdvance | src/block_control.rs:42-55 | one row of the scan keeps the loop invariant: a full row is counted and shifted, any other row is passed over |
| Collision.EraseDone | src/block_control.rs:42-57 | when the scan reaches row H-2, the invariant gives the result of the whole scan |
| Positions.Init | src/position.rs:10-12 | the spawn coordinate is (x 5, y 0) |
| Positions.Candidates | src/position.rs:19-40 | the `diff_pos` array: up (y-1 saturating at 0), right, down, left (x-1 saturating at 0) |
| Rotation.RotatedRight | src/block_control.rs:72-76 | the right turn `new[y][x] = old[3-x][y]` |
| Rotation.RotatedLeft | src/block_control.rs:89-93 | the left turn `new[3-x][y] = old[y][x]` |
| Collision.Collides | src/block_control.rs:9-22 | some non-NONE shape cell maps inside the field onto a non-NONE field cell |
| Block.BaseShape | src/block.rs:46-61 | `BLOCKS[kind as usize]`, with `BLOCKS` the seven literal shapes of the source cell for cell |
| Collision.SkipFreeRows | src/block_control.rs:42-49 | rows that are not full are passed over by the scan without changing anything |
| Collision.SingleFullRow | src/block_control.rs:40-58 | with exactly one full row y, the result is `ShiftDown(g, y)` (rows above y move down one) and the count is 1 |
| Collision.FullRowOneStays | src/block_control.rs:42-54 | a full row 1 is counted but never cleared: it stays in place and stays full |
| BlockControl.EraseLine | src/block_control.rs:40-58 | the field and the count returned equal `EraseScan(old field, 1)` |
| BlockControl.MoveBlock | src/block_control.rs:61-66 | the position becomes `newPos` exactly when the shape does not collide there. Otherwise nothing changes. The field and the shape never change |
| BlockControl.Rotated | src/block_control.rs:77-82 | only position and shape change. A committed (position, shape) pair is collision-free, at the old position or at a kick candidate. The position changes only when the shape collides at the old position. The state is unchanged only when the old position and all four candidates collide |
| BlockControl.RotateRight | src/block_control.rs:70-83 | the new state is `Rotated` with the right turn of the active shape |
| BlockControl.RotateLeft | src/block_control.rs:87-100 | the new state is `Rotated` with the left turn of the active shape |
| BlockControl.Commit | src/block_control.rs:77-82 | trying a new shape in place, then the kick candidates, gives `Rotated` |
| Collision.CollisionIsAboveBottom | src/block_control.rs:12-15 | a colliding position has its row inside the field |
| Collision.LandsBelow | src/block_control.rs:104-112 | a landing piece has a row below it. If that row is free, the piece still lands from there |
| Collision.DropTarget | src/block_control.rs:137-145 | the resting position has the same x and a y at or below the start, and the next position down collides |
| Collision.DropPassesOnlyFreeRows | src/block_control.rs:137-145 | every row passed on the way down is free, so the target is the first position above a collision |
| Collision.DropTargetIsFree | src/block_control.rs:104-112 | a piece that starts free is still free where it comes to rest |
| Collision.DropAdvance | src/block_control.rs:137-145 | one step down keeps the drop loop's invariant |
| Collision.DropArrive | src/block_control.rs:137-145 | when the next row collides, the current position is the drop target |
| Collision.FloorStopsPiece | src/block_control.rs:104-112 | a non-NONE shape cell above a fully occupied bottom row guarantees that the drop loops end |
| BlockControl.GhostPos | src/block_control.rs:135-147 | the returned position is `DropTarget` of the inputs |
| BlockControl.HardDrop | src/block_control.rs:103-115 | the position becomes `DropTarget`, the same position `GhostPos` returns. Nothing else changes |
| BlockControl.Landing | src/block_control.rs:118-132 | the field is locked then cleared. The score grows by `SCORE_TABLE[count]` and the line counter by the count. The next piece is spawned at the spawn point. `holded` is reset only when the spawn succeeds, and the result is `Err` exactly when the new piece collides |
| Positions.CandidatesAreNeighbours | src/position.rs:19-40 | four candidates in the order up, right, down, left. Each is at most one cell from `pos` along one axis. Up equals `pos` exactly when y is 0, and left exactly when x is 0 |
| Kick.FirstFree | src/position.rs:41-46 | `Ok(p)`: p is a candidate that does not collide, and every earlier candidate collides. `Err` exactly when every candidate collides |
| Kick.SuperRotation | src/position.rs:17-47 | the result is `FirstFree` over the four candidates of `pos` |
| GameControl.SpawnBlock | src/game_control.rs:29-40 | the position becomes `Init()` and the shape the base shape of the kind. Nothing else changes. `Err` exactly when the new piece collides |
| GameControl.Held | src/game_control.rs:112-129 | holding never touches field or counters and always sets `holded`. A second hold is a no-op. Otherwise the old shape goes to the hold slot, the held shape (or a fresh spawn) becomes active, and the position returns to the spawn point |
| GameControl.HoldOncePerPiece | src/game_control.rs:113-116 | two holds with no landing in between act as one |
| GameControl.Hold | src/game_control.rs:112-129 | the new state is `Held` of the old one |
| GameState.ScoreTableIncreasing | src/game.rs:41-47 | the table has exactly 5 entries, from 0 to 100, strictly increasing |
| GameState.Game.constructor | src/game.rs:23-33 | the record starts from the template field at the spawn point with the given piece, an empty hold, `holded` false and both counters 0 |
| GameControl.NewGame | src/game.rs:22-37 | `Game::new`: the initial record, after one spawn whose result is ignored |

## Left out

- Drawing (`draw`), `gameover`, `quit` and the `COLOR_TABLE` strings are terminal output only. Only the table's length (10) appears, as a bound on cell colours.
- `src/main.rs` is an earlier prototype with threads, keyboard input and a 0/1 cell encoding. It is not part of this model.
- Randomness: each random piece choice is a `BlockKind` parameter.
- The next-piece queue (`next`, `next_buf`, `gen_block_7`) is only declared and initialised in the shown code, and `spawn_block` does not use it. It is left out. `NEXT_LENGTH` is kept as a constant.
- The gravity timer and the input thread are concurrency and are left out. The single steps they trigger (`MoveBlock`, `Landing`) are modelled.
- The field module is not part of this model. Its sizes are the grid's dimensions, and its template is a constructor parameter.
- `usize` overflow: positions, score and line counter are unbounded naturals. In the source an overflowing `+=` panics in debug builds and wraps around in release builds. The model drops both.
- The source declares `Game` twice. The 5-field record in `src/game_control.rs:8-14` is not modelled. The 9-field record of `src/game.rs` is, without `next` and `next_buf`.
- BlockControl.FixBlock: requires every non-NONE shape cell to lie inside the field, because the source indexes the field without a check and would panic otherwise.
- BlockControl.Landing: requires the locked field to have at most 4 full rows, because `SCORE_TABLE[line]` would panic otherwise.
- BlockControl.HardDrop: requires that the piece lands somewhere below its position (`Lands`), because the source's loop does not end otherwise. `GhostPos` has the same precondition.
- Line clearing follows the code, not the usual rule in which an empty row enters at the top. The code copies rows 2..y from the rows above and never writes row 1, so row 1 is duplicated into row 2.
- A full row 1 is counted, because the scan starts at row 1, but it is never cleared, because the shift range `2..=1` is empty. It is counted again at every later landing, and every later clear copies it into row 2 (`FullRowOneStays`). This is one way the count can exceed 4, which the `Landing` precondition excludes.
