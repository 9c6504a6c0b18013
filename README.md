# LED-matrix Tetris engine, modelled in Dafny

This project models the game engine of an ESP32 falling-block game that is
drawn on a 16 × 24 LED matrix. The model covers:

- the playing field: `uint8_t grid[24][16]`, where 0 is empty and `color + 1` is a locked cell;
- the seven tetrominoes and the quarter turn;
- the collision test, the locking of a landed piece, and the row clear with per-column gravity;
- the score and speed managers;
- the debounced button input;
- one pass of the main loop in the running state: input, automatic fall, lock and spawn, render.

The source's module-level state (the grid, the managers' counters, the
debounce tables, the falling block, the renderer's shadow list) is held by
classes whose methods update it in place. Each method is proved against a
value-level definition (`Board.Collides`, `Board.Fixed`, `Board.ClearedBoard`,
`Speed.IntervalFor`, `Spawn.SpawnResult`, `Render.VisibleCells`, ...). The
properties the game relies on are lemmas about those definitions.

The game's invariant, `GameLoop.Game.Valid`, is required and ensured by each
operation of the main loop. Besides the shapes of the arrays and tables, it
says that the falling block's colour is a block type (0 to 6) and that every
grid cell is at most 7, so every locked cell is the colour id of a type plus
one (`Board.LockedColoursInRange`).

Modules:

- `Config`: board size, timing constants, `uint32_t` subtraction (Globals.h).
- `Blocks`: the `TetrisBlock` value, the block table, `rotate_block_90`, `assign_block_color` (Blocks.c).
- `Board`: the grid as a value. Defines collision, fixing, full rows, zeroing and column packing.
- `Grid`: class `Grid` over a 24 × 16 `array2`. Implements `grid_init`, `grid_check_collision`, `grid_fix_block` and `grid_clear_full_rows` (Grid.c).
- `Speed`: class `SpeedManager` and the threshold table (SpeedManager.c).
- `Score`: class `ScoreManager` and the line bonus (Score.c).
- `Controls`: class `Controls`. Holds the three debounce tables and the event queue as a sequence (Controls.c).
- `Spawn`: the spawn search order and its result, as values.
- `Render`: the pixel writes of `render_grid` as values, and the frame they produce.
- `GameLoop`: class `Game`. Covers spawn and game over, new game, and one running pass: input, fall, render (GameLoop_NEW.c and the older GameLoop.c).

GameLoop_NEW.c and GameLoop.c contain the same `spawn_block`, `render_grid`
and running-state code. They differ only in how the wait, game-over and reset
sequences are written. Both are therefore modelled by the one `Game` class.

In these places the code behaves differently from what a reader might
expect, and the model follows the code:

- The four rotations in the block table are not, in general, quarter turns of
  one another (`Blocks.TableRotationsNotQuarterTurns`, the J block). The game
  only takes rotation 0 from the table. Every later rotation goes through
  `rotate_block_90`.
- Packing works per column, so a clear can build a new full row. That row is
  not cleared in the same call (`Board.ClearedBottomRowFull`,
  `Board.ClearCanLeaveFullRow`). The model does not claim that no row is full
  after a clear.
- The header comment of SpeedManager.c (lines 8-19) describes one speed
  level per 10 cleared lines, down to 50 ms at 100 lines. The table at lines
  31-43 steps at 2, 5, 10, 15, ..., 45 lines instead, so 50 ms is reached at
  45 lines. The model follows the table (`Speed.IntervalSamples`).
- `speed_manager_update_score` overwrites its total with the score's
  cumulative count. It does not add to it.
- A row that wraps the `uint32_t` line total is reduced modulo 2^32. An
  `int` score is compared with the `uint32_t` highscore after conversion to
  `uint32_t`, as C's usual arithmetic conversions do.

## Model

| member | source | states |
|---|---|---|
| `Config.SubU32` | TetrisCode/main/src/Controls/Controls.c:64 | the `uint32_t` difference `now - last`: the plain difference when `now >= last`, otherwise wrapped by 2^32 |
| `Blocks.RotateBlock90` | TetrisCode/main/src/PlayingField/Blocks.c:71-79 | the loops via `temp` leave `shape[r][c] = old[3-c][r]` for every cell; `x`, `y` and `color` are unchanged |
| `Blocks.RotatedFourTimes` | TetrisCode/main/src/PlayingField/Blocks.c:73-78 | four quarter turns give back the original mask |
| `Blocks.RotatedTwice` | TetrisCode/main/src/PlayingField/Blocks.c:73-78 | two quarter turns are the half turn `(r, c) -> (3-r, 3-c)` |
| `Blocks.RotatedPreservesCount` | TetrisCode/main/src/PlayingField/Blocks.c:73-78 | a quarter turn keeps the number of occupied cells |
| `Blocks.AssignBlockColor` | TetrisCode/main/src/PlayingField/Blocks.c:61-63 | only the colour changes; it becomes the block type (reduced to `uint8_t`) |
| `Blocks.TableEntry` | TetrisCode/main/src/PlayingField/Blocks.c:9-59 | every table entry has four occupied cells, is anchored at (0, 0) and is coloured with its type index |
| `Blocks.TableShapesWellFormed` | TetrisCode/main/src/PlayingField/Blocks.c:9-59 | the table has 7 types of 4 entries, each with four occupied cells, `x = y = 0` and `color` equal to the type |
| `Blocks.OBlockEntriesIdentical` | TetrisCode/main/src/PlayingField/Blocks.c:33-36 | the four O-block entries are the same |
| `Blocks.RotatingOMovesIt` | TetrisCode/main/src/PlayingField/Blocks.c:33 | a quarter turn of the O square moves it inside the 4×4 frame, which is why the loop never turns it |
| `Blocks.TableRotationsNotQuarterTurns` | TetrisCode/main/src/PlayingField/Blocks.c:19-20 | table rotation 1 of the J block is not `rotate_block_90` of rotation 0 |
| `Board.EmptyBoard` | TetrisCode/main/src/PlayingField/Grid.c:15 | the all-empty board: every cell is 0 |
| `Board.CollidesOnlyThroughOccupied` | TetrisCode/main/src/PlayingField/Grid.c:21-40 | unoccupied mask cells never affect the collision verdict |
| `Board.EmptyBoardNoCollision` | TetrisCode/main/src/PlayingField/Grid.c:21-40 | a block whose 4×4 frame lies inside the board never collides with the empty board |
| `Board.OccupiedCellCollides` | TetrisCode/main/src/PlayingField/Grid.c:33-36 | an occupied cell over a locked visible cell makes the block collide, whatever the rest of the block does |
| `Board.FixedMarksBlock` | TetrisCode/main/src/PlayingField/Grid.c:42-49 | fixing sets exactly the visible covered cells to `color + 1`, leaves every other cell unchanged and never empties a cell |
| `Board.FixedBlockCollides` | TetrisCode/main/src/PlayingField/Grid.c:42-49 | once fixed, a block with a visible cell collides at its own position |
| `Board.FullRowsBelowSpec` | TetrisCode/main/src/PlayingField/Grid.c:71-79 | after scanning rows `0..n-1`, a row has been collected iff it is full, and the collected rows are in increasing order |
| `Board.FullRowsSpec` | TetrisCode/main/src/PlayingField/Grid.c:69-79 | a row is collected iff all 16 cells are non-zero; the rows come top to bottom; there are at most 24 |
| `Board.ZeroRows` | TetrisCode/main/src/PlayingField/Grid.c:115-119 | listed rows become 0, every other cell is unchanged |
| `Board.PackedNonZero` | TetrisCode/main/src/PlayingField/Grid.c:121-134 | packing a column keeps its non-zero values and their order |
| `Board.ClearedColumn` | TetrisCode/main/src/PlayingField/Grid.c:114-134 | with no full row the board is unchanged; otherwise each column is its values from the non-full rows, non-zero only, in the same order, packed at the bottom with zeros above |
| `Board.ClearedColumnCount` | TetrisCode/main/src/PlayingField/Grid.c:114-134 | each column loses exactly one occupied cell per cleared row |
| `Board.FixedBounded` | TetrisCode/main/src/PlayingField/Grid.c:42-49 | fixing a block whose `color + 1` is within a bound below 256 keeps every cell within that bound |
| `Board.LockedColoursInRange` | TetrisCode/main/src/PlayingField/Grid.c:42-49 | on a board whose cells are at most 7, every non-empty cell is the colour id of a block type plus one |
| `Board.ClearedBoardBounded` | TetrisCode/main/src/PlayingField/Grid.c:114-134 | clearing only moves values and writes zeros, so any bound on the cell values is kept |
| `Board.ClearedBottomRowFull` | TetrisCode/main/src/PlayingField/Grid.c:121-134 | if every column keeps a locked cell in a non-full row, the bottom row is full after the clear |
| `Board.ClearCanLeaveFullRow` | TetrisCode/main/src/PlayingField/Grid.c:121-134 | some board has a full row again right after clearing |
| `Grid.Grid.constructor` | TetrisCode/main/src/PlayingField/Grid.c:15 | the static grid starts all empty |
| `Grid.Grid.Init` | TetrisCode/main/src/PlayingField/Grid.c:17-19 | after `grid_init` every cell is 0 |
| `Grid.Grid.CheckCollision` | TetrisCode/main/src/PlayingField/Grid.c:21-40 | the verdict is `Board.Collides`: some occupied cell is below the floor, outside the walls, or on a locked cell of a visible row; rows above the board are skipped; nothing is modified |
| `Grid.Grid.WriteBlock` | TetrisCode/main/src/PlayingField/Grid.c:42-61 | the grid becomes `Board.Fixed`: occupied in-bounds cells get `color + 1`; out-of-board cells are dropped |
| `Grid.Grid.FindFullRows` | TetrisCode/main/src/PlayingField/Grid.c:69-79 | `remove_rows[0..remove_count)` is exactly the list of full rows, top to bottom |
| `Grid.Grid.ZeroListedRows` | TetrisCode/main/src/PlayingField/Grid.c:115-119 | the listed rows are zeroed and nothing else changes |
| `Grid.Grid.ScanStep` | TetrisCode/main/src/PlayingField/Grid.c:125-131 | one row of the bottom-up scan: an occupied cell moves to `write_y` (its row emptied if different) and `write_y` goes up; the column so far is the unscanned part, zeros, then the moved values in order |
| `Grid.Grid.PackColumn` | TetrisCode/main/src/PlayingField/Grid.c:123-133 | the `write_y` loop leaves column x packed (`Board.Packed`) and no other column changes |
| `Grid.Grid.CompactColumns` | TetrisCode/main/src/PlayingField/Grid.c:121-134 | every column is packed downward independently |
| `Grid.Grid.RemoveFullRows` | TetrisCode/main/src/PlayingField/Grid.c:67-134 | returns the number of full rows and leaves `Board.ClearedBoard` of the old grid |
| `Grid.Grid.ClearFullRows` | TetrisCode/main/src/PlayingField/Grid.c:67-160 | grid cleared as above; with no full row, score and speed are untouched; otherwise the score gains the bonus for the count, the line total grows by the count, and the speed manager gets the score's total and its interval |
| `Grid.CreditLines` | TetrisCode/main/src/PlayingField/Grid.c:158-159 | the score is credited for `n` rows and the speed manager takes the score's new line total and its interval; the highscore is untouched |
| `Grid.Grid.FixBlock` | TetrisCode/main/src/PlayingField/Grid.c:42-65 | the block is written, then the full rows are cleared and credited |
| `Speed.TableOrdered` | TetrisCode/main/src/Speed/SpeedManager.c:31-43 | 11 entries, first threshold 0, thresholds strictly increasing, intervals strictly decreasing, all in [50, 400] |
| `Speed.LevelFrom` | TetrisCode/main/src/Speed/SpeedManager.c:48-56 | the backward scan stops at the greatest index whose threshold the total reaches |
| `Speed.IntervalForSpec` | TetrisCode/main/src/Speed/SpeedManager.c:48-56 | the interval is that of the entry with the greatest threshold ≤ the total; such an entry always exists; the interval is in [50, 400] |
| `Speed.IntervalMonotone` | TetrisCode/main/src/Speed/SpeedManager.c:31-43 | more lines never give a longer interval |
| `Speed.IntervalSamples` | TetrisCode/main/src/Speed/SpeedManager.c:31-43 | 0–1 lines → 400, 2–4 → 370, 10–14 → 270, 45 and more → 50 |
| `Speed.IntervalAt` | TetrisCode/main/src/Speed/SpeedManager.c:48-56 | a total between the threshold of entry k and the next threshold gets the interval of entry k |
| `Speed.SpeedManager.constructor` | TetrisCode/main/src/Speed/SpeedManager.c:21-22 | before any init, the interval is `FALL_INTERVAL_MS` (300) and the total is 0 |
| `Speed.SpeedManager.UpdateFallSpeed` | TetrisCode/main/src/Speed/SpeedManager.c:48-56 | the loop sets the interval to `IntervalFor(total)` |
| `Speed.SpeedManager.Init` | TetrisCode/main/src/Speed/SpeedManager.c:62-67 | total 0, interval 400 (the first entry) |
| `Speed.SpeedManager.Reset` | TetrisCode/main/src/Speed/SpeedManager.c:87-92 | total 0, interval 400 (the first entry) |
| `Speed.SpeedManager.UpdateScore` | TetrisCode/main/src/Speed/SpeedManager.c:73-76 | the argument replaces the total; the interval becomes `IntervalFor` of it |
| `Speed.SpeedManager.GetFallInterval` | TetrisCode/main/src/Speed/SpeedManager.c:69-71 | the stored interval, always within [50, 400]; no state change |
| `Score.LineBonusIncreasing` | TetrisCode/main/src/Score/Score.c:23-29 | bonuses 100/300/500/800 for 1–4 rows, 0 for none, strictly increasing in the row count |
| `Score.RaisedHighscore` | TetrisCode/main/src/Score/Score.c:74-76 | the new highscore is the larger of the old one and the score as `uint32_t` |
| `Score.ScoreManager.constructor` | TetrisCode/main/src/Score/Score.c:7-11 | score and total 0; the highscore and handle are whatever the storage supplied |
| `Score.ScoreManager.Init` | TetrisCode/main/src/Score/Score.c:16-19 | score and total become 0; the highscore is untouched |
| `Score.ScoreManager.AddLines` | TetrisCode/main/src/Score/Score.c:21-30 | the total grows by exactly `lines` (in `uint32_t`); the score grows by `LineBonus(lines)` |
| `Score.ScoreManager.GetTotalLinesCleared` | TetrisCode/main/src/Score/Score.c:36-38 | a pure read of a `uint32_t` total |
| `Score.ScoreManager.GetHighscore` | TetrisCode/main/src/Score/Score.c:70-72 | a pure read of a `uint32_t` highscore |
| `Score.ScoreManager.UpdateHighscore` | TetrisCode/main/src/Score/Score.c:74-91 | highscore = max(old, score); a save is attempted iff the score is strictly greater and the handle is non-zero |
| `Controls.AllButtonsPressed` | TetrisCode/main/src/Controls/Controls.c:116-123 | true iff all four button levels read 0 |
| `Controls.AtMostOnceWithinDebounce` | TetrisCode/main/src/Controls/Controls.c:60-65 | for any button levels: if a poll at `t1` is accepted, a poll of the same button at `t2`, judged against the table that poll left, with `(t2 - t1) mod 2^32 <= 50`, is not |
| `Controls.DebounceAcrossWrap` | TetrisCode/main/src/Controls/Controls.c:64 | for every `now` and `last`: without a wrap a poll is accepted iff `now - last > 50`; after the counter wrapped (`now < last`) iff `now + 2^32 - last > 50`, that is iff `last - now < 2^32 - 50` |
| `Controls.PollOne` | TetrisCode/main/src/Controls/Controls.c:60-75 | one poll moves only its own button's timestamp |
| `Controls.Polled` | TetrisCode/main/src/GameLoop/GameLoop_NEW.c:479-506 | after polling the four buttons, exactly the accepted ones have their timestamp set to `now`; each is judged against the table as it was before |
| `Controls.Controls.constructor` | TetrisCode/main/src/Controls/Controls.c:61 | the three static timestamp tables start at 0; there is no queue yet |
| `Controls.Controls.CreateQueue` | TetrisCode/main/src/Controls/Controls.c:35-38 | the queue is created once; an existing queue is kept |
| `Controls.Controls.IsrEnqueue` | TetrisCode/main/src/Controls/Controls.c:51-58 | without a queue nothing happens; otherwise the GPIO is appended unless 8 events are already queued |
| `Controls.Controls.CheckButtonPressed` | TetrisCode/main/src/Controls/Controls.c:60-75 | true iff the level is 0 and `(now - last[gpio]) mod 2^32 > 50`; on acceptance only `last[gpio]` becomes `now`; on rejection the table is unchanged |
| `Controls.Controls.GetEvent` | TetrisCode/main/src/Controls/Controls.c:77-98 | without a queue or with an empty one: no event, nothing consumed; otherwise exactly one event is popped and reported iff it passes its own table's debounce |
| `Controls.Controls.WaitEvent` | TetrisCode/main/src/Controls/Controls.c:100-114 | the same as `GetEvent` but with a third, separate timestamp table |
| `Spawn.RowSearchFound` | TetrisCode/main/src/GameLoop/GameLoop_NEW.c:159-185 | a found x is inside the walls and collision-free; every allowed position tried before it collides |
| `Spawn.RowSearchNone` | TetrisCode/main/src/GameLoop/GameLoop_NEW.c:159-185 | the search of a row finds nothing iff every allowed position of that row collides |
| `Spawn.RowSearchSpec` | TetrisCode/main/src/GameLoop/GameLoop.c:84-104 | the two properties above, for the search order centre, −1, +1, −2, +2, … |
| `Spawn.RowSearchIgnoresAnchor` | TetrisCode/main/src/GameLoop/GameLoop_NEW.c:188-213 | the search of row −1 does not depend on where the search of row 0 left the candidate |
| `Spawn.SpawnResultSpec` | TetrisCode/main/src/GameLoop/GameLoop_NEW.c:148-227 | the spawned block is rotation 0 of the type, coloured with the type, inside the walls on row 0 or −1 and collision-free; row 0 is searched in full first; nothing is spawned iff no position of either row is free |
| `Spawn.SpawnOnEmptyBoard` | TetrisCode/main/src/GameLoop/GameLoop.c:350-355 | after a reset, every type spawns at the centre of row 0 |
| `GameLoop.Step` | TetrisCode/main/src/GameLoop/GameLoop_NEW.c:478-512 | a move is committed only if the moved block does not collide; an O block is never turned; a collision-free block stays collision-free |
| `GameLoop.AfterInput` | TetrisCode/main/src/GameLoop/GameLoop_NEW.c:476-512 | after the four buttons, the block moves at most one column each way and one row down, keeps its colour, and stays collision-free if it was |
| `GameLoop.InputNeutral` | TetrisCode/main/src/GameLoop/GameLoop.c:370-381 | no accepted button leaves the block unchanged; left then right on free cells puts it back |
| `GameLoop.InputOf` | TetrisCode/main/src/GameLoop/GameLoop.c:366-397 | the input part of a pass keeps the colour and keeps a collision-free block collision-free |
| `GameLoop.Game.constructor` | TetrisCode/main/src/GameLoop/GameLoop_NEW.c:39-49 | boot state: not running, no game over, empty shadow list, empty grid |
| `GameLoop.Game.TryOffset` | TetrisCode/main/src/GameLoop/GameLoop_NEW.c:169-183 | one offset of the search: the left position then the right one, each only if inside the walls; reports the first free one |
| `GameLoop.Game.TryCentre` | TetrisCode/main/src/GameLoop/GameLoop_NEW.c:160-168 | the centre is tried with no bounds test |
| `GameLoop.Game.SearchRow` | TetrisCode/main/src/GameLoop/GameLoop_NEW.c:159-185 | the loop finds what `Spawn.RowSearch` finds |
| `GameLoop.Game.HandleGameOver` | TetrisCode/main/src/GameLoop/GameLoop_NEW.c:238-266 | the highscore is raised to the score and the game-over flag is set; a save is attempted iff the score beats the old highscore and the storage handle is open |
| `GameLoop.Game.SpawnBlock` | TetrisCode/main/src/GameLoop/GameLoop_NEW.c:148-227 | the new state is `Spawn.SpawnResult`: the found block, or game over with the old block unchanged |
| `GameLoop.Game.ResetGameState` | TetrisCode/main/src/GameLoop/GameLoop_NEW.c:280-285 | empty grid, zero score and total, first speed level, highscore kept |
| `GameLoop.Game.NewGame` | TetrisCode/main/src/GameLoop/GameLoop.c:350-358 | grid, score and speed are reset before the spawn (empty board, score and both line totals 0, first fall interval), so the first block lands at the centre of row 0, collision-free; both timers restart |
| `GameLoop.Game.TaskStart` | TetrisCode/main/src/GameLoop/GameLoop_NEW.c:372-377 | speed initialised, state reset, wait state, timers 0 |
| `GameLoop.Game.EmergencyReset` | TetrisCode/main/src/GameLoop/GameLoop_NEW.c:398-401 | the game state is reset and the loop leaves the running state |
| `GameLoop.Game.LeaveGameOver` | TetrisCode/main/src/GameLoop/GameLoop_NEW.c:421-423 | the flag is consumed and the loop leaves the running state |
| `GameLoop.Game.TryMove` | TetrisCode/main/src/GameLoop/GameLoop_NEW.c:480-484 | the tentative block is committed iff it does not collide |
| `GameLoop.Game.PollAndMove` | TetrisCode/main/src/GameLoop/GameLoop_NEW.c:497-503 | the button is always polled; the move is tried only on acceptance, and the turn never for the O block |
| `GameLoop.Game.HandleInput` | TetrisCode/main/src/GameLoop/GameLoop_NEW.c:476-512 | the block becomes `AfterInput` with the four debounce verdicts; the polling table becomes `Polled` |
| `GameLoop.Game.Fall` | TetrisCode/main/src/GameLoop/GameLoop_NEW.c:522-532 | one row down if free, with nothing else changed; otherwise the block is fixed, rows are cleared and credited, and the next block is spawned; a live block is collision-free afterwards |
| `GameLoop.Game.LockAndSpawn` | TetrisCode/main/src/GameLoop/GameLoop.c:409-412 | the block is fixed into the grid (rows cleared and credited), then a new one is spawned; the game invariant `Valid` is kept, so every locked cell still holds a block type's colour id plus one and the block's colour is a type |
| `GameLoop.Game.FallIfDue` | TetrisCode/main/src/GameLoop/GameLoop_NEW.c:518-533 | the fall runs only when `now - last_fall_time >= interval` in `uint32_t`; the timer then restarts at `now` |
| `GameLoop.Game.InputAndFall` | TetrisCode/main/src/GameLoop/GameLoop.c:366-413 | input, with the buttons judged at the poll clock `pollNow`, then the automatic fall of the block the input left, timed by the loop clock `now`; a collision-free block stays collision-free unless the game is over |
| `GameLoop.Game.RunningTick` | TetrisCode/main/src/GameLoop/GameLoop_NEW.c:476-542 | one running pass: the poll table becomes `Polled` at `pollNow`; the block the input left falls when its interval is due by `now`, and the fall timer restarts; the block, board, counters and highscore are stated for the free-fall and the lock-and-spawn case, as for `InputAndFall`; rendering happens only when 16 ms are due by `now`, and its writes are restore-then-draw of the new board and block |
| `GameLoop.Game.RestoreShadow` | TetrisCode/main/src/GameLoop/GameLoop_NEW.c:78-96 | each remembered cell is rewritten with its grid colour, or off if empty; the list is emptied |
| `GameLoop.Game.DrawCell` | TetrisCode/main/src/GameLoop/GameLoop_NEW.c:101-123 | one mask cell is drawn and remembered iff it is occupied and on the board |
| `GameLoop.Game.DrawRow` | TetrisCode/main/src/GameLoop/GameLoop_NEW.c:100-124 | one mask row extends the drawn cells and the writes from the first `4·row` mask cells to the first `4·row + 4` |
| `GameLoop.Game.DrawCurrent` | TetrisCode/main/src/GameLoop/GameLoop_NEW.c:99-126 | the shadow list becomes exactly the in-bounds occupied cells of the block, in row-major mask order |
| `GameLoop.Game.Render` | TetrisCode/main/src/GameLoop/GameLoop.c:28-72 | the restore writes come first, then the draw writes; afterwards the shadow list equals the block's visible cells |
| `Render.DrawnCellsComplete` | TetrisCode/main/src/GameLoop/GameLoop_NEW.c:99-126 | a cell is drawn for the first k mask cells iff it is on the board, covered by the block, and has mask index < k |
| `Render.VisibleCellsExact` | TetrisCode/main/src/GameLoop/GameLoop_NEW.c:99-126 | the drawn cells are exactly the board cells the block covers |
| `Render.RenderRedraws` | TetrisCode/main/src/GameLoop/GameLoop_NEW.c:76-126 | if the picture showed the board outside the shadow list, then after a render it shows the block on its cells and the board everywhere else, which is the same as a full redraw |

## Left out

- LED output: the RGB palette (`block_colors` is defined in a file that is not part of this model), the brightness scaling, the LED numbering table and `led_strip_refresh`. A pixel is modelled as the colour index it shows, or off.
- The line-clear blink and the full redraw after gravity in `grid_clear_full_rows`, and the pixel writes in `grid_fix_block`. These are presentation only.
- The game-over blink, the OLED score and HUD display calls, the splash screens and the theme song. All of them are calls into display, LED or audio libraries.
- RTOS timing: `vTaskDelay`, `xTaskGetTickCount` and task creation. The millisecond clock is a parameter of each operation. A running pass takes two readings, `now` for the fall and render timers and `pollNow` for the button polls; the four polls of one pass share that one reading, while `check_button_pressed` reads the tick counter anew at each call.
- The wait, restart, drain and release-wait sequences of the main loop, and the one-second hold before the emergency reset. These are delays and splash animations. Only their effect on the game state is modelled (`TaskStart`, `EmergencyReset`, `LeaveGameOver`, `NewGame`). Their effect on `Controls` is not: the drains that empty the event queue through `controls_get_event` and the release-wait loops that move the debounce timestamps of `check_button_pressed` are left out, so `NewGame` keeps the queue and the polling table as they were.
- The hardware part of the interrupt path: GPIO configuration, ISR installation and `controls_enable_isr` / `controls_disable_isr`. The queue is a sequence. Interrupt/task concurrency is not modelled.
- `esp_random()`: the block type is a parameter.
- The storage: `score_load_highscore` and the `nvs_set_u32` / `nvs_commit` calls. The loaded value and the handle are constructor parameters. The save is reported by `UpdateHighscore` as `saveAttempted`.
- Controls.Controls.WaitEvent: does not model the blocking wait; it takes the queue as it stands when the wait ends.
- Score.ScoreManager.AddLines: does not model `int` overflow of the score, because the score is an unbounded integer here.
- `grid_print` and all `printf` logging.
