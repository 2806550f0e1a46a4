# Frogger game-state engine in Dafny

This project models the game-state engine of a small frogger game for a
microcontroller. A frog crosses a 4 x 20 board from the start lane
(column 0) to the goal lane (column 19). Obstacles move vertically in the
interior columns 1..18. The model covers four parts:

- **Board setup** (`Setup`). The board is cleared. Columns 1..10 each get
  one up-obstacle (`'^'`) and columns 11..17 one down-obstacle (`'V'`). The
  row of each obstacle comes from a random roll reduced modulo 4. Column 18
  stays empty. The frog starts at column 0, row 1, with 3 lives.
- **Obstacle tick** (`Obstacles`). In each interior column, the first
  obstacle found scanning top to bottom moves one row. An up-obstacle moves
  up and a down-obstacle moves down, wrapping around the four rows.
- **Frog movement** (`Movement`). The frog's cell is cleared and the frog
  takes one step, stopping at the edges. Landing on an obstacle takes a
  life. The frog then respawns at the start cell, or stays off the board
  when no lives are left.
- **Session loop** (`Session`). Two cadences run off a 32-bit millisecond
  clock: obstacles every 2000 ms and the display every 100 ms. Keys
  `'8'`, `'2'`, `'4'`, `'6'` move the frog up, down, left and right. The loop
  stops when lives reach 0 or the frog reaches column 19. The result is a
  win exactly when the frog stands in column 19.

The game record is immutable: `GameState.Game` holds the board (4 rows of
20 `Cell`s), the frog's column `x`, its row `y`, and `lives`. Every
operation is a pure function from record to record. `GameState.Inv` is the
invariant kept for the whole session:

- the start and goal lanes hold no obstacle;
- no column holds more than one obstacle;
- every frog marker on the board is at the recorded position;
- lives are at most 3.

The code does not keep the frog marker unique on the board at all times:
an obstacle moving onto the frog overwrites the `'*'` marker without
costing a life. The next move then clears that cell and erases the
obstacle. So the invariant says "at most one frog marker, at the frog's
position" and not "exactly one". Exactly one holds after every move that
leaves the frog alive (`Movement.MoveLeavesOneFrog`).

Inputs from outside the engine are parameters:

- The library random generator is a sequence `rolls` of non-negative
  numbers: roll k is the k-th value the generator returned. Setup uses 17.
- The millisecond clock is the `clock` field of each `Session.Input`. It is
  reduced modulo 2^32, as the 32-bit counter would be.
- The keypad is the `key` field of each `Session.Input`. The NUL character
  means no key was pressed.
- The display redraw is reported as the `redrawn` flag of `Session.Step`.

## Model

| member | source | states |
|---|---|---|
| Setup.PlaceObstaclesLayout | src/main.cpp:175-185 | The greedy fill agrees cell by cell with its closed form: the k-th column from the start gets the k-th roll's row; it gets an up-obstacle while the up quota lasts, then a down-obstacle while the down quota lasts, then nothing. |
| Setup.PlaceObstacles | src/main.cpp:177-185 | The fill never writes a column before its start column or the goal lane. Its full result is stated by Setup.PlaceObstaclesLayout. |
| Setup.InitGame | src/main.cpp:169-190 | After setup the frog is at (x 0, y 1) with 3 lives. Each cell holds the frog at (0, 1), an up-obstacle in columns 1..10 at the row of roll c - 1, a down-obstacle in columns 11..17 likewise, and is blank otherwise. |
| Setup.InitGameColumns | src/main.cpp:177-185 | Each of columns 1..10 holds exactly one obstacle, an up-obstacle. Each of columns 11..17 holds exactly one, a down-obstacle. Columns 0, 18 and 19 hold none. |
| Setup.InitGameSatisfiesInv | src/main.cpp:169-190 | Setup establishes the session invariant, the frog marker is at the start cell, and the session starts running. |
| Board.GlyphInjective | src/main.cpp:8-10 | The four cell values are stored as four distinct characters (' ', '^', 'V', '*'), so cell values and characters determine each other. |
| Obstacles.NextRow | src/main.cpp:198-202 | An up-obstacle moves to the row above, wrapping from row 0 to row 3. A down-obstacle moves to the row below, wrapping from row 3 to row 0. |
| Obstacles.NextRowCycle | src/main.cpp:198-202 | An up move and a down move undo each other, and four moves of one kind bring an obstacle back to its row. |
| Obstacles.ScanColumn | src/main.cpp:195-205 | Computes only; its behaviour is stated by Obstacles.ScanSole, Obstacles.ScanNone, Obstacles.ScanColumnFrame and Obstacles.ScanColumnLocal. |
| Obstacles.ScanSole | src/main.cpp:195-205 | On a column whose only obstacle is at row j, the scan clears row j and writes the obstacle at its next row, and nothing else. |
| Obstacles.ScanNone | src/main.cpp:195-205 | On a column without obstacles, the scan changes nothing. |
| Obstacles.TickFrom | src/main.cpp:194-206 | Computes only; its behaviour is stated by Obstacles.TickFromCell. |
| Obstacles.ScanColumnFrame | src/main.cpp:195-205 | Scanning a column changes no other column and never creates a frog marker. |
| Obstacles.ScanColumnLocal | src/main.cpp:195-205 | The scan's effect on its column depends on that column's cells alone. |
| Obstacles.TickFromCell | src/main.cpp:194-206 | The sequential column loop equals, cell by cell, scanning each interior column of the original board on its own. Columns before the loop's start and the goal lane are unchanged. |
| Obstacles.Tick | src/main.cpp:193-207 | Although the loop scans columns one after another on one shared board, every interior column ends as scanning it alone on the original board leaves it. Columns 0 and 19 are untouched. |
| Obstacles.TickNoNewFrog | src/main.cpp:196-203 | A tick may overwrite the frog marker but never creates one. |
| Obstacles.TickSingleObstacle | src/main.cpp:196-203 | On an interior column whose only obstacle is at row j, a tick puts an up-obstacle at row (j + 3) % 4 or a down-obstacle at (j + 1) % 4. Row j becomes blank, the obstacle is still the column's only one, and the column's other rows are unchanged. |
| Obstacles.TickMovesSole | src/main.cpp:196-203 | The moved obstacle keeps its kind and stays alone in its column. |
| Obstacles.TickEmptyColumn | src/main.cpp:195-205 | A tick leaves a column without obstacles unchanged. |
| Obstacles.TickKeepsColumnSingle | src/main.cpp:195-205 | A tick never puts a second obstacle into a column. |
| Obstacles.TickPreservesLayout | src/main.cpp:193-207 | A tick keeps the start and goal lanes clear and every column at most one obstacle. |
| Obstacles.TickPreservesInv | src/main.cpp:193-207 | A tick keeps the session invariant. |
| Obstacles.TickPeriod | src/main.cpp:196-203 | Four ticks bring a column's single obstacle back to its starting row, with the same kind. |
| Movement.Destination | src/main.cpp:211-216 | Moving up at row 0, down at row 3, left at column 0 or right at column 19 leaves the position unchanged. Any direction other than 0..3 moves nothing. |
| Movement.DestinationIsClampedStep | src/main.cpp:211-216 | The destination is the current cell plus the direction's unit step, clamped to the board. |
| Movement.DecrementLives | src/main.cpp:218 | The 8-bit `lives--` takes one off a positive count and wraps 0 to 255. |
| Movement.MoveFrog | src/main.cpp:209-224 | Without a collision, lives are kept and the frog marker is at the clamped destination. A collision takes exactly one life. With lives left the frog is at (0, 1) with its marker. On the last life the frog stays at the collision cell, whose obstacle is left in place and no marker is written. The old cell is cleared when the frog leaves it, and no cell other than the old and new frog cells changes. |
| Movement.Collides | src/main.cpp:210-217 | Defines a collision: the move reaches a different cell that holds an obstacle once the frog's own cell is cleared. Stated about by Movement.CollisionCostsLife and Movement.MoveFrog. |
| Movement.CollisionCostsLife | src/main.cpp:217-218 | A move changes the life counter exactly when it collides. |
| Movement.CollisionOnlyInInterior | src/main.cpp:217-218 | Under the invariant a colliding move always ends in an interior column. |
| Movement.GoalLaneIsSafe | src/main.cpp:215-223 | Stepping into column 19 never collides. It keeps every life and puts the frog in the goal lane. |
| Movement.RespawnCellIsClear | src/main.cpp:220-223 | The respawn cell (0, 1) never holds an obstacle, so respawning never collides. |
| Movement.MovePreservesInv | src/main.cpp:209-224 | A move made while the frog has lives keeps the session invariant. |
| Movement.MoveLeavesOneFrog | src/main.cpp:217-223 | After a move that leaves lives, exactly one cell holds the frog marker: the frog's position. |
| Movement.LastLifeCollisionLoses | src/main.cpp:217-219 | A collision on the last life leaves 0 lives with the frog short of column 19. The loop then stops and reports a loss. |
| Movement.MoveErasesObstacleOnFrog | src/main.cpp:210 | When an obstacle has moved onto the frog's cell, the next move clears that cell and erases the obstacle. |
| Session.Elapsed | src/main.cpp:251 | The unsigned 32-bit difference of two clock readings is below 2^32. Its cases are stated by Session.ElapsedCases and Session.ElapsedAcrossWrap. |
| Session.ElapsedCases | src/main.cpp:251 | The 32-bit difference is now - last when the clock has not wrapped past the stamp. Otherwise it is now + 2^32 - last. |
| Session.ElapsedAcrossWrap | src/main.cpp:249-251 | Any two true times less than 2^32 ms apart give their exact difference, even when the 32-bit counter wraps between them. |
| Session.KeyDirection | src/main.cpp:256-263 | A key maps to a direction exactly when it is '8', '2', '4' or '6', and the direction is one of 0..3. Every other key, and no key, gives no move. |
| Session.KeyDirectionRoundTrip | src/main.cpp:258-262 | '8', '2', '4', '6' map to directions 0, 1, 2, 3 and back. |
| Session.Start | src/main.cpp:244-246 | A session starts from the setup game with both stamps at 0, satisfying the invariant and running. |
| Session.AfterTick | src/main.cpp:251-254 | The board is ticked exactly when (now - last obstacle stamp) mod 2^32 >= 2000; position and lives are untouched by the tick. |
| Session.Step | src/main.cpp:249-269 | The pass's game is the key's move applied to the board after the tick, or that board alone when the key maps to no direction. The obstacle tick fires exactly when (now - last obstacle stamp) mod 2^32 >= 2000, and its stamp becomes now only then. The redraw fires exactly when (now - last redraw stamp) mod 2^32 >= 100, and its stamp becomes now only then. |
| Session.StepPreservesInv | src/main.cpp:249-269 | A pass keeps the invariant. Lives drop by one exactly on a pass whose key moves the frog into an obstacle, and never otherwise: an obstacle ticking onto the frog costs no life. A key that maps to no direction leaves the frog where it is. |
| GameState.Running | src/main.cpp:248 | Defines the loop guard: lives above 0 and the frog's column below 19. Stated about by Session.Run and Session.PlaySession. |
| Session.Run | src/main.cpp:248-270 | The loop runs only while lives > 0 and the frog's column is below 19. A stopped session is returned unchanged. |
| Session.RunLives | src/main.cpp:248-270 | Over any run the invariant holds, and the lives lost equal the colliding passes. |
| Session.StepLossShortOfGoal | src/main.cpp:249-269 | A pass that takes the last life leaves the frog short of the goal lane. |
| Session.RunLossShortOfGoal | src/main.cpp:248-270 | A run that ends with 0 lives ends with the frog short of column 19. |
| GameState.OutcomeOf | src/main.cpp:273-277 | Defines the exit message from the frog's column alone. Stated about by Session.StoppedOutcome and Session.PlaySession. |
| Session.StoppedOutcome | src/main.cpp:273-277 | Once the loop stops, the result is "You Win!" exactly when lives remain, and exactly when the frog is in column 19. |
| Session.ThirdCollisionLoses | src/main.cpp:248-277 | From setup's 3 lives, a session never has more than three collisions. It reaches 0 lives exactly at the third, and then it has stopped with a loss. |
| Session.PlaySession | src/main.cpp:243-277 | Playing a session from setup over given passes keeps the invariant. It reports no outcome while still running. It reports a loss exactly when lives are 0, and a win exactly when the frog is in column 19 with lives left. |

## Left out

- The character display driver (`lcd_init`, `lcd_command`, `lcd_data`, `lcd_clear`, `lcd_print`, `lcd_set_cursor`, `update_display`): port bit-banging and busy-wait delays. A redraw is only reported as a flag.
- The keypad scan and its busy wait for key release (`keypad_init`, `keypad_scan`): pin-level hardware. Each loop pass is given its key as input.
- The timer interrupt and `millis` (`timer_init`, the compare-match interrupt, `cli`/`sei`): interrupt-driven hardware. Each loop pass is given its clock reading as input.
- The seven-segment life display (`seven_seg_init`, `seven_seg_display`): register writes only.
- `rand()`: the C library generator. It is replaced by a supplied sequence of rolls, and setup requires at least the 17 rolls it uses.
- The "Press any key" wait before setup and the 2000 ms pause after the result message: display and timing only. The outer loop that starts the next session is not modelled beyond one session.
- Session.Run: models a finite prefix of the loop, given as a sequence of passes. The real loop keeps polling until a stop condition holds, so a session that never ends is not modelled.
