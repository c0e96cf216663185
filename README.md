# Royal Blocks simulation core in Dafny

This project models the simulation core of the Royal Blocks falling-block game
server (Tetris-Blocks):

- the board and its line-clear, gravity, penalty-row and 2x2-destruction
  algorithms (`board.cpp`);
- the tetrominoes, with their rotation and wall-kick offset tables
  (`abstract_tetromino.cpp`);
- one player's game, a board plus an active piece with its lock delay, hold,
  preview and piece queue (`tetris.hpp`);
- the match state, with its players' records, their games, the winner and the
  snapshots sent to clients (`game_state.cpp`);
- the game engine, which applies a game mode's rules to the match: the mode
  feature table, scoring, energy, penalty rows between players, the
  bonus/penalty effect economy with targets and a penalty stash, the per-tick
  advance of every player, and the end of the match (`game_engine.hpp`,
  `game_engine.cpp`).

The source's objects become Dafny classes whose methods change their fields:
`Boards.Board`, `Pieces.Tetromino`, `Simulation.Tetris`, `Match.GameState` and
`Engine.GameEngine`. Each method is proved against a specification function on
values:

| object | specified by |
|---|---|
| a board | its rows `seq<Row>`, with row 0 at the bottom |
| a game | a `Play` |
| a match | a `World` that maps each player to its record and its game |

The lemmas state what the source promises about those functions. Examples:

- a full row is cleared and the rows above drop;
- a rotation is undone by the opposite rotation;
- a wall kick takes the first offset that fits;
- a player out of the match stays out and is never touched again by a tick;
- a purchase costs exactly the price;
- the winner is the sole survivor.

Modules, one per file:

| module | file | what it holds |
|---|---|---|
| `Wrappers` | wrappers.dfy | `Option`, `Result` |
| `Geometry` | geometry.dfy | `Vec2`, quarter turns about a centre, the cyclic rotation index |
| `Pieces` | tetromino.dfy | shapes, offset tables, `Piece` values, class `Tetromino` |
| `Boards` | board.dfy | cells, rows, class `Board` |
| `Features` | features.dfy | the mode to feature table |
| `Effects` | effects.dfy | bonus and penalty kinds, timed effects, player records, prices |
| `Simulation` | tetris.dfy | one player's game, class `Tetris` |
| `Match` | game_state.dfy | class `GameState` |
| `Engine` | game_engine.dfy | class `GameEngine` |

Random choices and pacing are inputs of the model. Each is a parameter the
caller supplies:

- the piece stream of each player (`Supply.stream`);
- the gap column of each penalty row (`gaps`);
- the start cell of the Lightning scan (`draw` / `square`);
- whether an engine tick is a game tick for a player, and whether a SlowDown
  bonus skips it (`Draws`).

## Model

| member | source | states |
|---|---|---|
| Geometry.RotateAround | src/common/tetris_lib/tetromino/abstract_tetromino.cpp:199-210 | a quarter turn about the centre: the turned point is as far from the centre as before, its offset is at a right angle to the old one, and the cross product's sign gives the requested direction (negative for clockwise) |
| Geometry.RotateAroundUnique | src/common/tetris_lib/tetromino/abstract_tetromino.cpp:199-210 | those three facts determine the turned point: any point that keeps the distance, is at a right angle and lies on the requested side is `RotateAround`'s result |
| Geometry.RotateAroundInverse | src/common/tetris_lib/tetromino/abstract_tetromino.cpp:199-210 | turning one way then the other gives the cell back |
| Geometry.RotateAroundFour | src/common/tetris_lib/tetromino/abstract_tetromino.cpp:199-210 | four quarter turns in one direction give the cell back |
| Geometry.StepRotation | src/common/tetris_lib/tetromino/abstract_tetromino.cpp:199-210 | the rotation index steps by one modulo 4, wrapping 3 to 0 clockwise and 0 to 3 counter-clockwise |
| Geometry.StepRotationInverse | src/common/tetris_lib/tetromino/abstract_tetromino.cpp:199-210 | stepping the index one way then the other gives it back |
| Geometry.StepRotationFour | src/common/tetris_lib/tetromino/abstract_tetromino.cpp:199-210 | four steps in one direction give the index back |
| Pieces.OffsetData | src/common/tetris_lib/tetromino/abstract_tetromino.cpp:38-57 | each of the three offset tables has one row per rotation state |
| Pieces.NumOffsetTests | src/common/tetris_lib/tetromino/abstract_tetromino.cpp:156-158 | the O table has 1 test per rotation and the I and ZLSJT tables have 5, and every row of a table has that many entries |
| Pieces.ZLSJTEvenRowsZero | src/common/tetris_lib/tetromino/abstract_tetromino.cpp:52-57 | in the ZLSJT table, rotation states 0 and 2 have only zero offsets |
| Pieces.MinOfAttained | src/common/tetris_lib/tetromino/abstract_tetromino.cpp:61-82 | the minimum the constructor computes is one of the coordinates |
| Pieces.MaxOfAttained | src/common/tetris_lib/tetromino/abstract_tetromino.cpp:61-82 | the maximum the constructor computes is one of the coordinates |
| Pieces.ExtentSpans | src/common/tetris_lib/tetromino/abstract_tetromino.cpp:61-82 | width and height are max - min + 1: every two coordinates differ by less, and one pair attains it |
| Pieces.ExtentNeg | src/common/tetris_lib/tetromino/abstract_tetromino.cpp:199-210 | negating the coordinates keeps the extent, so a quarter turn swaps width and height |
| Pieces.Extents | src/common/tetris_lib/tetromino/abstract_tetromino.cpp:61-82 | the constructor's running minimum and maximum loop yields width = x extent and height = y extent of the body |
| Pieces.Initial | src/common/tetris_lib/tetromino/abstract_tetromino.cpp:61-82 | a fresh piece is well shaped: its width and height are the extents of its body |
| Pieces.MoveDelta | src/common/tetris_lib/tetromino/abstract_tetromino.cpp:185-197 | without `reverse`, Down, Left and Right move the anchor by (0,-1), (-1,0) and (1,0) |
| Pieces.MovedThenBack | src/common/tetris_lib/tetromino/abstract_tetromino.cpp:185-197 | a move followed by the reversed move restores the piece |
| Pieces.RotatedWellShaped | src/common/tetris_lib/tetromino/abstract_tetromino.cpp:199-210 | after a rotation, width and height are still the extents of the turned body |
| Pieces.TurnedCoordinates | src/common/tetris_lib/tetromino/abstract_tetromino.cpp:199-210 | a clockwise turn maps the body's x to y and y to -x, and counter-clockwise maps x to -y and y to x |
| Pieces.RotatedThenBack | src/common/tetris_lib/tetromino/abstract_tetromino.cpp:199-210 | rotating and rotating back restores body, rotation, size and anchor; the previous rotation records the intermediate state |
| Pieces.RotatedFour | src/common/tetris_lib/tetromino/abstract_tetromino.cpp:199-210 | four rotations in one direction restore body, rotation, size and anchor |
| Pieces.KickCandidateKeeps | src/common/tetris_lib/tetromino/abstract_tetromino.cpp:160-175 | the n-th offset test is the piece shifted by entry n-1 of the previous rotation's row minus entry n-1 of the current rotation's row, all else unchanged |
| Pieces.Tetromino.Equals | src/common/tetris_lib/tetromino/abstract_tetromino.cpp:214-222 | `operator==`: when the bodies have the same length it holds exactly when the two pieces are equal apart from their kick tables; when it holds, this body is a prefix of the other, as `std::equal` over this body's range compares |
| Pieces.SameIffEqual | src/common/tetris_lib/tetromino/abstract_tetromino.cpp:214-222 | for bodies of equal length, `operator==` (same shape, anchor, body, size and both rotation indices) holds exactly when the pieces are equal up to their offset table |
| Pieces.ColorIdInjective | src/common/tetris_lib/tetromino/abstract_tetromino.cpp:144-146 | distinct shapes have distinct colour ids |
| Pieces.MakeTetromino | src/common/tetris_lib/tetromino/abstract_tetromino.cpp:90-130 | the two sentinel shapes are an error; every other shape yields a fresh piece with its catalogue body and offset table |
| Pieces.Tetromino.constructor | src/common/tetris_lib/tetromino/abstract_tetromino.cpp:61-82 | the new object holds the piece `Initial` describes |
| Pieces.Tetromino.Clone | src/common/tetris_lib/tetromino/abstract_tetromino.cpp:160-175 | a fresh object with the same piece |
| Pieces.Tetromino.ColorId | src/common/tetris_lib/tetromino/abstract_tetromino.cpp:144-146 | the colour id is the shape's ordinal, so by `ColorIdInjective` pieces of different shapes get different colours |
| Pieces.Tetromino.GetNumOffsetTests | src/common/tetris_lib/tetromino/abstract_tetromino.cpp:156-158 | the number of tests of the piece's table |
| Pieces.Tetromino.SetAnchorPoint | src/common/tetris_lib/tetromino/abstract_tetromino.cpp:179-181 | only the anchor changes |
| Pieces.Tetromino.Move | src/common/tetris_lib/tetromino/abstract_tetromino.cpp:185-197 | the piece becomes `Moved` of the old one |
| Pieces.Tetromino.Rotate | src/common/tetris_lib/tetromino/abstract_tetromino.cpp:199-210 | the piece becomes `Rotated` of the old one and stays well shaped |
| Pieces.Tetromino.GetNthOffsetTest | src/common/tetris_lib/tetromino/abstract_tetromino.cpp:160-175 | a fresh copy placed at the n-th kick candidate |
| Boards.Board.constructor | src/common/tetris_lib/board/board.cpp:40-46 | a new board has every row blank, stored with row y at index Height - 1 - y of the grid as `getRow` reads it |
| Boards.Board.GetRow | src/common/tetris_lib/board/board.cpp:40-46 | row y, counted from the bottom, of width `Width` |
| Boards.Board.Get | src/common/tetris_lib/board/board.cpp:159-161 | the cell at (x, y) |
| Boards.Board.SetCell | src/common/tetris_lib/board/board.cpp:36-38 | only cell (x, y) changes |
| Boards.Board.SetRow | src/common/tetris_lib/board/board.cpp:91-93 | only row y changes, to the given row |
| Boards.Board.CheckInGridCell | src/common/tetris_lib/board/board.cpp:174-181 | true exactly when the cell is inside the grid and empty |
| Boards.Board.CheckInGridPiece | src/common/tetris_lib/board/board.cpp:183-193 | true exactly when every cell of the piece is inside the grid and empty |
| Boards.Board.CheckEmptyRow | src/common/tetris_lib/board/board.cpp:95-103 | true exactly when every cell of row y is empty |
| Boards.Board.CheckFullRow | src/common/tetris_lib/board/board.cpp:105-113 | true exactly when every cell of row y is filled |
| Boards.Board.CheckFullCol | src/common/tetris_lib/board/board.cpp:115-123 | true exactly when every cell of column x is filled |
| Boards.Board.EmptyRow | src/common/tetris_lib/board/board.cpp:125-129 | row y becomes blank, nothing else changes |
| Boards.Board.EmptyCol | src/common/tetris_lib/board/board.cpp:131-135 | column x becomes empty, every other cell is kept |
| Boards.Board.DropRowsAbove | src/common/tetris_lib/board/board.cpp:48-56 | rows below y are kept, each row above y moves down one, and the top row becomes blank |
| Boards.Board.LiftOnce | src/common/tetris_lib/board/board.cpp:58-68 | one pass of the inner loop: every row from the top down to y+1 takes the row below it |
| Boards.Board.LiftRowsFrom | src/common/tetris_lib/board/board.cpp:58-68 | the board after numRows lifting passes from row y |
| Boards.LiftedPassesRows | src/common/tetris_lib/board/board.cpp:58-68 | after k passes every row holds a row from at or below its own height and at or above y: lifting only moves rows up, and rows below y stay |
| Boards.Board.SetPenaltyRow | src/common/tetris_lib/board/board.cpp:70-89 | row y becomes a penalty row: penalty blocks everywhere except the gap column |
| Boards.PenaltyRowGap | src/common/tetris_lib/board/board.cpp:70-89 | a penalty row's only empty cell is the gap, so it is neither full nor empty |
| Boards.Board.ReceivePenaltyRows | src/common/tetris_lib/board/board.cpp:251-267 | succeeds exactly when row Height - n is empty; on success the rows are lifted by n and the bottom n become penalty rows, and on failure nothing changes |
| Boards.PenaltyRowsCanPushBlocksOff | src/common/tetris_lib/board/board.cpp:251-267 | because only row Height - n is checked, blocks in higher rows can be pushed off the top and lost |
| Boards.Board.PlaceTetromino | src/common/tetris_lib/board/board.cpp:165-172 | the board becomes `Stamp` of the old board and the piece |
| Boards.StampCovers | src/common/tetris_lib/board/board.cpp:165-172 | every cell of a placed piece holds its colour id, so the same piece no longer fits where it was |
| Boards.Board.Update | src/common/tetris_lib/board/board.cpp:271-283 | the result is the number of full rows of the old board, and the new rows are `Cleared` of the old |
| Boards.ClearedCons | src/common/tetris_lib/board/board.cpp:271-283 | clearing takes a full bottom row out and adds a blank row on top, and keeps a non-full bottom row |
| Boards.UpdateDone | src/common/tetris_lib/board/board.cpp:271-283 | the loop invariant of `update` at y = 0 gives the cleared board and the count of full rows |
| Boards.DropAfterEmpty | src/common/tetris_lib/board/board.cpp:271-283 | emptying a full row y then dropping the rows above removes row y and adds a blank row on top |
| Boards.ClearedSettles | src/common/tetris_lib/board/board.cpp:271-283 | after clearing no row is full, and clearing again changes nothing |
| Boards.NonFullTwice | src/common/tetris_lib/board/board.cpp:271-283 | keeping the non-full rows is idempotent |
| Boards.NonFullBlanks | src/common/tetris_lib/board/board.cpp:271-283 | blank rows are never taken out |
| Boards.NonFullAppend | src/common/tetris_lib/board/board.cpp:271-283 | keeping the non-full rows distributes over concatenation |
| Boards.Board.MoveCell | src/common/tetris_lib/board/board.cpp:137-151 | the cell moves from `from` to `to` in column x, and the source becomes empty |
| Boards.Board.GravityColumn | src/common/tetris_lib/board/board.cpp:137-151 | column x becomes `Settled` of the old column, and other columns are kept |
| Boards.Board.Gravity | src/common/tetris_lib/board/board.cpp:137-151 | every column becomes `Settled` of the old column |
| Boards.GravityDone | src/common/tetris_lib/board/board.cpp:137-151 | the invariant of the column loop at the top gives the settled column |
| Boards.SettledKeepsBlocks | src/common/tetris_lib/board/board.cpp:137-151 | gravity keeps the filled cells of a column in their order, and is idempotent |
| Boards.SettledNoHoles | src/common/tetris_lib/board/board.cpp:137-151 | after gravity no filled cell has an empty cell below it |
| Boards.OccupiedTwice | src/common/tetris_lib/board/board.cpp:137-151 | taking a column's filled cells is idempotent |
| Boards.OccupiedAppend | src/common/tetris_lib/board/board.cpp:137-151 | taking the filled cells distributes over concatenation |
| Boards.Board.Check2By2Occupied | src/common/tetris_lib/board/board.cpp:195-206 | true exactly when the four cells of the square at (x, y) are filled |
| Boards.Board.Empty2By2Square | src/common/tetris_lib/board/board.cpp:208-215 | the four cells of the square become empty, and every other cell is kept |
| Boards.Board.ScanRow | src/common/tetris_lib/board/board.cpp:217-247 | one row of the wrap-around scan: either it finds and empties the first occupied square `ScanFrom` names, or it changes nothing and the scan goes on |
| Boards.Board.Destroy2By2Occupied | src/common/tetris_lib/board/board.cpp:217-247 | the board becomes `Destroyed2By2` of the old board and the drawn start cell |
| Boards.ScanCoverage | src/common/tetris_lib/board/board.cpp:217-247 | the wrap-around scan from any start cell finds nothing exactly when the board has no fully occupied 2x2 square |
| Boards.Destroyed2By2Outcome | src/common/tetris_lib/board/board.cpp:217-247 | the board is unchanged exactly when it has no occupied 2x2 square; otherwise exactly one such square is emptied |
| Boards.ScanFound | src/common/tetris_lib/board/board.cpp:217-247 | a square the scan returns is fully occupied and lies in the grid |
| Boards.ScanMisses | src/common/tetris_lib/board/board.cpp:217-247 | a scan that returns nothing has skipped only unoccupied squares |
| Boards.Board.Serialize | src/common/tetris_lib/board/board.cpp:289-299 | the grid, row by row, through the cell serializer |
| Boards.Board.Deserialize | src/common/tetris_lib/board/board.cpp:301-307 | the grid is read back row by row through the cell deserializer |
| Boards.SerializeRoundTrip | src/common/tetris_lib/board/board.cpp:289-307 | deserializing a serialized grid gives it back when the cell codec round-trips |
| Features.GenFeaturesBitset | src/common/tetris_royal_lib/game_engine/game_engine.hpp:71-81 | exactly the listed features' bits are set |
| Features.ModeFeatures | src/common/tetris_royal_lib/game_engine/game_engine.hpp:87-110 | Endless has no feature; Dual has penalty rows; Classic has penalty rows and target selection; Royal has effects and target selection |
| Features.EffectsExcludePenaltyRows | src/common/tetris_royal_lib/game_engine/game_engine.hpp:87-110 | no mode has both the effect economy and penalty rows |
| Simulation.CreateTetromino | src/common/tetris_lib/tetris/tetris.hpp:181-190 | a new piece of the given shape at its spawn anchor, at rotation 0 |
| Simulation.Tetris.constructor | src/common/tetris_lib/tetris/tetris.hpp:44-58 | an empty board, the first shape of the stream spawned as the active piece, nothing held, an empty front queue, hold allowed, no lock ticks, alive |
| Simulation.Tetris.CheckCanDrop | src/common/tetris_lib/tetris/tetris.hpp:70-75 | true exactly when the piece moved down one row still fits |
| Simulation.Tetris.RestingCopy | src/common/tetris_lib/tetris/tetris.hpp:129-136 | the piece dropped straight down to rest |
| Simulation.DroppedRests | src/common/tetris_lib/tetris/tetris.hpp:129-136 | a dropped piece only moves down in its column, cannot go one row lower, and still fits if it fitted |
| Simulation.DroppedAtRest | src/common/tetris_lib/tetris/tetris.hpp:129-136 | a piece that cannot move down is not moved by a drop |
| Simulation.Tetris.UpdatePreview | src/common/tetris_lib/tetris/tetris.hpp:60-63 | the preview is refreshed and the game is unchanged |
| Simulation.Tetris.PopNext | src/common/tetris_lib/tetris/tetris.hpp:48-53 | the next shape is the front of the queue, or the next drawn shape when the front is empty |
| Simulation.Tetris.PlaceActive | src/common/tetris_lib/tetris/tetris.hpp:77-82 | when the active piece fits it is stamped onto the board; otherwise the game is lost and the board is kept |
| Simulation.Tetris.SpawnNext | src/common/tetris_lib/tetris/tetris.hpp:48-58 | the next shape becomes the active piece; hold is allowed again and the lock delay restarts |
| Simulation.Tetris.LockActive | src/common/tetris_lib/tetris/tetris.hpp:122-136 | place, clear and spawn, as `Locked` says |
| Simulation.LockedOutcome | src/common/tetris_lib/tetris/tetris.hpp:77-82 | a lock keeps the game alive exactly when the piece fits; a lost game is otherwise unchanged; a kept game has no full row, a freshly spawned next piece, hold allowed again and the held piece kept |
| Simulation.Tetris.EventClockTick | src/common/tetris_lib/tetris/tetris.hpp:122-127 | the game and the number of cleared rows are `Ticked` of the old game |
| Simulation.TickOutcome | src/common/tetris_lib/tetris/tetris.hpp:122-127 | a piece that can fall moves down and clears nothing; it locks only after `DEFAULT_LOCK_DELAY_TICKS_NUM` ticks at rest; at most Height rows are cleared |
| Simulation.Tetris.EventBigDrop | src/common/tetris_lib/tetris/tetris.hpp:129-136 | the game and the cleared count are `BigDropped` of the old game |
| Simulation.BigDropOutcome | src/common/tetris_lib/tetris/tetris.hpp:129-136 | a big drop keeps the game consistent and clears at most Height rows |
| Simulation.Tetris.EventTryMoveActive | src/common/tetris_lib/tetris/tetris.hpp:138-143 | the game becomes `TriedMove`: the moved piece when it fits, the old game otherwise |
| Simulation.Tetris.EventTryRotateActive | src/common/tetris_lib/tetris/tetris.hpp:145-151 | the game becomes `TriedRotate`: the first fitting kick candidate of the rotated piece, the old game if none fits |
| Simulation.Tetris.FirstFittingKick | src/common/tetris_lib/tetris/tetris.hpp:145-151 | the first offset test that fits, or none |
| Simulation.FirstKickFinds | src/common/tetris_lib/tetris/tetris.hpp:145-151 | a kick is found exactly when some candidate fits, and it is the first candidate that fits |
| Simulation.RotationOutcome | src/common/tetris_lib/tetris/tetris.hpp:145-151 | a rotation either changes nothing or puts a fitting kick candidate of the rotated piece in play |
| Simulation.ControlsKeepFit | src/common/tetris_lib/tetris/tetris.hpp:138-151 | a fitting active piece still fits after a move or a rotation |
| Simulation.ControlsKeepConsistent | src/common/tetris_lib/tetris/tetris.hpp:138-151 | moves and rotations change only the active piece |
| Simulation.Tetris.EventHoldActiveTetromino | src/common/tetris_lib/tetris/tetris.hpp:153-159 | the game becomes `Held` of the old game |
| Simulation.Tetris.PutInHold | src/common/tetris_lib/tetris/tetris.hpp:153-159 | the piece goes to hold, a new piece of the next shape spawns, and hold is disallowed until the next lock |
| Simulation.HeldSwaps | src/common/tetris_lib/tetris/tetris.hpp:153-159 | with a piece in hold, holding swaps the shapes of the active and the held pieces, and holding again swaps them back |
| Simulation.HeldTwice | src/common/tetris_lib/tetris/tetris.hpp:153-159 | a second hold before the next lock changes nothing |
| Simulation.Tetris.EventReceivePenaltyRows | src/common/tetris_lib/tetris/tetris.hpp:161-165 | the board receives the rows; when it cannot, the game is lost |
| Simulation.BoardEventsKeepConsistent | src/common/tetris_lib/tetris/tetris.hpp:161-165 | receiving penalty rows changes only the board and the alive flag, never revives a lost game, and keeps the game consistent, as does destroying a 2x2 square |
| Simulation.Tetris.InsertNextTetromino | src/common/tetris_lib/tetris/tetris.hpp:176-179 | the shape goes to the front of the queue |
| Simulation.InsertedIsNext | src/common/tetris_lib/tetris/tetris.hpp:176-179 | the inserted shape is the next one handed out, and popping it restores the queue |
| Simulation.Tetris.Destroy2By2Occupied | src/common/tetris_lib/tetris/tetris.hpp:192-196 | only the board changes, to `Destroyed2By2` of the old board |
| Match.InsertSorted | src/common/tetris_royal_lib/game_state/game_state.cpp:31-48 | the player ids stay strictly increasing, as in the source's ordered map, and gain exactly the new id |
| Match.SeatPlayers | src/common/tetris_royal_lib/game_state/game_state.cpp:31-48 | every player is seated under its own id, and the id order is increasing and lists exactly the seated players |
| Match.SeatedKeys | src/common/tetris_royal_lib/game_state/game_state.cpp:31-48 | the seated ids are exactly the ids of the given players |
| Match.SeatedRoundRobin | src/common/tetris_royal_lib/game_state/game_state.cpp:31-48 | each player targets the next player in the given order, cyclically, and has effects on exactly in the effect-economy mode |
| Match.StartGames | src/common/tetris_royal_lib/game_state/game_state.cpp:31-48 | every seated player gets a fresh game of its own, and the games do not share objects |
| Match.GameState.constructor | src/common/tetris_royal_lib/game_state/game_state.cpp:31-48 | the match starts unfinished, with the seated players and a new game for each |
| Match.AliveIdsIncreasing | src/common/tetris_royal_lib/game_state/game_state.cpp:52-74 | the alive players, in id order, are strictly increasing |
| Match.WinnerIsSoleSurvivor | src/common/tetris_royal_lib/game_state/game_state.cpp:52-74 | outside Endless mode x is the winner exactly when x is the only alive player; Endless has none |
| Match.SoleAlive | src/common/tetris_royal_lib/game_state/game_state.cpp:52-74 | the scanning loop, which stops at a second alive player, returns `Winner` of the players |
| Match.GameState.GetWinner | src/common/tetris_royal_lib/game_state/game_state.cpp:52-74 | the match's answer is `Winner` of its mode, seating order and players |
| Match.GameState.GetPlayerState | src/common/tetris_royal_lib/game_state/game_state.cpp:76-79 | none exactly when the player is not in the match; its record otherwise |
| Match.GameState.GetTetris | src/common/tetris_royal_lib/game_state/game_state.cpp:81-84 | null exactly when the player has no game; its game otherwise |
| Match.GameState.SetPlayer | src/common/tetris_royal_lib/game_state/game_state.cpp:76-79 | only that player's record changes |
| Match.Without | src/common/tetris_royal_lib/game_state/game_state.cpp:96-132 | the other players: every id but the requested one |
| Match.PriceListsComplete | src/common/tetris_royal_lib/game_state/game_state.cpp:96-132 | the price lists name every bonus and every penalty kind once, with its price |
| Match.GameState.SerializeForPlayer | src/common/tetris_royal_lib/game_state/game_state.cpp:96-132 | the snapshot carries the finished flag, the mode, the player itself when present, every other player as external, and the price lists only in the effect-economy mode |
| Match.GameState.SerializeForViewer | src/common/tetris_royal_lib/game_state/game_state.cpp:134-147 | every player as external, no self and no price lists |
| Engine.InvertIsInvolution | src/common/tetris_royal_lib/game_engine/game_engine.cpp:209-220 | inverting a move twice gives it back; Left and Right swap and only Down is kept |
| Engine.GameEngine.constructor | src/common/tetris_royal_lib/game_engine/game_engine.cpp:327-328 | the engine holds the given match state and rules |
| Engine.GameEngine.NotifyLoss | src/common/tetris_lib/tetris/tetris.hpp:77-82 | a lost game marks its player out of the match; nothing else changes |
| Engine.LossNoticed | src/common/tetris_lib/tetris/tetris.hpp:77-82 | notifying a loss changes only the player's alive flag, clearing it exactly when the game is lost |
| Engine.GameEngine.SendPenaltyRows | src/common/tetris_royal_lib/game_engine/game_engine.cpp:269-290 | the target's game receives the rows, and the target is out of the match when it loses by them |
| Engine.PenaltyRowsOutcome | src/common/tetris_royal_lib/game_engine/game_engine.cpp:269-290 | only the target's game and alive flag change, and it stays alive exactly when its game does |
| Engine.GameEngine.OnTetrominoPlaced | src/common/tetris_royal_lib/game_engine/game_engine.cpp:71-92 | the match becomes `AfterPlacement` of the old one |
| Engine.PlacementRewards | src/common/tetris_royal_lib/game_engine/game_engine.cpp:54-92 | clearing n rows adds 100·n to the score and, in the effect-economy mode only, n to the energy; target, stash and effect queues are kept |
| Engine.PlacementPenalty | src/common/tetris_royal_lib/game_engine/game_engine.cpp:71-92 | with penalty rows on, an alive target and n >= 2, the target's game receives exactly n - 1 rows and no other game changes; otherwise no game changes; only the player and its target change |
| Engine.PlacementSpares | src/common/tetris_royal_lib/game_engine/game_engine.cpp:71-92 | a placement revives nobody and leaves every other player who is out untouched |
| Engine.GameEngine.ClockTick | src/common/tetris_royal_lib/game_engine/game_engine.cpp:94-114 | the player's game ticks, and a loss takes the player out |
| Engine.GameEngine.TickGame | src/common/tetris_royal_lib/game_engine/game_engine.cpp:94-114 | the match becomes `AfterGameTick`: nothing on a tick that is not a game tick or that SlowDown skips, otherwise a clock tick followed by the placement rules |
| Engine.GameTickSpares | src/common/tetris_royal_lib/game_engine/game_engine.cpp:94-114 | a player's game tick revives nobody and changes no one else who is out |
| Engine.BonusTickedOutcome | src/common/tetris_royal_lib/game_engine/game_engine.cpp:116-142 | an active bonus counts down and goes when finished; with none active, the oldest granted bonus is taken and becomes active unless it is MiniTetrominoes; only those two fields change |
| Engine.PenaltyTickedOutcome | src/common/tetris_royal_lib/game_engine/game_engine.cpp:144-171 | the same for the active penalty and the received penalties, with Lightning applied at once instead |
| Engine.TimedBonusOutcome | src/common/tetris_royal_lib/game_engine/game_engine.cpp:116-142 | the player's record changes as `BonusTicked` says, and the game gains two mini pieces at the front exactly when a MiniTetrominoes bonus is taken |
| Engine.TimedPenaltyOutcome | src/common/tetris_royal_lib/game_engine/game_engine.cpp:144-171 | the record changes as `PenaltyTicked` says, and the board loses one occupied 2x2 square exactly when a Lightning penalty is taken |
| Engine.GameEngine.HandlePlayerTimedBonus | src/common/tetris_royal_lib/game_engine/game_engine.cpp:116-142 | the match becomes `AfterTimedBonus` |
| Engine.GameEngine.HandlePlayerTimedPenalty | src/common/tetris_royal_lib/game_engine/game_engine.cpp:144-171 | the match becomes `AfterTimedPenalty` |
| Engine.GameEngine.HandlePlayerTimedEffect | src/common/tetris_royal_lib/game_engine/game_engine.cpp:173-180 | the bonus step, then the penalty step |
| Engine.GameEngine.HandleMiniTetrominoes | src/common/tetris_royal_lib/game_engine/game_engine.cpp:301-313 | with the effect economy on, two mini pieces are put at the front of the player's queue by a loop of two insertions |
| Engine.MinisOk | src/common/tetris_royal_lib/game_engine/game_engine.cpp:301-313 | the inserted mini pieces keep the game consistent and are the next shapes handed out |
| Engine.GameEngine.HandleLightning | src/common/tetris_royal_lib/game_engine/game_engine.cpp:315-321 | with the effect economy on, the player's board loses one occupied 2x2 square found from the drawn start cell |
| Engine.BonusSpares | src/common/tetris_royal_lib/game_engine/game_engine.cpp:116-142 | a timed bonus step keeps the player alive, revives nobody and touches no one who is out |
| Engine.PenaltySpares | src/common/tetris_royal_lib/game_engine/game_engine.cpp:144-171 | the same for a timed penalty step |
| Engine.GameEngine.TickPlayer | src/common/tetris_royal_lib/game_engine/game_engine.cpp:498-510 | one alive player's turn in a tick: timed effects, then the game tick |
| Engine.PlayerTickSpares | src/common/tetris_royal_lib/game_engine/game_engine.cpp:498-510 | a player's turn revives nobody and touches no one who is out |
| Engine.GameEngine.TickTurn | src/common/tetris_royal_lib/game_engine/game_engine.cpp:498-510 | an alive player takes its turn, and a player who is out is skipped |
| Engine.GameEngine.Tick | src/common/tetris_royal_lib/game_engine/game_engine.cpp:498-510 | the loop over the players in id order gives `AfterTick` of the old match |
| Engine.TickUnfolds | src/common/tetris_royal_lib/game_engine/game_engine.cpp:498-510 | a tick is the i-th player's turn, taken only when that player is alive, followed by the rest |
| Engine.TickSparesDead | src/common/tetris_royal_lib/game_engine/game_engine.cpp:498-510 | a whole tick never revives a player and never changes the record or the game of a player who is out |
| Engine.CommandsGated | src/common/tetris_royal_lib/game_engine/game_engine.cpp:393-443 | a move, rotation, hold or big drop by a player who is out or under InputLock changes nothing |
| Engine.ReversedControlsOutcome | src/common/tetris_royal_lib/game_engine/game_engine.cpp:182-193 | under ReverseControls the inverted move or the opposite rotation acts as the requested one, and no record changes |
| Engine.GameEngine.MoveEvent | src/common/tetris_royal_lib/game_engine/game_engine.cpp:393-411 | the player's game becomes `TriedMove` of the old game |
| Engine.GameEngine.TryMoveActive | src/common/tetris_royal_lib/game_engine/game_engine.cpp:393-411 | the match becomes `AfterMove`: gated by alive and InputLock, with Left and Right swapped under ReverseControls |
| Engine.GameEngine.RotateEvent | src/common/tetris_royal_lib/game_engine/game_engine.cpp:445-463 | the player's game becomes `TriedRotate` of the old game |
| Engine.GameEngine.TryRotateActive | src/common/tetris_royal_lib/game_engine/game_engine.cpp:445-463 | the match becomes `AfterRotate`: gated as a move, with the direction flipped under ReverseControls |
| Engine.GameEngine.HoldEvent | src/common/tetris_royal_lib/game_engine/game_engine.cpp:427-443 | the player's game becomes `Held` of the old game |
| Engine.GameEngine.HoldActiveTetromino | src/common/tetris_royal_lib/game_engine/game_engine.cpp:427-443 | the match becomes `AfterHold`, gated as a move |
| Engine.GameEngine.BigDropEvent | src/common/tetris_lib/tetris/tetris.hpp:129-136 | the player's game and the cleared count are `BigDropped` of the old game |
| Engine.GameEngine.DropAndLock | src/common/tetris_royal_lib/game_engine/game_engine.cpp:413-425 | the big drop, with a loss taking the player out |
| Engine.GameEngine.BigDrop | src/common/tetris_royal_lib/game_engine/game_engine.cpp:413-425 | the match becomes `AfterBigDrop`: gated as a move, then a drop and lock followed by the placement rules |
| Engine.GameEngine.QuitGame | src/common/tetris_royal_lib/game_engine/game_engine.cpp:547-553 | the match becomes `AfterQuit` |
| Engine.QuitOutcome | src/common/tetris_royal_lib/game_engine/game_engine.cpp:547-553 | a player in the match is out afterwards; nothing else changes, and quitting again changes nothing |
| Engine.GameEngine.SelectTarget | src/common/tetris_royal_lib/game_engine/game_engine.cpp:378-391 | the match becomes `AfterSelectTarget` |
| Engine.SelectTargetOutcome | src/common/tetris_royal_lib/game_engine/game_engine.cpp:378-391 | with target selection on and both players alive, t becomes u's target and nothing else changes; otherwise nothing changes |
| Engine.AfterPenaltyEffect | src/common/tetris_royal_lib/game_engine/game_engine.cpp:245-267 | it fails exactly when the effect economy is on and the sender has no target or the target is not in the match; otherwise only records change |
| Engine.GameEngine.SendPenaltyEffect | src/common/tetris_royal_lib/game_engine/game_engine.cpp:245-267 | it fails exactly as `AfterPenaltyEffect` does and then changes nothing; otherwise the penalty joins the end of the target's received penalties |
| Engine.SentAllStep | src/common/tetris_royal_lib/game_engine/game_engine.cpp:245-267 | sending penalties one at a time is sending them together, in order |
| Engine.SentAllKeepsTargets | src/common/tetris_royal_lib/game_engine/game_engine.cpp:245-267 | sending penalties changes nobody's target |
| Engine.GameEngine.DeliverEffect | src/common/tetris_royal_lib/game_engine/game_engine.cpp:356-372 | a bonus is granted to the buyer; a stashed penalty joins the buyer's stash; any other penalty goes to the target |
| Engine.GameEngine.TryBuyEffect | src/common/tetris_royal_lib/game_engine/game_engine.cpp:330-376 | the match becomes `AfterBuy` of the old match |
| Engine.BuyOutcome | src/common/tetris_royal_lib/game_engine/game_engine.cpp:330-376 | a refused purchase changes nothing; an accepted one takes exactly the price from the buyer's energy and delivers the effect to the right queue; nobody's alive flag changes |
| Engine.PenaltyWithoutTargetIsStashed | src/common/tetris_royal_lib/game_engine/game_engine.cpp:346-351 | a penalty bought without an alive target goes to the buyer's stash whatever was asked, and nobody else changes |
| Engine.GameEngine.SendToTarget | src/common/tetris_royal_lib/game_engine/game_engine.cpp:485-489 | one stashed penalty joins the end of the target's received penalties |
| Engine.GameEngine.SendStashed | src/common/tetris_royal_lib/game_engine/game_engine.cpp:482-489 | the loop sends the queue copy's penalties to the target in order |
| Engine.GameEngine.EmptyPenaltyStash | src/common/tetris_royal_lib/game_engine/game_engine.cpp:465-490 | the match becomes `AfterEmptyStash` of the old match: the guards as written, then the corrected (draining) reading of the loop from the Findings row |
| Engine.EmptyStashOutcome | src/common/tetris_royal_lib/game_engine/game_engine.cpp:465-490 | under the corrected reading of the Findings row: a refused request changes nothing; an allowed one appends the stash, oldest first, to the target's received penalties and leaves the stash empty |
| Engine.EmptyStashIdempotent | src/common/tetris_royal_lib/game_engine/game_engine.cpp:465-490 | asking to empty the stash a second time changes nothing |
| Engine.StashResentAsWritten | src/common/tetris_royal_lib/game_engine/game_engine.cpp:482-489 | as written, with the stash left in place, a second request delivers the same penalties again |
| Engine.GameEngine.GetWinner | src/common/tetris_royal_lib/game_engine/game_engine.cpp:517-534 | the counting loop's result is `EngineWinner` |
| Engine.EngineWinnerIsSoleSurvivor | src/common/tetris_royal_lib/game_engine/game_engine.cpp:517-534 | outside Endless mode it fails exactly when nobody is alive and names x exactly when x is the only alive player; it agrees with the match's winner |
| Engine.GameEngine.GameIsFinished | src/common/tetris_royal_lib/game_engine/game_engine.cpp:536-545 | the result is `Finished` |
| Engine.FinishedIffSoleSurvivor | src/common/tetris_royal_lib/game_engine/game_engine.cpp:536-545 | outside Endless mode the match is finished exactly when one player alone is alive; in Endless mode, exactly when the first player is out |

## Left out

- JSON. `Board.Serialize`/`Deserialize` and the two `serializeFor…` snapshots are modelled on values: a cell codec is a parameter, and a snapshot is a record of the fields the source writes. The JSON library itself is not modelled.
- The client interfaces, the network, the account service and the database are not modelled.
- Observers. A `Tetris` records its loss in an `alive` flag. After each event the engine copies that flag into the player's record (`NotifyLoss`, `WithGame`). The observer list and its add/remove calls are not modelled.
- Randomness and pacing are parameters: the piece stream, the penalty-row gap columns, the Lightning start cell, and the game-tick and SlowDown-skip flags (`Draws`). `PlayerState::notifyEngineTick`/`isGameTick` and the SlowDown bonus's own tick counting are not modelled.
- Player records, timed effects and effect prices are modelled from their uses in the engine, because player_state and the effect classes are not part of this model.
  - `Rules` supplies the prices and durations.
  - The effect kinds the engine does not name are collapsed into `OtherBonus` and `OtherPenalty`.
- `shared_ptr` sharing between the engine, the match and the server is modelled as one `GameState` object that the engine holds.
- A `Tetris` holds its pieces (active, preview, held) as `Piece` values rather than `Tetromino` objects. In the source each is owned by a single `unique_ptr`, so no aliasing is lost. The `Tetromino` class methods are proved against the same `Moved`/`Rotated`/`KickCandidate` functions that `Tetris` uses.
- The bodies of tetris.cpp, the shape templates, the spawn anchors and the mini piece's kick table are not part of this model. `Tetris` follows the event documentation of tetris.hpp, and the templates are a `Catalog` parameter.
- Engine.GameEngine.SendPenaltyRows: the source throws when the sender has no target, or when the target has no game. Its only caller, `onTetrominoPlaced`, checks for an alive target first, so these throws cannot happen. The model takes the target's id and requires that the target is in the match.
- Engine.GameEngine.OnTetrominoPlaced: the source adds the score before sending penalty rows, and the model adds it after. Sending rows changes only the target's game and alive flag, so the result is the same.
- Engine.GameEngine.GetWinner: the source asserts that somebody is alive. The model returns an error result instead.
- Boards.Board.constructor: board.hpp and grid_cell.hpp are not part of this model. The model assumes that a new board's cells are all empty (a default-constructed `GridCell` holding no colour).
- Pieces.Tetromino.GetNthOffsetTest: the source's `.at(offsetIndex - 1)` throws `std::out_of_range` for index 0 or an index past the kick table. The model requires 1 <= n <= the number of tests instead, because its only caller, the kick search of `eventTryRotateActive` (`FirstFittingKick`), tries exactly 1..N.
- Boards.Board.PlaceTetromino: the source's `at`/`getRow` throw `std::out_of_range` for a cell outside the grid. The model requires every cell of the piece to be in bounds instead, because its callers (`Tetris.PlaceActive`) check `checkInGrid` on the piece first.
- Engine.GameEngine.EmptyPenaltyStash: models the corrected reading of the Findings row, in which the stash is drained. The code as written sends a copy of the stash and leaves the stash in place. That behaviour is `AfterEmptyStashAsWritten`, and `StashResentAsWritten` shows the second request sending the same penalties again.
- Engine.EmptyStashOutcome: states the corrected reading (the stash is empty afterwards), not the code as written; see the Findings row and the line above.
- Board width and height: the header that fixes them is not part of this model, so they are constants of at least 2 each.
- Boards.Board.ReceivePenaltyRows: the code checks only row Height - n for emptiness, not the top n rows. The model follows the code, and `PenaltyRowsCanPushBlocksOff` shows that blocks above that row can be lost.

## Findings

| source | as written | input that shows it | evidently intended | confidence | as-written member | corrected member |
|---|---|---|---|---|---|---|
| src/common/tetris_royal_lib/game_engine/game_engine.cpp:482-489 | `emptyPenaltyStash` sends each penalty of a copy of the stash (`getStashedPenalties` returns the queue by value) and never clears the stash itself | a player with stash [Lightning] and an alive target asks to empty the stash twice: the target receives Lightning twice | the stash is drained: each stashed penalty is sent once and the stash is empty afterwards (header: "Sends all the penalties that were stashed") | not executed; medium, because the body of `getStashedPenalties` is not part of this model | Engine.StashResentAsWritten | Engine.EmptyStashIdempotent |
