# rtetris in Dafny

A verified model of the game engine of rtetris, a small Tetris written in Rust
on SDL2. The model covers two parts.

**The engine, from `src/tetris.rs`.**
- The seven tetriminos and their 4x4 rotation states.
- The collision test and the moves and rotation that go through it.
- The `Tetris` state: a 16x10 grid of `u8` cells, level, score, line count and the falling piece.
  - Locking a piece.
  - Line clearing and scoring.
  - Line and level progression over the two level tables.
- The per-frame functions:
  - `update_tetris`, which spawns a piece and detects game over;
  - `handle_events`, which applies key intents;
  - `falling`, which applies gravity.

**The score file, from `src/score_file.rs`.**
- Serialising a `u32` slice into one line.
- Parsing such a line back.
- Splitting the saved content into its two lines.
- The capped high-score table update.

Modules:
- `Wrappers`: `Option`.
- `Catalog`: kinds, shapes and colour ids.
- `Grid`: the map, `Fits`, `Lock`, and the line-clear result `Cleared`.
- `Levels`: the tables, `increase_line` as a function, and gravity timing.
- `Piece`: the class `Tetrimino` and the pure pose functions `Rotated` and `Dropped`.
- `Game`: the class `Tetris`, the intent model `Run`/`Settle`, and the per-frame methods.
- `ScoreFile`: the score-file functions and `UpdateVec`.

The mutable parts are classes whose methods update their fields:
- `Tetrimino`: `x`, `y`, `currentState`.
- `Tetris`: `gameMap`, `currentLevel`, `score`, `nbLines`, `currentPiece`, `prev`.

Each method is proved against a pure function of the old state. The game map is a `seq` of rows that the methods reassign. The scan of `check_lines` removes rows in place (`Vec::remove`), and its refill pushes rows on top (`Vec::insert(0, …)`).

The class invariant `Tetris.Valid` holds between operations:
- the map is 16x10 with no complete row;
- the level is at least 1;
- the falling piece, if any, fits.

The model follows the code in six places:

- **Level tables.** `LEVEL_LINES[level - 1]` and `LEVEL_TIMES[level - 1]` are indexed without a clamp.
  - The code does not clamp the tables: reaching level 11 makes the next lookup panic, and the model follows the code.
  - The lookups return `Option`. `increase_line`, `check_lines`, `make_permanent`, `handle_events` and `falling` return `ok = false` exactly where a level-table lookup panics. The `y -= 1` underflow of `check_lines` in overflow-checked builds is not one of these cases: the methods scan with an `int` index and go on (see "## Findings").
  - `Levels.LevelElevenPanics` exhibits the case.
- **Random draws.** `create_new_tetrimino` takes the two `rand::random::<u8>()` results as parameters, and both are reduced modulo 7. The `static mut PREV` is the field `prev`, initially 7.
- **Clock.** The clock is the elapsed time in milliseconds, or `None` when `SystemTime::elapsed` fails. Resetting the timer is a `timerReset` result.
- **Events.** The SDL event pump is a sequence of `Intent`s (`Quit`, `Down`, `Left`, `Right`, `Up`, `Space`).
  - `tmp_x`/`tmp_y` are captured before any rotation.
  - One `change_position` is tried after the loop.
  - A hard drop marks the piece for locking, but later events are still applied.
  - The first Quit ends the loop; the lock and the move still happen.
- **`make_permanent`.** It casts the column to `usize`. The cast is safe because the piece fits, and the model proves that the column is not negative at every write.
- **`check_lines`.** The scan index is an `int`; see "## Findings".

## Model

| member | source | states |
|---|---|---|
| Catalog.Shapes | src/tetris.rs:80-232 | the rotation states of each kind, cell by cell as the seven generators list them (I 2 states, J 4, L 4, O 1, S 2, Z 2, T 4), each cell 0 or the kind's colour id |
| Catalog.CatalogWellFormed | src/tetris.rs:80-238 | every kind has at least one state (I 2, J 4, L 4, O 1, S 2, Z 2, T 4); every state has exactly four non-zero cells, all equal to the kind's colour id (I=1 … T=7) |
| Catalog.SpawnX | src/tetris.rs:93 | the column a new piece starts at: 5 for O (src/tetris.rs:165), 4 for every other kind |
| Catalog.KindOf | src/tetris.rs:274-283 | the draw n in 0..6 selects the n-th kind in the order I, J, L, O, S, Z, T |
| Piece.Tetrimino.constructor | src/tetris.rs:80-238 | a new piece has its kind's states, state 0, row 0, and column 4 (5 for O) |
| Grid.Fits | src/tetris.rs:42-58 | a state fits at (x, y) when every non-zero cell lands in a row of the map, at a column 0 <= c < that row's length, on a 0 map cell |
| Grid.FitsAboveFloor | src/tetris.rs:42-58 | a shape with an occupied cell fits only at a row inside the map, which bounds every downward move |
| Piece.Tetrimino.TestPosition | src/tetris.rs:42-58 | true exactly when every non-zero cell of the state at (x+col, y+row) lies in a map row, at a column 0 <= c < the row's length, on a 0 cell |
| Piece.Tetrimino.TestCurrentPosition | src/tetris.rs:60-62 | the collision test at the piece's own state and position |
| Piece.Tetrimino.ChangePosition | src/tetris.rs:65-73 | the piece moves to the request exactly when it fits there; otherwise nothing changes; the state never changes |
| Piece.NextState | src/tetris.rs:25-29 | the candidate state is state+1, wrapping to 0 past the last state |
| Piece.FirstFit | src/tetris.rs:31-38 | the first offset index at which the shape fits, with none before it fitting; None when no offset fits |
| Piece.Rotated | src/tetris.rs:23-40 | where `rotate` leaves the piece: the next state at the first fitting offset of [0,-1,1,-2,2,-3] on the same row, or the old pose; the state stays in range |
| Piece.RotatedFirstFit | src/tetris.rs:23-40 | when some offset of [0,-1,1,-2,2,-3] fits, rotation commits the next state at the first one that fits and keeps the row |
| Piece.RotatedNoFit | src/tetris.rs:23-40 | when no offset fits, rotation leaves state and column unchanged |
| Piece.RotatedFits | src/tetris.rs:23-40 | a rotation of a fitting piece leaves it fitting |
| Piece.Tetrimino.Rotate | src/tetris.rs:23-40 | the piece ends at Rotated of its old pose |
| Piece.Dropped | src/tetris.rs:398-405 | the hard-drop row r is at or below the start, every row down to r fits, and row r+1 does not |
| Game.HardDrop | src/tetris.rs:398-405 | the Space loop moves the piece to the Dropped row, keeping its state and column |
| Grid.Lock | src/tetris.rs:305-322 | the map after the piece's cells are written: same height and row lengths, each cell the piece's non-zero cell over it or the old cell |
| Grid.LockWritesPiece | src/tetris.rs:305-322 | locking a fitting piece writes each of its non-zero cells with its colour, and no other cell changes |
| Grid.LockOccupies | src/tetris.rs:305-322 | after locking, the piece no longer fits where it was |
| Game.Tetris.WritePiece | src/tetris.rs:305-322 | the two write loops leave the map equal to Lock of the old map |
| Game.Tetris.MakePermanent | src/tetris.rs:302-331 | the state becomes AfterLock of the old state and the falling piece (written, level added once, lines cleared), the piece is dropped, and Valid holds; ok is false exactly where a level lookup panics |
| Game.AfterLock | src/tetris.rs:302-331 | the state after `make_permanent`: the piece (if any) locked into the map with the level added to the score once, then `AfterClear`; `None` where a level lookup panics |
| Game.AfterClear | src/tetris.rs:333-366 | the state after `check_lines`: the map `Cleared`, the score up by `ClearScore`, lines and level after one `increase_line` per inserted row; `None` where a lookup panics |
| Game.AfterLockSpec | src/tetris.rs:302-366 | after a lock the map is 16x10 with no complete row; at most four rows are removed; score goes up by level + level*removed (+1000 for four), using the pre-lock level; lines go up by removed; the level rises by at most removed |
| Game.LockRemovesAtMostFour | src/tetris.rs:349-359 | only the four rows a piece covers can complete, so one lock removes at most four rows |
| Game.RowComplete | src/tetris.rs:339-346 | a row is complete exactly when none of its cells is 0 |
| Grid.Incomplete | src/tetris.rs:338-355 | the rows the scan keeps: the incomplete rows in their original order, never more rows than the map |
| Grid.Cleared | src/tetris.rs:338-366 | the map after `check_lines`: as many empty rows on top as were removed, then the incomplete rows |
| Grid.IncompleteRows | src/tetris.rs:338-355 | the scan keeps exactly the incomplete rows: every kept row is an incomplete row of the map, and every incomplete row is kept |
| Grid.IncompleteAppend | src/tetris.rs:338-355 | the scan treats rows independently and keeps their relative order |
| Grid.ScanStep | src/tetris.rs:338-355 | one scan step removes the row at the scan index exactly when it is complete |
| Game.Tetris.RemoveCompleteRows | src/tetris.rs:334-355 | the scan with an int index leaves exactly the incomplete rows in order, counts the removed rows, and accumulates level*removed |
| Game.Tetris.RefillRows | src/tetris.rs:361-366 | rows of zeros are pushed on top until there are 16, one increase_line each; ok is false where that panics |
| Grid.ClearedWellFormed | src/tetris.rs:338-366 | after clearing, the map is 16x10 with no complete row: Removed rows of zeros on top, then the incomplete rows in their order |
| Grid.ClearOneRow | src/tetris.rs:338-366 | a single complete row k is removed, and the rows above it move down with one empty row on top |
| Game.Tetris.CheckLines | src/tetris.rs:333-367 | the state becomes AfterClear of the old state: cleared map, score + ClearScore(old level, removed), lines + removed, levels by increase_line; ok is false exactly where a lookup panics |
| Levels.ClearScore | src/tetris.rs:349-359 | the clear score is level*removed, and 4*level+1000 for exactly four rows |
| Levels.LevelThreshold | src/tetris.rs:10 | LEVEL_LINES[level-1] for levels 1..10, None (the panic) otherwise |
| Levels.LevelTime | src/tetris.rs:9 | LEVEL_TIMES[level-1] for levels 1..10, None (the panic) otherwise |
| Levels.TablesMonotone | src/tetris.rs:9-10 | gravity intervals strictly decrease and line thresholds strictly increase |
| Levels.IncreaseLine | src/tetris.rs:294-299 | the line count goes up by one; the level goes up by exactly one iff the new count exceeds LEVEL_LINES[level-1]; None outside levels 1..10 |
| Game.Tetris.IncreaseLine | src/tetris.rs:294-299 | the fields become Levels.IncreaseLine of the old ones; the count is already raised when the lookup panics |
| Game.Tetris.UpdateScore | src/tetris.rs:286-288 | score goes up by the amount |
| Game.Tetris.IncreaseLevel | src/tetris.rs:290-292 | level goes up by one |
| Levels.IncreaseLines | src/tetris.rs:362-366 | n calls of `increase_line` in a row, `None` from the first lookup panic on |
| Levels.IncreaseLinesBounds | src/tetris.rs:361-366 | n line increases raise the count by exactly n and the level by 0..n |
| Levels.IncreaseLinesStuck | src/tetris.rs:361-366 | once a lookup has panicked, more increases do not undo it |
| Levels.IncreaseLinesInTable | src/tetris.rs:294-299 | no lookup panics while the level cannot pass 10 |
| Levels.LevelElevenPanics | src/tetris.rs:294-299 | at level 10 with 200 lines, a double clear reaches level 11 and the second lookup panics; LEVEL_TIMES has no entry for 11 either |
| Levels.TimeOver | src/tetris.rs:428-437 | gravity fires iff elapsed > LEVEL_TIMES[level-1]; a clock error gives false; None where the lookup panics |
| Game.DrawKind | src/tetris.rs:265-272 | the kind is the first draw mod 7 unless it equals prev, else the second draw mod 7; it repeats prev only if both draws did |
| Game.Tetris.CreateNewTetrimino | src/tetris.rs:265-284 | prev becomes DrawKind of the draws, and the new piece is that kind's fresh piece at its spawn pose |
| Game.Tetris.constructor | src/tetris.rs:249-262 | an empty 16x10 map, level 1, score 0, no lines, no piece, prev 7, and Valid |
| Game.Tetris.UpdateTetris | src/tetris.rs:455-468 | with a piece: true and nothing changes; without: prev is redrawn, the result is whether the new piece fits at its spawn, and only then it is installed, else there is still no piece |
| Game.Step | src/tetris.rs:385-407 | one non-Quit event: Down raises tmp_y and resets the timer, Right/Left move tmp_x, Up rotates, Space hard-drops and marks the lock; the state stays in range |
| Game.Run | src/tetris.rs:378-410 | the event loop: events in order, the first Quit sets quit and ends the loop; the state stays in range |
| Game.Settle | src/tetris.rs:411-417 | after the loop: a drop locks at the dropped pose; otherwise the piece moves to (tmp_x, tmp_y) if it fits, and locks only if it does not and tmp_y differs from its row |
| Game.RunKeepsFit | src/tetris.rs:370-418 | after any batch of events, the piece's settled pose still fits |
| Game.HardDropLocks | src/tetris.rs:398-407 | a Space before any Quit always locks the piece, whatever events follow |
| Game.SidewaysNeverLocks | src/tetris.rs:410-417 | without Down or Space the failed move is never taken for a landing |
| Game.QuitEndsBatch | src/tetris.rs:376-380 | events after the first Quit are never looked at |
| Game.Tetris.HandleEvents | src/tetris.rs:370-425 | without a piece nothing happens; otherwise quit, lock and timer reset are those of Run/Settle on the events, the piece ends at the settled pose, or the state becomes AfterLock of it when it locks |
| Game.Tetris.Fall | src/tetris.rs:428-452 | when gravity fires, the piece moves one row down if it fits there, else it locks (AfterLock) and the timer resets; otherwise nothing changes; ok is false where a lookup panics |
| ScoreFile.ToDecimal | src/score_file.rs:20 | `u32::to_string`: a non-empty run of decimal digits with no leading zero |
| ScoreFile.ToDecimalValue | src/score_file.rs:20 | the decimal rendering denotes the number |
| ScoreFile.ParseToDecimal | src/score_file.rs:31-32 | every u32's rendering parses back to it |
| ScoreFile.ParseU32 | src/score_file.rs:31-32 | "" and "+" are rejected, as is any token with a non-digit other than a leading '+' |
| ScoreFile.ParseNewline | src/score_file.rs:31-32 | a token ending with a line break never parses |
| ScoreFile.Split | src/score_file.rs:31 | `str::split` on one separator: at least one piece, none containing the separator, empty pieces kept ("" gives [""]) |
| ScoreFile.Join | src/score_file.rs:21 | `join` with one separator: the tokens in order with the separator between neighbours, "" for no tokens |
| ScoreFile.ParseTokens | src/score_file.rs:31-33 | the `filter_map` over `parse::<u32>().ok()`: the tokens that parse, in order, never more values than tokens |
| ScoreFile.SplitJoin | src/score_file.rs:19-34 | splitting undoes joining for separator-free tokens, with trailing separator-free text appended to the last token |
| ScoreFile.SliceToString | src/score_file.rs:19-22 | the values' decimal renderings joined by single spaces |
| ScoreFile.LineToSlice | src/score_file.rs:30-34 | split on single spaces and keep, in order, the tokens that parse as `u32` |
| ScoreFile.SaveContent | src/score_file.rs:24-27 | the saved text: the high scores' line, a line break, the line counts' line, a line break |
| ScoreFile.SliceToStringTokens | src/score_file.rs:19-22 | an empty slice gives ""; otherwise splitting the text at its spaces gives exactly the decimal renderings (no leading, trailing or doubled space) |
| ScoreFile.ParseTokensAppend | src/score_file.rs:30-34 | the filter keeps each token's result independently and in order |
| ScoreFile.LineRoundTrip | src/score_file.rs:19-34 | line_to_slice(slice_to_string(v)) == v for every u32 sequence |
| ScoreFile.LineWithBreak | src/score_file.rs:30-34 | a rendered line followed by a line break loses its last value |
| ScoreFile.SplitOnce | src/score_file.rs:38-39 | splitn(2, "\n"): one part without a break, else the text before the first break and everything after it |
| ScoreFile.SplitOnceAt | src/score_file.rs:38-39 | text, break, rest splits into exactly [text, rest] when the text has no break |
| ScoreFile.LoadContent | src/score_file.rs:36-49 | the content yields a pair of lists exactly when it holds a line break |
| ScoreFile.LoadAfterSave | src/score_file.rs:24-49 | loading saved content gives the high scores back but drops the last line count |
| ScoreFile.LoadContentTrimmed | src/score_file.rs:36-49 | the loader as intended, with the second line's final line break trimmed; `Some` exactly when the content holds a line break |
| ScoreFile.LoadTrimmedAfterSave | src/score_file.rs:24-49 | with the line break trimmed, loading the saved content gives both lists back exactly |
| ScoreFile.FirstBelow | src/score_file.rs:56-60 | the first index whose entry is strictly less than the value, or None when the value is at most every entry |
| ScoreFile.UpdatedTable | src/score_file.rs:51-63 | a table shorter than 5 gets the value appended; a full one has its first entry below the value overwritten; otherwise it is unchanged and the result is false |
| ScoreFile.UpdateVec | src/score_file.rs:51-63 | the looped update returns exactly UpdatedTable: append when short, overwrite the FirstBelow entry when full, else unchanged and false |
| ScoreFile.UpdatedTableShape | src/score_file.rs:51-63 | false exactly when the table is full and the value is at most every entry; length grows by at most one and not past max(old, 5); a full table changes only its FirstBelow entry, to the value |
| Grid.ScanChecked | src/tetris.rs:338-355 | the scan as written with a usize index under overflow checks |
| Grid.ScanCheckedRowZero | src/tetris.rs:348-353 | a complete top row makes the as-written scan fail at `y -= 1` |
| Grid.ScanCheckedAgrees | src/tetris.rs:338-355 | with an incomplete top row the as-written scan removes exactly the complete rows |
| Grid.RowZeroUnderflow | src/tetris.rs:348-353 | a well-formed map with a full top row on which the as-written scan fails, while the intended result keeps the 15 other rows |

## Left out

- `src/main.rs`: window, rendering, fonts, the 60 fps loop and the game-over report. It is I/O.
- `print_game_information`, the game-over report that `update_tetris` calls (src/tetris.rs:460), is left out: it is output.
- The SDL event pump and key codes. They are replaced by a sequence of intents, and events other than the six keys are not modelled.
- `SystemTime`. It is replaced by an elapsed-milliseconds parameter and a timer-reset result.
  - The `as_secs() as u32 * 1000` arithmetic is not modelled, so its `u32` overflow for very long intervals is out of scope.
- `rand::random`. It is replaced by two draws in 0..255. The second draw is passed even when the source does not make it.
- File access: `write_into_file`, `read_from_file`, the file names, and the `is_ok()` result of `save_highscores_and_lines`. Only the content written (`SaveContent`) and the parsing of the content read (`LoadContent`) are modelled. A read error simply gives `None` in the source.
- `u32` overflow of `score`, `nb_lines` and `current_level`. The model uses unbounded naturals.
- Game.Tetris.HandleEvents: where locking panics (`ok` false), the state left behind is not described, because the source aborts there.
- Game.Tetris.Fall: where `make_permanent` panics, the state left behind is not described, for the same reason.
- Game.Tetris.MakePermanent: where line clearing panics, the state left behind is not described, for the same reason.
- Game.Tetris.CheckLines: where `increase_line` panics, the state left behind is not described, for the same reason.
- ScoreFile.UpdateVec: the vector is taken and returned as a value instead of being updated through `&mut Vec`. The loop and its early return are kept.

## Findings

| source | as written | input that shows it | evidently intended | confidence | as-written member | corrected member |
|---|---|---|---|---|---|---|
| src/tetris.rs:352 | after removing row `y`, `y -= 1` on a `usize`, which underflows when `y` is 0 | a map whose top row is complete (`Grid.RowZeroUnderflow`) | step back so that the next row is scanned from the same index | not executed; this is a panic only in builds with overflow checks, because release builds wrap and then `y += 1` restores 0 | Grid.ScanChecked | Game.Tetris.RemoveCompleteRows |
| src/score_file.rs:38-39 | the second part of `splitn(2, "\n")` keeps the final line break that the save writes, so the last token of the line counts fails to parse and is dropped | high scores [1] and line counts [3, 4]: the content "1\n3 4\n" loads line counts [3] (`ScoreFile.LoadAfterSave`) | both lists load back as saved | not executed | ScoreFile.LoadAfterSave | ScoreFile.LoadTrimmedAfterSave |
