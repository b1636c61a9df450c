# Conway's Game of Life on a torus, in Dafny

This project models the simulation engine of a terminal Game of Life and the
decisions its real-time frame loop makes:

- **Boards** (`boards.dfy`): the two-state `Cell` and its `flip`, and the
  `width × height` board stored row-major at `y * width + x`. Construction
  panics on a zero dimension, and accessors assert the bounds. The iterator
  is column-major (`y` varies fastest). The board has two text renderings,
  the cell `Display` and the board `Display`. A panic is modelled as the
  `Err` side of a `Result`.
- **Logic** (`logic.dfy`): `valid_neighbour_index` (Euclidean remainder, so
  the grid is a torus) and `count_live_neighbours`, a method with the
  source's nested loops. It is proved equal to a reference count over the
  eight neighbour offsets.
  `next_state` applies the B3/S23 rule to every cell of a snapshot and adds
  births and deaths to a lifecycle log. `resize` rebuilds the board at new
  dimensions.
- **Events** (`events.dfy`): the `BoardEvent`s the loop reacts to, and
  `handle_events`, which maps one polled terminal event to one of them.
- **Control** (`control.dfy`): the decision logic of the frame loop:
  - the initial diagonal seeding;
  - `remaining_time`;
  - the pause state machine;
  - speed changes;
  - clicks, resizes and `Exit`;
  - the rule that a frame advances the generation iff its deadline has
    passed and the loop is not paused.

  Clock readings are natural numbers of nanoseconds passed in by the caller.
  A frame's polling is a finite sequence of `Tick`s. Each tick is one
  `remaining_time` check at a clock reading, plus the event (if any) that
  polling returned.

The two renderings disagree, and the model keeps both as written: the cell `Display` writes `X` for a dead cell, while the board `Display` writes `X` for a live one.

The loop in `apps/tui/src/tui.rs` (`main_loop`) makes the same decisions as
the one in `src/main.rs`, in the same order. Only the I/O error handling
differs: `src/main.rs` calls `.unwrap()` on terminal operations (lines 31,
33, 42 and 62), and `apps/tui/src/tui.rs` returns the error with `?` (lines
162, 164, 173 and 193). The same members model the decision logic of both,
and the table cites both.

## Model

| member | source | states |
|---|---|---|
| Boards.Flip | src/game/board.rs:17-27 | flipping always changes the cell (`Dead`↔`Live`) |
| Boards.FlipTwice | src/game/board.rs:229-236 | flipping twice restores the original cell |
| Boards.CellText | src/game/board.rs:30-37 | a cell's `Display` is one character, `"O"` exactly for `Live` and `"X"` exactly for `Dead` |
| Boards.New | src/game/board.rs:53-62 | panics (zero-sized) iff a dimension is 0; otherwise the board has the requested width and height and every cell is `Dead` |
| Boards.Index | src/game/board.rs:94-98 | reading succeeds iff `x < width && y < height`; it yields the cell stored at `y * width + x`; otherwise it panics on the first failing bound (x before y) |
| Boards.Write | src/game/board.rs:101-106 | a write through `IndexMut` at an in-bounds position stores the cell there and leaves every other position and the dimensions unchanged |
| Boards.Set | src/game/board.rs:68-72 | `set` succeeds iff `check_index` holds; afterwards reading the position yields the stored cell and every other position reads as before; out of bounds it panics on the first failing bound |
| Boards.CheckIndexGuardsAccess | src/game/board.rs:47-49 | `check_index` holds exactly when reading succeeds, exactly when `set` succeeds, and exactly at the positions the iterator visits |
| Boards.Extensionality | src/game/board.rs:39-44 | two boards are equal iff they have the same width, height and cell at every position |
| Boards.IndexExample | src/game/board.rs:202-215 | on a 2×2 board, after storing `Live` at `(1,1)`, `(1,1)` reads `Live` and `(1,0)` reads `Dead`; storing at `(1,3)` panics on the y bound |
| Boards.Next | src/game/board.rs:163-173 | the iterator yields an entry iff it still has an index; the entry's cell is the board's cell there; the iterator then moves by `increment_index`, and fewer positions are left to visit |
| Boards.NewIter | src/game/board.rs:117-124 | a fresh iterator belongs to the board and has every one of its `width * height` positions still to visit |
| Boards.IncrementIndex | src/game/board.rs:126-140 | incrementing keeps the dimensions; a finished iterator stays finished; a pending position is always in bounds; from an in-bounds position it finishes exactly after `(width − 1, height − 1)`, and otherwise moves one step on in column-major order |
| Boards.IncrementStep | src/game/board.rs:126-140 | `increment_index` moves from the k-th position in column-major order to the (k+1)-th, or to the end after the last |
| Boards.Iterate | src/game/board.rs:116-124 | iterating a fresh iterator yields `width * height` entries; the k-th is at the k-th column-major position and carries the cell there |
| Boards.IterateVisitsEachOnce | src/game/board.rs:163-173 | every iteration entry is in bounds and carries the board's cell; every in-bounds position is visited exactly once, at its column-major rank |
| Boards.IterText | src/game/board.rs:217-227 | concatenating the cell texts of an iteration gives one character per entry, each the entry's cell `Display` |
| Boards.IterationExample | src/game/board.rs:217-227 | with `(0,0)` and `(0,1)` live on a 2×2 board, the iteration's cell texts concatenate to `"OOXX"` |
| Boards.Display | src/game/board.rs:75-89 | the board `Display` is `"Board: \n"` followed by `height` rows top to bottom. Each row has `width` characters (`'_'` dead, `'X'` live) and ends in `'\n'`; the length is the header's plus `height * (width + 1)` |
| Logic.ValidNeighbourIndex | src/game/logic.rs:59-66 | `None` exactly for the centre; otherwise an in-bounds position whose coordinates are the offsets wrapped onto the torus, lap by lap (`Wrap`) |
| Logic.WrapIsRemEuclid | src/game/logic.rs:63-64 | adding or removing whole laps until the coordinate is in `[0, n)` gives the Euclidean remainder `rem_euclid` (so −3 wraps to 7 on 10, as the `rem_check` test at src/game/logic.rs:83-85 shows) |
| Logic.WrapsAroundEdges | src/game/logic.rs:73-86 | the neighbour at offset −1 of column/row 0 is the last column/row, and offset `width`/`height` from the last wraps to 0 |
| Logic.CountLiveNeighbours | src/game/logic.rs:45-57 | the nested probing loops count, with multiplicity, the live wrapped cells among the eight offsets around the cell, skipping the centre; the count is at most 8 |
| Logic.BlockCountIsReference | src/game/logic.rs:49-55 | the 3×3 column-by-column probe, minus the centre, adds up to the reference count over the eight neighbour offsets |
| Logic.Transition | src/game/logic.rs:15-29 | the new cell is `Live` iff it has 3 live neighbours or is `Live` with 2; a transition is logged iff the cell changes: `Born` exactly for dead→live, `Died` exactly for live→dead |
| Logic.StepEntry | src/game/logic.rs:13-30 | one pass of the loop body writes the new cell computed from the snapshot at the entry's position and nowhere else; it logs the position with its transition exactly when the cell changes, and keeps every other key |
| Logic.StepEntries | src/game/logic.rs:12-31 | running the loop body over distinct snapshot entries writes the new cell computed from the snapshot at each entry's position. Every other position is untouched. Exactly the changing positions are added to the log, with their transition; the other keys keep their values |
| Logic.NextState | src/game/logic.rs:6-33 | dimensions are preserved and every cell follows B3/S23 on the snapshot. The returned flag is true iff the board differs from the one before, i.e. iff some cell changed. Every changed position is logged `Born`/`Died` by its new state; all other keys keep their prior values |
| Logic.FlipFitting | src/game/logic.rs:37-40 | the filtered `for_each` flips, in the new board, exactly the positions of live old entries that fit the new dimensions |
| Logic.Resize | src/game/logic.rs:35-42 | panics iff a new dimension is 0; otherwise the board is `x × y`, and `(i,j)` is `Live` iff `i` and `j` are within the old dimensions and the old `(i,j)` was `Live` |
| Logic.ResizeToSameSize | src/game/logic.rs:35-42 | resizing to the current dimensions returns the same board |
| Events.HandleEvents | apps/tui/src/tui.rs:120-154 | a failed poll, a timeout or a failed read give no event. A left-button press or drag gives a click at its column and row. `'q'`, `' '`, `'+'` and `'-'` give exactly `Exit`, `Pause`, `Speed(true)` and `Speed(false)`. A terminal resize gives `Resized` with its size. Anything else gives nothing |
| Events.EveryBoardEventIsReachable | apps/tui/src/tui.rs:125-149 | every board event is produced from some terminal event |
| Events.ModifiersAreIgnored | apps/tui/src/tui.rs:134-145 | the modifier keys held never change what a key event maps to |
| Control.SeedDiagonal | src/main.rs:37-39 | the seeding loop flips exactly the diagonal cells `(i,i)` with `i` in the loop range, and nothing else |
| Control.InitialBoard | src/main.rs:32-39 | the start-up board panics iff a terminal dimension is 0; otherwise its live cells are exactly `(i,i)` for `i < min(25, width, height)` |
| Control.Start | apps/tui/src/tui.rs:161-188 | the loop starts from the seeded board with a 64 ms frame duration, pause disabled, and `last_updated` at the start-up clock reading |
| Control.DueStaysDue | src/main.rs:61 | the advance deadline (`now > last_updated + frame_duration`) once passed stays passed as the clock moves on, passes no later for a shorter frame duration, and has not passed at exactly `last_updated + frame_duration` |
| Control.RemainingTime | src/main.rs:46-54 | with elapsed time `p` (saturating at 0), the result is `None` iff `p ≥ d`, and otherwise `d − p`, which lies in `(0, d]` |
| Control.ChangeSpeed | src/main.rs:87-93 | speeding up halves the frame duration rounding down (so it can reach 0); slowing down doubles it |
| Control.SlowDownThenSpeedUp | apps/tui/src/tui.rs:218-224 | doubling and then halving restores the frame duration |
| Control.TogglePause | src/main.rs:80-86 | `Pause` enables a disabled pause (`JustEnabled`) and disables any other state; it never yields `Activated` |
| Control.EndOfFrame | src/main.rs:99-106 | only `Activated` reports paused; `JustEnabled` becomes `Activated`; every other state is kept |
| Control.Click | apps/tui/src/tui.rs:198-204 | a click flips exactly the cell under it when it is on the board and leaves everything else unchanged; an off-board click leaves the board as it is |
| Control.ApplyEvent | src/main.rs:65-95 | each event changes only its own part of the loop state. A click is `Click`. `Exit` leaves the loop with the state unchanged. `Resized` becomes `resize`'s board, and panics iff a dimension is 0. `Pause` is `TogglePause`. `Speed` is `ChangeSpeed` |
| Control.InSlice | src/main.rs:64 | the ticks the polling loop reaches are the longest prefix whose `remaining_time` check finds time left; the first check that finds the slice used up ends it |
| Control.PolledEvents | src/main.rs:65 | the events polled from a sequence of ticks, in order: an event is among them iff some tick polled it |
| Control.Replay | src/main.rs:66-95 | events handled one after another, each by `ApplyEvent` (as `ReplayOne` and `ReplayAppend` state), stopping at the first `Exit` or panic. The board stays valid and `last_updated` is untouched. It exits only if some event was `Exit`, panics only if some event resized to a zero dimension, and keeps running when neither occurs |
| Control.ReplayOne | src/main.rs:66-94 | a single polled event is handled exactly by `ApplyEvent`; with `ReplayAppend` this fixes the handling of any sequence of events |
| Control.ReplayAppend | src/main.rs:64-96 | handling `a + b` is handling `a` and then `b` from the state reached, unless `a` already ended the loop |
| Control.ExitStopsReplay | src/main.rs:74-76 | an `Exit` ends the loop with the state the events before it reached; the events after it are never handled |
| Control.PollLoop | src/main.rs:64-96 | the polling loop of a frame is exactly `Replay` of the events polled in the slice's ticks (`InSlice`). So it handles every in-slice event in order, stops at the first check that finds the slice used up, and when the first check already finds no time left the state is unchanged |
| Control.LaterTicksIgnored | apps/tui/src/tui.rs:195-227 | once a check finds the slice used up, ticks after it change nothing |
| Control.PolledEventsAppend | src/main.rs:65 | the events polled from `a + b` are those from `a` followed by those from `b` |
| Control.Frame | src/main.rs:59-111 | `Exit` or a panic during polling ends the loop before the pause step and the advance. Otherwise the pause step runs. The generation advances (with `next_state`, its log discarded), and `last_updated` is stamped, iff the deadline sampled at the frame's start had passed and the pause is not active |
| Control.Run | apps/tui/src/tui.rs:190-242 | the outer loop keeps the board valid. It exits only if some frame polled `Exit` at a tick inside its slice, and panics only if some frame polled a resize to a zero dimension inside its slice. With neither it keeps running |
| Control.RunOneFrame | apps/tui/src/tui.rs:190-242 | one iteration of the outer loop is exactly one `Frame`; with `RunAppend` this fixes the loop over any sequence of frames |
| Control.RunAppend | apps/tui/src/tui.rs:190-242 | running `f1 + f2` is running `f1` and then `f2` from the state reached, unless `f1` already ended the loop |
| Control.ExitEndsTheLoop | src/main.rs:74-76 | an `Exit` polled at any tick inside the slice ends the loop at once, with the state the events polled before it reached: no later event, no pause step, no advance |
| Control.PauseTakesEffectNextFrame | apps/tui/src/tui.rs:230-241 | a pause requested while running still lets that frame advance when due, and stops the next frame from advancing |
| Control.UnpauseTakesEffectAtOnce | src/main.rs:99-110 | lifting an active pause lets the same frame advance when due |

## Left out

- Terminal I/O is not modelled, because it is rendering through a terminal library that is not part of this model. This covers:
  - raw mode, mouse capture, `get_size`, clearing the screen;
  - `draw_board` and its `Theme`/`DEFAULT_THEME` statics, in both front ends.
- `src/game/tui.rs` is not part of this model. Its `handle_events` is a channel-driven polling loop, and its key mapping duplicates the one in `apps/tui/src/tui.rs`.
- `src/main.rs:65` calls `handle_events(timeout)` and expects an `Option<BoardEvent>`. But the `handle_events` it imports, at `src/game/tui.rs:119-123`, takes a `Sender<BoardEvent>` and a `Receiver<()>` and returns `Result<()>`, so `src/main.rs` does not match it as written. The model uses `Events.HandleEvents` of `apps/tui/src/tui.rs` for both loops.
- `apps/tui/src/main.rs` is not part of this model: it is an error-mapping wrapper.
- Wall-clock time is not modelled. The clock readings (`Instant::now`) are natural numbers passed in by the caller.
- Control.Frame: the loop reads the clock twice at the top of a frame, once for `start` and once for the deadline test. The model uses the single reading `start` for both.
- Control.PollLoop: `poll` blocks for up to the remaining time, which is not modelled. The polling loop is a finite sequence of ticks, and it also stops when the ticks run out. The slice can only end at a tick.
- Control.ChangeSpeed: a `Duration` that overflows on doubling panics in Rust. The model's durations are unbounded naturals, so the overflow panic is not modelled. The same goes for the overflow of `last_updated + frame_duration`.
- `u16`→`usize` and `usize`→`isize` casts are not modelled. Coordinates are naturals and integers, and a terminal size never comes near the limits of those casts.
- `usize` overflow of the board arithmetic is not modelled: `width * height` at `src/game/board.rs:58` and `y * width + x` at `src/game/board.rs:71`, `97` and `105` are computed on unbounded naturals. For a board built from a terminal size (two `u16`s) neither can exceed 2³², far below the `usize` range of a 64-bit target.
- The four-state `Cell` that `apps/tui/src/tui.rs` renders comes from a library version that is not part of this model. The model uses the two-state `Cell` of `src/game/board.rs`.
- Control.Frame: both loops call `next_state` with only the board, although `src/game/logic.rs:6` also takes a lifecycle log. The model advances with an empty log and discards it.
- `src/main.rs:62` calls `draw_board` with a different number of arguments than `src/game/tui.rs` declares. Drawing is left out anyway.
