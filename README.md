# minesweeper_ng board engine in Dafny

This project models the game logic of `minesweeper_ng/src/main.cpp`, a Siv3D minesweeper. The model covers:

- the cell record;
- the counter-based `GameState` and its status precedence;
- the neighbour list `adjVec`;
- `clearField`;
- `setupMines`, which places the mines around the first clicked cell and then numbers the cells;
- the recursive flood-fill `openCell`;
- the three player requests of the frame loop: reveal (left click), flag (right click) and retry (the R key).

Modules:

- `Cells` (`cells.dfy`): the `Cell` datatype, the mine sentinel `MINE = -1`, and counting over a row-major sequence of cells.
- `Geometry` (`geometry.dfy`): positions, the eight `adjVec` offsets in source order, the bounds test and the row-major index `width * r + c`.
- `GameStates` (`game_state.dfy`):
  - `StatusOf`, the status derived from the counters;
  - the class `GameState`, whose methods update `closedPlainCount`, `flagCount`, `mineSetup` and `bombed` in place.
- `Field` (`field.dfy`): the specification functions and lemmas behind the imperative code. It contains:
  - the neighbour count `AdjMines`;
  - the mine pool `MinePool`;
  - the copy step `Placed`;
  - the counting step `Numbered`;
  - what opening does (`OnlyOpens`, `OpenOne`);
  - the flood-fill closure `FloodClosed`;
  - the ghost cascade order `CascadeOrder`.
- `Board` (`board.dfy`):
  - the class `Grid`, a field stored row by row in an array;
  - the methods `ClearField`, `SetupMines` (with its steps `FillPool`, `Shuffle`, `CopyPool`, `CountNeighbours` and `CountCell`) and the recursive `OpenCell`.
- `Sessions` (`session.dfy`): the class `Session` that owns the field and the `GameState`, with `RequestReveal`, `RequestFlag` and `RequestRetry`. Its invariant `Consistent` says:
  - no open cell is flagged;
  - the flag display is `nmines` minus the flags;
  - before mine setup, every cell is closed with count 0;
  - after mine setup:
    - there are exactly `nmines` mines;
    - every non-mine count is the number of mines among its in-bounds neighbours;
    - `closedPlainCount` is the number of closed non-mine cells;
    - `bombed` holds exactly when a mine is open.

  Every request preserves this invariant.

`OpenCell` terminates because the set of closed cells strictly shrinks before each recursive call. It returns a ghost `order`, the cells in the order the cascade opens them. This order is used to prove:

- the cascade opens each cell at most once;
- it opens only cells reached from an open cell showing 0;
- so, with correct counts, it never opens a mine. This is why the first reveal can never end the game.

## Model

| member | source | states |
|---|---|---|
| `GameStates.StatusOf` | minesweeper_ng/src/main.cpp:47-58 | NOT_READY exactly when mines are not set up; GAMEOVER exactly when set up and bombed, even with no closed plain cell left; GAMECLEAR exactly when set up, not bombed and `closedPlainCount == 0`; PLAYING otherwise |
| `GameStates.GameState.constructor` | minesweeper_ng/src/main.cpp:31-34 | `closedPlainCount = ncells - nmines`, `flagCount = nmines`, not set up, not bombed |
| `GameStates.GameState.TriggerMine` | minesweeper_ng/src/main.cpp:35 | sets `bombed`, nothing else changes |
| `GameStates.GameState.SetupMines` | minesweeper_ng/src/main.cpp:36 | sets `mineSetup`, nothing else changes |
| `GameStates.GameState.OpenPlain` | minesweeper_ng/src/main.cpp:37 | `closedPlainCount` goes down by one, nothing else changes |
| `GameStates.GameState.BuildFlag` | minesweeper_ng/src/main.cpp:38 | `flagCount` goes down by one with no clamp, nothing else changes |
| `GameStates.GameState.RemoveFlag` | minesweeper_ng/src/main.cpp:39 | `flagCount` goes up by one, nothing else changes |
| `GameStates.GameState.Reset` | minesweeper_ng/src/main.cpp:40-45 | the construction values come back, so the status is NOT_READY |
| `Geometry.Step` | minesweeper_ng/src/main.cpp:61-65 | the k-th `adjVec` neighbour differs from the cell and lies within one row and one column of it |
| `Geometry.Idx` | minesweeper_ng/src/main.cpp:93 | the row-major index `width * r + c` of an in-bounds cell lies in `0 .. width*height-1` |
| `Geometry.IdxInjective` | minesweeper_ng/src/main.cpp:93 | distinct in-bounds cells have distinct indices |
| `Field.AdjMines` | minesweeper_ng/src/main.cpp:104-109 | the mines among the first k neighbours number at most k, hence 0..8 |
| `Field.AdjMinesSameMines` | minesweeper_ng/src/main.cpp:100-111 | a neighbour count depends only on where the mines are; the test against `-1` never changes while counts are incremented |
| `Field.ZeroHasNoMineNeighbour` | minesweeper_ng/src/main.cpp:128-135 | with correct counts, a cell showing 0 has no mine among its neighbours |
| `Field.CountInRange` | minesweeper_ng/src/main.cpp:100-111 | with correct counts, every cell holds `-1` or a value in 0..8 |
| `Field.MinePoolMines` | minesweeper_ng/src/main.cpp:83-85 | the unshuffled pool of `n` slots holds exactly `nmines` mines when `nmines <= n` |
| `Field.Placed` | minesweeper_ng/src/main.cpp:91-98 | the counts after the copy are the pool with the avoided cell's own count inserted at its index; open and flag bits are unchanged |
| `Field.PlacedMines` | minesweeper_ng/src/main.cpp:81-98 | any permutation of the pool, placed around the avoided cell, gives exactly `nmines` mines, none on the avoided cell |
| `Field.PoolValues` | minesweeper_ng/src/main.cpp:83-89 | every slot of the shuffled pool is a mine or 0 |
| `Field.NumberedCorrect` | minesweeper_ng/src/main.cpp:100-111 | counting from a layout of mines and zeros puts in every non-mine cell the number of its neighbouring mines |
| `Field.PlacedAndNumbered` | minesweeper_ng/src/main.cpp:78-112 | after the whole placement, `nmines` mines, none on the avoided cell, and correct counts when the avoided cell held 0 |
| `Field.ClosedCellsShrink` | minesweeper_ng/src/main.cpp:117 | opening a closed cell strictly shrinks the set of closed cells, the measure of the recursion |
| `Field.OpenOneFacts` | minesweeper_ng/src/main.cpp:117-125 | opening one cell opens and unflags only it; it opens a mine iff the cell is one; one closed plain cell fewer unless it is a mine; one flag fewer iff it was flagged |
| `Field.OnlyOpensCountsCorrect` | minesweeper_ng/src/main.cpp:115-137 | opening cells keeps the counts correct |
| `Field.MineOpenedStep` | minesweeper_ng/src/main.cpp:122-124 | after opening, a mine is open iff one was open before or one was newly opened |
| `Field.OpensMineTrans` | minesweeper_ng/src/main.cpp:131-136 | a nested cascade opened a mine iff one of its two steps did |
| `Field.FirstNeighboursOpenStep` | minesweeper_ng/src/main.cpp:131-136 | each turn of the `adjVec` loop leaves one more neighbour open or out of bounds |
| `Field.NeighboursOpenStays` | minesweeper_ng/src/main.cpp:131-136 | neighbours opened earlier stay open through later recursive calls |
| `Field.FloodClosedTrans` | minesweeper_ng/src/main.cpp:131-136 | every opened zero cell ends with all neighbours open, across nested calls |
| `Field.ListsOpenedTrans` | minesweeper_ng/src/main.cpp:131-136 | joining two cascade orders lists exactly the cells opened by both, each once |
| `Field.AllReachedTrans` | minesweeper_ng/src/main.cpp:131-136 | every cell of the joined order is a neighbour of an earlier zero cell |
| `Field.CascadeOrderTrans` | minesweeper_ng/src/main.cpp:131-136 | the cascade order of a zero cell extended with that of a neighbour's recursive call is again a cascade order |
| `Field.CascadeAvoidsMines` | minesweeper_ng/src/main.cpp:127-136 | with correct counts, a cascade started on a non-mine cell opens no mine |
| `Board.Grid.constructor` | minesweeper_ng/src/main.cpp:159 | a `ncols` by `nrows` field of default cells: closed, unflagged, count 0 |
| `Board.ClearField` | minesweeper_ng/src/main.cpp:67-76 | every cell ends closed, unflagged, with count 0 |
| `Board.FillPool` | minesweeper_ng/src/main.cpp:83-85 | the pool is `ncells - 1` slots, the first `nmines` mines and the rest 0 |
| `Board.Shuffle` | minesweeper_ng/src/main.cpp:87-89 | the pool holds the supplied permutation of itself |
| `Board.CopyPool` | minesweeper_ng/src/main.cpp:91-98 | the field is `Placed`: each cell but the avoided one takes pool slot `index - (index > avoidIndex ? 1 : 0)` |
| `Board.CountNeighbours` | minesweeper_ng/src/main.cpp:100-111 | the mines and the open and flag bits stay; every non-mine cell gains the number of its in-bounds neighbouring mines |
| `Board.CountCell` | minesweeper_ng/src/main.cpp:104-109 | only the one cell changes, by the number of its in-bounds neighbours holding `-1` |
| `Board.SetupMines` | minesweeper_ng/src/main.cpp:78-112 | exactly `nmines` mines; none on the avoided cell; open and flag bits unchanged; every count is correct when the avoided cell held 0 |
| `Board.OpenCell` | minesweeper_ng/src/main.cpp:115-137 | only closed cells are opened, each one unflagged; every opened cell showing 0 ends with all in-bounds neighbours open; the ghost order lists each opened cell once, each after the first reached from an earlier zero cell; a cell not showing 0 opens alone; on a mine `bombed` is set and `closedPlainCount` is untouched; `closedPlainCount` drops by the non-mine cells opened and `flagCount` rises by the flags removed |
| `Sessions.ToggleFlag` | minesweeper_ng/src/main.cpp:247 | only the flag of the one cell flips |
| `Sessions.ToggleFlagTwice` | minesweeper_ng/src/main.cpp:246-249 | toggling twice gives back the field |
| `Sessions.ToggleFlagCount` | minesweeper_ng/src/main.cpp:246-249 | a toggle adds or removes exactly one flag |
| `Sessions.StatusMeaning` | minesweeper_ng/src/main.cpp:47-58 | on a consistent board, GAMEOVER iff a mine is open, GAMECLEAR iff no mine is open and every non-mine cell is |
| `Sessions.FreshConsistent` | minesweeper_ng/src/main.cpp:152-159 | a default field with the construction counters satisfies the session invariant |
| `Sessions.SameBoard` | minesweeper_ng/src/main.cpp:246-249 | changing only flags changes no mine count, closed plain count, count correctness or open mine |
| `Sessions.ToggleConsistent` | minesweeper_ng/src/main.cpp:246-249 | toggling a flag on a closed cell keeps the invariant, with the flag display moved by one |
| `Sessions.LaidConsistent` | minesweeper_ng/src/main.cpp:239-242 | laying the mines on an unprepared board yields a prepared consistent board, no mine on the clicked cell |
| `Sessions.OpenedConsistent` | minesweeper_ng/src/main.cpp:243 | opening with the counter updates of `openCell` keeps the invariant |
| `Sessions.OneByTwoNeighbour` | minesweeper_ng/src/main.cpp:104-109 | on a 1x2 field, column 0 has column 1 as its only neighbour |
| `Sessions.OneByTwoPlaced` | minesweeper_ng/src/main.cpp:91-98 | on a 1x2 field avoiding column 0, the single pool slot lands on column 1 |
| `Sessions.OneByTwoLaidFirst` | minesweeper_ng/src/main.cpp:100-111 | counting from the placed 1x2 layout leaves column 0 closed, unflagged and showing 1 |
| `Sessions.OneByTwoLaidSecond` | minesweeper_ng/src/main.cpp:100-111 | counting from the placed 1x2 layout leaves column 1 closed, unflagged and holding the mine |
| `Sessions.OneByTwoLaid` | minesweeper_ng/src/main.cpp:78-112 | 1x2 field, one mine, first click at column 0: the mine is on column 1 and column 0 shows 1 |
| `Sessions.OneByTwoClosedPlain` | minesweeper_ng/src/main.cpp:20 | that field has one closed non-mine cell |
| `Sessions.OneByTwoCleared` | minesweeper_ng/src/main.cpp:122-130 | opening column 0 of that field leaves no closed plain cell: GAMECLEAR |
| `Sessions.Session.constructor` | minesweeper_ng/src/main.cpp:152-159 | a fresh session, consistent and in its initial state |
| `Sessions.Session.RequestReveal` | minesweeper_ng/src/main.cpp:218-244 | in GAMEOVER or GAMECLEAR, or on an open or flagged cell, nothing changes; otherwise the first reveal lays the mines around the cell, and that reveal never ends in GAMEOVER; the cell is then opened with its cascade, and the result is GAMEOVER iff the cell is a mine; the invariant is kept |
| `Sessions.Session.RequestFlag` | minesweeper_ng/src/main.cpp:231-250 | in GAMEOVER or GAMECLEAR, or on an open cell, nothing changes; otherwise the flag toggles and `flagCount` moves by one with no clamp; the invariant is kept |
| `Sessions.Session.RequestRetry` | minesweeper_ng/src/main.cpp:211-215 | accepted only in GAMEOVER or GAMECLEAR, where it restores the construction values: every cell closed, unflagged, count 0, `closedPlainCount = ncells - nmines`, `flagCount = nmines`, NOT_READY; in any other state nothing changes; the invariant is kept |
| `Sessions.NewGame` | minesweeper_ng/src/main.cpp:152-159 | a session with 14 rows, 18 columns and 40 mines, consistent and not ready |
| `Sessions.FlagTwice` | minesweeper_ng/src/main.cpp:246-249 | two right clicks on the same cell, through `RequestFlag`, give back the field and all four counters, including `flagCount`, in every state of the game |

## Left out

- Drawing and window setup are not modelled (main.cpp:141-150, 161-209, 219-220, 225-226). This is presentation code over the Siv3D library.
- Mouse and keyboard polling are replaced by explicit calls: `RequestReveal(r, c, shuffled)` and `RequestFlag(r, c)` take the clicked cell, and `RequestRetry()` stands for the R key.
  - The per-frame scan over all cells at main.cpp:231-252 becomes one request for the one cell under the mouse.
  - The retry at main.cpp:211-215 and a click later in the same frame become two calls, in that order.
- The randomness of main.cpp:87-89 (`random_device`, `mt19937`, `std::shuffle`) is a parameter. The caller passes `shuffled`, which may be any permutation of the unshuffled pool. Uniformity of the shuffle cannot be stated in the model.
- `InferredCell` (main.cpp:14-16) is unused by the program.
- The comment "return true if a mine clicked" at main.cpp:114 is not modelled: `openCell` returns nothing. The model returns only a ghost cascade order.
- `GameStates.GameState.GetFlagCount` and `GameStates.GameState.GetStatus` carry no contract of their own. The first only reads `flagCount`. The second is `StatusOf` of the counters, whose properties are proved on `StatusOf`.
- These definitions carry no contract of their own; their properties are proved in the lemmas named after each:
  - `Geometry.InBounds` (main.cpp:106, 133), the bounds test: `Geometry.Step`, `Geometry.Idx`, `Geometry.IdxInjective`;
  - `Field.MinePool` (main.cpp:83-85), the unshuffled pool: `Field.MinePoolMines`, `Field.PoolValues`, `Board.FillPool`;
  - `Field.NeighbourMines` (main.cpp:104-109), the count over all eight neighbours: `Field.AdjMines`, `Field.AdjMinesSameMines`, `Field.ZeroHasNoMineNeighbour`;
  - `Field.Numbered` and `Field.NumberedFrom` (main.cpp:100-111), the result of the counting loop: `Field.NumberedCorrect`, `Field.PlacedAndNumbered`, `Board.CountNeighbours`;
  - `Field.OpenOne` (main.cpp:117-121), opening one cell: `Field.OpenOneFacts`, `Field.ClosedCellsShrink`;
  - `Sessions.Session.CurrentStatus` (main.cpp:211, 218, 239), `getStatus()` of the session's counters: `GameStates.StatusOf`, `Sessions.StatusMeaning`;
  - `Sessions.Consistent`, the invariant every request keeps: `Sessions.FreshConsistent`, `Sessions.ToggleConsistent`, `Sessions.LaidConsistent`, `Sessions.OpenedConsistent`, and `Sessions.Session.Valid` in every request's contract.
- Integer widths are not modelled:
  - the model uses unbounded integers for the C++ `int` and `size_t` values;
  - C++ overflow on a field with more cells than `int` can count is therefore not captured;
  - the `size_t` wrap of `ncells - 1` on an empty field is excluded by requiring at least one row and one column.
- The source does no range checks, so the model demands them with preconditions:
  - `0 <= nmines <= ncells - 1`, since main.cpp:85 would write out of bounds otherwise;
  - the clicked cell must be in bounds.
- `Board.SetupMines` demands that the avoided cell's prior count is not negative: the count is kept and then incremented. Every caller passes a fresh or cleared field, where it is 0.
- `Board.OpenCell` demands that the cell be closed. Both call sites check this (main.cpp:133, 233).
- `s3d::Grid<Cell>` is modelled as a flat row-major array. `field[r][c]` is cell `width * r + c`, and the position `Point{c, r}` is `Pos(r, c)`.
- `setupMines` is written as a sequence of helper methods, one per loop of the source, in source order.
- The drawing constant `size` (main.cpp:155) is not modelled. The configuration 14 x 18 with 40 mines is used by `NewGame`; the session constructor takes any configuration.
- On a 1x2 field with one mine, a first click on column 0 forces the mine onto column 1, so column 0 shows 1 (`Sessions.OneByTwoLaid`), and that reveal still clears the game (`Sessions.OneByTwoCleared`). This scenario is stated on the field functions. A version driven through `Session.RequestReveal` is not part of the model because its proof exceeds the resource budget.
