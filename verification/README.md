# Minesweeper engine and to-do list operations in Dafny

This project models two small browser programs and proves properties of the models.

**Minesweeper game engine.** The object that owns a `width × height` grid of cells. Each cell holds three flags: `isMine`, `isClicked`, `flagged`. The model covers:
- the mine-count check and the constructor defaults (8 × 8, 10 mines);
- random mine placement;
- the neighbour scan and the adjacent-mine count;
- the recursive flood-fill reveal;
- the win test;
- the click/flag handler with its `isDisabled`, `isStarted`, `flagCount` and `timeInSec` fields;
- `reset` and the face click.

The source keys its cell map by the string `"x:y"` and fills it row by row. The model keeps the map as a sequence in that insertion order: cell (x, y) sits at key `y * width + x` (`Board.Key`). "The last key" is therefore the bottom-right cell.

**To-do list.** An ordered list of records `{id, text, completed}`, newest first. The model covers:
- prepending a todo;
- the empty-input guard on the form;
- deleting by id;
- updating `completed` on the first todo with an id;
- clearing the completed todos;
- the visibility test that the list renderer applies for the filters 'all', 'active' and 'completed'.

Files:
- `wrappers.dfy`: the `Option`, `Outcome` and `Result` types.
- `board.dfy` (module `Board`): the pure queries. Cells, counting, grid keys, the neighbour scan, the area mine count and the win test.
- `game.dfy` (module `Game`): the class `Minesweeper` and the predicates that specify the reveal.
- `todo.dfy` (module `TodoList`): the `Select` filter, the views and the class `Todo`.

The model keeps these behaviours of the source as written:
- The mine draw `getRandomInt(0, size - 1)` yields 0 .. size − 2, so the bottom-right cell is never a mine.
- The flood fill clicks flagged cells and leaves their flag set.
- A right click on a clicked cell falls through to the reveal. A left click on a flagged cell is ignored, even when the cell is also clicked.
- Any click on a board that is not disabled sets `isStarted`, even a click that is then ignored.
- `reset` keeps `flagCount` and `isDisabled`. Only the face click enables the board again.
- The neighbour list of the flood fill is computed once, before the recursive calls. A later entry may already be clicked when its turn comes; it is revealed again.

## Model

| member | source | states |
|---|---|---|
| Board.Cell.Set | lesson9/minesweeper/assets/js/minesweeper.js:64-70 | each field given in the patch takes the given value; every other field keeps its value |
| Board.SetIsIdempotent | lesson9/minesweeper/assets/js/minesweeper.js:64-70 | applying the same patch twice is applying it once |
| Board.SetEmptyPatchKeepsCell | lesson9/minesweeper/assets/js/minesweeper.js:64-70 | an empty patch leaves the cell as it was |
| Board.Count | lesson9/minesweeper/assets/js/minesweeper.js:308-314 | the filter-and-length count is at most the number of cells; it is 0 exactly when no cell has the attribute, and it is the whole length exactly when all cells have it |
| Board.HasWinner | lesson9/minesweeper/assets/js/minesweeper.js:308-314 | the test compares the unclicked count with `minesCount`; it can hold only when `minesCount` is between 0 and the number of cells (its meaning is proved in the two rows below) |
| Board.UnclickedCoverMines | lesson9/minesweeper/assets/js/minesweeper.js:308-314 | when no mine is clicked, every mine is among the unclicked cells; the two counts are equal exactly when every safe cell is clicked |
| Board.WinnerIffAllSafeClicked | lesson9/minesweeper/assets/js/minesweeper.js:308-314 | with `minesCount` mines none of them clicked, `hasWinner` holds exactly when every safe cell is clicked |
| Board.WinnerIgnoresFlags | lesson9/minesweeper/assets/js/minesweeper.js:308-314 | two boards that differ only in flags agree on `hasWinner` |
| Board.Key | lesson9/minesweeper/assets/js/minesweeper.js:125-127 | an in-bounds position has a key below `width * height` (row-major insertion order) |
| Board.KeyInjective | lesson9/minesweeper/assets/js/minesweeper.js:227-233 | distinct in-bounds positions have distinct keys, as distinct `"x:y"` strings do |
| Board.LastKey | lesson9/minesweeper/assets/js/minesweeper.js:125-127 | the last key inserted is cell (width − 1, height − 1) |
| Board.GetCell | lesson9/minesweeper/assets/js/minesweeper.js:231-233 | a cell is found exactly for in-bounds coordinates, and it is the cell at that key; out of bounds gives none |
| Board.ScanCoordsAreEightOffsets | lesson9/minesweeper/assets/js/minesweeper.js:5-14 | `SCAN_COORDS` lists eight different offsets, each one square away from the centre |
| Board.ScanCoordsAreTheNeighbours | lesson9/minesweeper/assets/js/minesweeper.js:5-14 | the eight scan offsets reach exactly the positions at Chebyshev distance 1 |
| Board.ScanFrom | lesson9/minesweeper/assets/js/minesweeper.js:244-254 | the scan keeps a position exactly when it is an offset from the list, in bounds and unclicked; it yields at most one position per offset |
| Board.Surrounded | lesson9/minesweeper/assets/js/minesweeper.js:242-255 | at most 8 positions, none repeated; a position is returned exactly when it is in bounds, adjacent and not the centre, and unclicked |
| Board.MinesAmong | lesson9/minesweeper/assets/js/minesweeper.js:236-239 | `filter(isMine).length`: at most the list's length, 0 exactly when no listed cell is a mine, and on a list without repeats exactly the number of listed mine positions |
| Board.AreaMinesCount | lesson9/minesweeper/assets/js/minesweeper.js:235-240 | the count is exactly the number of mines among the unclicked on-board cells around the position; it lies in 0 .. 8 and is 0 exactly when none of those cells is a mine |
| Board.AreaZeroIffNoMineAround | lesson9/minesweeper/assets/js/minesweeper.js:235-240 | on a board with no clicked mine, the count is 0 exactly when no neighbour at all is a mine |
| Game.MinesCountAllowed | lesson9/minesweeper/assets/js/minesweeper.js:163-167 | `checkMinesCount` accepts a count up to `(width − 1) * (height − 1)`; a board one cell wide or high accepts no mines |
| Game.OrDefault | lesson9/minesweeper/assets/js/minesweeper.js:75-77 | the JavaScript logical-or default on a count: a positive value is kept, otherwise the fallback is taken, so a positive fallback always gives a positive count |
| Game.AllowedLeavesSafeCells | lesson9/minesweeper/assets/js/minesweeper.js:163-167 | an accepted mine count leaves at least width + height − 1 safe cells, so it is at most the number of drawable keys, `width * height − 1` |
| Game.CreateCells | lesson9/minesweeper/assets/js/minesweeper.js:123-146 | one fresh cell per key: `width * height` cells, each `NEW_CELL`, the state the `Cell` constructor sets at :19-21 (no mine, click or flag) |
| Game.ToggleFlag | lesson9/minesweeper/assets/js/minesweeper.js:356-369 | the cell's flag flips and nothing else changes; the counter goes down by one when a flag is set and up by one when it is cleared, without clamping; counter plus flagged cells is unchanged |
| Game.ToggleFlagTwice | lesson9/minesweeper/assets/js/minesweeper.js:356-369 | two flag actions on the same cell restore both the cells and the counter |
| Game.ClickOne | lesson9/minesweeper/assets/js/minesweeper.js:261-262 | clicking a safe cell keeps the mines placed, clicks that cell alone and lowers the termination measure |
| Game.SnapshotCoversNeighbours | lesson9/minesweeper/assets/js/minesweeper.js:265-269 | once every cell of the neighbour snapshot is clicked, every neighbour is clicked |
| Game.SweepStep | lesson9/minesweeper/assets/js/minesweeper.js:266-269 | revealing one more neighbour keeps the sweep's invariants: growth, earlier neighbours clicked, zero areas opened, reach from a zero area |
| Game.Minesweeper.constructor | lesson9/minesweeper/assets/js/minesweeper.js:72-86 | a new board has the given shape and `minesCount` mines, none on the last key; no cell is clicked or flagged; the clock is 0; the board is enabled and not started; `flagCount == minesCount` |
| Game.Minesweeper.Create | lesson9/minesweeper/assets/js/minesweeper.js:72-86 | absent counts take 8, 8 and 10; construction fails exactly when `minesCount > (width − 1) * (height − 1)`, so the boundary value is accepted |
| Game.Minesweeper.SetRandomMines | lesson9/minesweeper/assets/js/minesweeper.js:148-161 | from a board with no mines, the loop ends with exactly `minesCount` mines and none on the last key; nothing is clicked or flagged |
| Game.Minesweeper.ClearClickArea | lesson9/minesweeper/assets/js/minesweeper.js:257-271 | the cell ends clicked. If it had no mine around it, every neighbour ends clicked, and the same holds for every cell the reveal opened. Every other newly clicked cell touches a clicked cell with no mine around it. No mine is clicked, mines and flags stay, and clicked cells stay clicked. Revealing a clicked cell whose neighbours are all clicked changes nothing. |
| Game.Minesweeper.Win | lesson9/minesweeper/assets/js/minesweeper.js:316-319 | the board is disabled |
| Game.Minesweeper.Lose | lesson9/minesweeper/assets/js/minesweeper.js:321-324 | the board is disabled |
| Game.Minesweeper.FlagAction | lesson9/minesweeper/assets/js/minesweeper.js:356-369 | the flag branch of the click handler is exactly `ToggleFlag` on the cells and the counter, and keeps the board invariant |
| Game.Minesweeper.HandleCellClick | lesson9/minesweeper/assets/js/minesweeper.js:334-383 | see the case list below the table |
| Game.Minesweeper.ResetCells | lesson9/minesweeper/assets/js/minesweeper.js:46-62 | every cell becomes `NEW_CELL`: it loses its mine, click and flag (:59-61) |
| Game.Minesweeper.Reset | lesson9/minesweeper/assets/js/minesweeper.js:283-294 | no cell is clicked or flagged; exactly `minesCount` cells are mines, none on the last key; the clock is 0 and stopped; `flagCount` and `isDisabled` are unchanged |
| Game.Minesweeper.HandleFaceClick | lesson9/minesweeper/assets/js/minesweeper.js:296-300 | the board is enabled again and reset; `flagCount` is kept |
| TodoList.Shows | lesson9/todo-list/todo.js:114-122 | 'all' shows every todo; 'active' shows exactly the todos not completed and 'completed' exactly the completed ones |
| TodoList.Visible | lesson9/todo-list/todo.js:103-125 | the rows drawn are never more than the list, and a todo is drawn exactly when it is in the list and its filter shows it |
| TodoList.Select | lesson9/todo-list/todo.js:145-147 | the filter keeps exactly the elements that pass the test and is never longer than its input |
| TodoList.SelectMultiplicity | lesson9/todo-list/todo.js:145-147 | each element that passes is kept as often as it occurs; the others are dropped |
| TodoList.SelectAppend | lesson9/todo-list/todo.js:145-147 | filtering distributes over concatenation, so kept elements stay in their relative order |
| TodoList.SelectIdempotent | lesson9/todo-list/todo.js:205-207 | filtering twice with the same test equals filtering once |
| TodoList.VisibleAll | lesson9/todo-list/todo.js:114-116 | the 'all' view is the whole list, in order |
| TodoList.VisibleActive | lesson9/todo-list/todo.js:117-119 | the 'active' view is exactly the todos that are not completed, in order |
| TodoList.ActiveAndCompletedPartition | lesson9/todo-list/todo.js:117-122 | every todo is shown under exactly one of 'active' and 'completed'; the two views' sizes add up to the list's size |
| TodoList.DeleteUndoesAdd | lesson9/todo-list/todo.js:144-149 | deleting the id just prepended, when no other todo had it, gives back the old list |
| TodoList.ClearedShowsNoCompleted | lesson9/todo-list/todo.js:202-210 | after clearing, the 'completed' view is empty and the 'active' view is the whole list |
| TodoList.FindIndex | lesson9/todo-list/todo.js:158-160 | the index of the first todo with the id; none exactly when no todo has it |
| TodoList.Todo.constructor | lesson9/todo-list/todo.js:19-28 | the stored list, or an empty one when nothing is stored; the filter is 'all' |
| TodoList.Todo.AddTodo | lesson9/todo-list/todo.js:52-59 | the new, not completed todo with the given text and id comes first; the old todos follow unchanged and in order |
| TodoList.Todo.HandleFormSubmit | lesson9/todo-list/todo.js:127-142 | an empty input leaves the list unchanged; any other input prepends one todo |
| TodoList.Todo.DeleteRowById | lesson9/todo-list/todo.js:144-149 | every todo with the id is removed; the others stay in their relative order |
| TodoList.Todo.SetDataById | lesson9/todo-list/todo.js:157-162 | only the first todo with the id changes, and only its `completed` field; with no such todo the call fails and nothing changes |
| TodoList.Todo.ClearCompleted | lesson9/todo-list/todo.js:202-210 | exactly the todos that are not completed remain, in order; this is the 'active' view of the old list |
| TodoList.Todo.SetFilter | lesson9/todo-list/todo.js:180-200 | the filter becomes the chosen mode |

`Game.Minesweeper.HandleCellClick` states these cases:
- On a disabled board nothing changes.
- On an enabled board, `isStarted` becomes true. Then:
  - a left click on a flagged cell changes no cell and not `flagCount`;
  - a right click on an unclicked cell is the flag action `ToggleFlag`;
  - a click on a mine clicks no cell and disables the board;
  - any other click is the reveal, and afterwards the board is disabled exactly when `hasWinner` holds.
- In every case the board invariant (mine count, last key safe, no mine clicked) is kept.
- `flagCount` plus the number of flagged cells never changes.

## Left out

- The DOM and all rendering: `styleClicked`, the display side of `toggleFlag`, the score board, the flag and time pads, `showMines`/`hideMines`, `createTodoDiv`, `clearRows`, `updateFilterButtons`. Only the state these functions read or write is modelled.
- Event wiring and input decoding: `_handleTableClick`, `_handleTableRightClick`, the keyboard handler and its cosmetic "hacking mode", and the `parseInt` of `data-x`/`data-y`. Click coordinates are a parameter and are in bounds.
- The timer's ticking through `setInterval`/`clearInterval`: only `isStarted` and `timeInSec` are kept, and no call in the model advances the clock.
- `Math.random`. Mine positions are chosen nondeterministically among the keys 0 .. size − 2 that are not yet mines. A todo id is a parameter in 1 .. 999999.
- Game.Minesweeper.SetRandomMines: draws that land on a mine change nothing in the source. The model leaves them out, so each loop turn places one mine. The source's loop ends only with probability 1; the model's loop always ends.
- `Store`, `localStorage` and `JSON` persistence, and `console.log`: these are I/O. The constructor of `Todo` takes what storage returned as a parameter.
- The page-level instances at the bottom of each file.
- Game.Minesweeper.Create: the counts are natural numbers, where 0 stands for an absent or zero argument and takes the default. Negative, fractional or non-numeric arguments are not modelled.
- The cell fields `x`, `y`, `dom`, `isStarted` and `timePadTimer`: position is the key, and the others are display or timer state. `setCell` is modelled only as the cell-map population in `Game.CreateCells`.
- Board.Cell.Set: `Object.keys(data)` may name any property. The model's patch names only the three game flags.
- TodoList.Todo.SetDataById: `Object.assign` may copy any property. The model copies only `completed`, the only property the checkbox handler passes. The exception on a missing id is the `Fail` outcome.
- Game.Minesweeper.ClearClickArea: the contract says which cells must end clicked. It also says every other newly clicked cell touches a clicked zero-area cell. It does not pin down the exact set of clicked cells.
