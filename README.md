# Falling-block grid engine, modelled in Dafny

This project models the grid engine of a small browser falling-block game and
the sequence helpers it is built on.

The board is `W` cells wide and `H` high (10 by 20). The game state holds:
- an active piece, with a list of cells (`body`) and a persistent direction (one row down);
- the list of settled cells (`fixed_block`);
- a running flag, a score and a speed.

A tick (`next-state`) asks `collisions` whether the move is blocked. The piece moves only when it is not. When the move hits the floor or a settled cell, `collisions` itself settles the piece and spawns a new one-cell piece in the top row. The tick then always runs `clear_full_row`, which removes the rows holding `W` cells and drops the cells above.

The files:
- `utils.dfy` (module `Utils`): the helpers of `utils.js`. `partition`, `partition_by`, `group_by`, `range`, the zip-style `map`, `equals` and `ArraySet` are loops, so they are methods proved against specification functions (`Flatten`, `Runs`, `Select`, `Buckets`). `contains` is a function.
- `grid.dfy` (module `Grid`): cells and vectors, spawning a piece, translating it, the arrow-key table, and the collision decision as a three-way `Outcome`.
- `rows.dfy` (module `Rows`): the row logic of `clear_full_row` as a specification function `ClearFullRows`, the stable sort by row as `SortByRow`, `move_above_blocks_down`, and the lemmas that say what clearing does.
- `game.dfy` (module `Game`):
  - the tick as a function of the board (`Moved`, `Step`) and its invariant `WellFormed`;
  - class `Piece` (the active block; `Move` is `move_block`);
  - class `GameState` (the state `db`), whose methods `Collisions`, `ClearFullRow`, `Tick` and `KeyDown` update the state in place. Each is proved equal to the specification functions.

Behaviours of the code the model keeps as written:
- When several rows are full at once, the code removes every full row, but it drops the cells above only the topmost full row, and by one row. It does not shift once per removed row. `Game.MultiRowClearShiftsOnce` shows this on a concrete board.
- The wall and floor tests look only at the piece's first cell (`body[0]`). The wall test is equality with `-1` or `W`, not a range test.
- A sideways move into a settled cell settles the piece, just as a downward one does.
- A new piece spawns at the top without looking at the settled cells, and there is no game over. Once a column is stacked up to row 0, a piece can spawn on a settled cell. Its next landing then lists that cell twice in the settled cells, and a row with `W` entries counts as full even when fewer than `W` columns are filled. `Game.SpawnOverSettledCell`, `Game.DuplicateSettledCell` and `Game.DuplicateRowCleared` show this on a board two cells wide. The between-ticks invariant therefore excludes neither overlaps nor duplicates.
- `partition_by` groups consecutive runs only, so row detection relies on the settled cells being sorted by row. The landing sort keeps them sorted (`Game.LandingSettles`), and the clearing lemmas assume sorted input.

## Model

| member | source | states |
|---|---|---|
| Grid.Block | scripts.js:9-16 | the placed shape has as many cells as the shape; each cell's x is shifted by the anchor and its y is unchanged |
| Grid.SmallSquare | scripts.js:18-21 | the spawned piece is the single cell (anchor, 0) |
| Grid.SpawnOnBoard | scripts.js:9-21 | with an anchor in [0, W), the one-cell piece lies on the board, in row 0 |
| Grid.BlockIsTranslation | scripts.js:9-16 | placing a shape at an anchor is translating it by (anchor, 0) |
| Grid.Translated | scripts.js:25-30 | moving a body keeps its length and adds the direction to every cell |
| Grid.TranslatedRoundTrip | scripts.js:25-30 | moving by d and then by -d gives the body back |
| Game.Piece.Move | scripts.js:25-30 | the body becomes the old body translated by d, computed with the zip-style `map`; the piece's direction is unchanged |
| Game.Piece.constructor | scripts.js:115-119 | a new piece falls (direction (0, 1)) and is the one-cell piece at the anchor |
| Grid.KeyCodeToMove | scripts.js:32-36 | the table has an entry exactly for key codes 37, 39 and 40 |
| Grid.KeyCodeToMoveTable | scripts.js:32-36 | 40 maps to (0, 1), 39 to (1, 0), 37 to (-1, 0); every entry is a direction a tick accepts |
| Game.GameState.KeyDown | scripts.js:265-271 | an arrow key runs a tick in its direction; any other key, or a stopped game, changes nothing |
| Grid.ContainsCellIff | scripts.js:50 | `contains` over the settled cells' coordinate pairs is membership of the cell |
| Grid.CollisionCases | scripts.js:40-50 | wall iff the future x is -1 or W; landed iff not a wall and the future y is H or the future cell is settled; free otherwise, so the wall test wins |
| Grid.FreeMoveStaysOnBoard | scripts.js:40-50 | from a cell on the board, a free move in an allowed direction stays on the board and off the settled cells |
| Grid.WallOnlySideways | scripts.js:43-50 | a wall outcome needs a sideways move; reaching the floor needs the downward move |
| Game.GameState.Collisions | scripts.js:40-61 | returns true iff the move is not free; a wall leaves body and settled cells untouched; a landing appends the body to the settled cells, sorts them by row and spawns the one-cell piece at the anchor |
| Rows.SortByRowProperties | scripts.js:53-56 | the stable sort by row is sorted, is a permutation of its input (same length, same multiset) and keeps each row's cells in input order |
| Game.LandingSettles | scripts.js:50-59 | a landing grows the settled cells by exactly the body's size, adds exactly the body's cells, leaves them sorted by row, and spawns the piece at (anchor, 0) |
| Game.MoveOnlyWhenFree | scripts.js:209-213 | a move that does not land leaves the settled cells unchanged; the piece changes iff the move is free and non-zero |
| Rows.MoveAboveBlocksDown | scripts.js:63-73 | keeps the length and every x; cells with y below `removed_y` get y + 1, the others are unchanged |
| Rows.MoveAboveBlocksDownSorted | scripts.js:63-73 | shifting keeps cells sorted by row |
| Rows.MovedRowCount | scripts.js:63-73 | after the shift, row y has as many cells as old row y - 1 (for y up to `removed_y`) plus old row y (for y from `removed_y` on); only the counts are stated, not which cells |
| Rows.RowsRemovedMembers | scripts.js:83-88 | after removing rows, a cell remains iff it was there and its row is not removed |
| Rows.RowsRemovedCount | scripts.js:83-88 | removing n full rows of a board w wide removes exactly w * n cells |
| Rows.RemoveEachIsRowsRemoved | scripts.js:83-88 | filtering out the row of each run in turn removes exactly the set of those runs' rows |
| Rows.FullRowIsFullRun | scripts.js:79-82 | for sorted cells, a row holds w cells iff some run of `partition_by` has length w and lies in that row |
| Rows.FullRuns | scripts.js:79-89 | for sorted cells, the bucket of runs of length w is nonempty iff some row is full; its rows are the full rows; its first run is the topmost full row |
| Rows.FirstFullRunIsTop | scripts.js:89 | the row the shift is computed from is the topmost full row |
| Rows.FullBucket | scripts.js:82-84 | when `group_by` has a bucket for w, it holds at least one run and no empty run |
| Rows.ClearFullRowsSorted | scripts.js:76-93 | on sorted cells: with no full row nothing changes; otherwise every full row is removed and only the cells above the topmost full row drop one row |
| Rows.ClearSingleFullRow | scripts.js:76-93 | with exactly one full row, its cells are removed, the cells above drop one row, the rest stay, and w cells are gone |
| Rows.ClearFullRowsCount | scripts.js:76-93 | clearing removes exactly w cells per full row |
| Rows.ClearedHasNoFullRow | scripts.js:76-93 | after clearing sorted cells, they are still sorted and no row is full |
| Rows.ClearFullRowsIdempotent | scripts.js:76-93 | clearing sorted cells a second time changes nothing |
| Rows.ClearFullRowsKeepsBoard | scripts.js:76-93 | clearing keeps sorted cells sorted and cells on the board on the board |
| Grid.Collision | scripts.js:40-50 | the decision of `collisions` as written, from the first cell's future position: equality with -1 or W is a wall, checked first; then the floor row H or a settled cell is a landing; otherwise free |
| Game.Moved | scripts.js:40-61 | `collisions` followed by `move_block` as written: a free move translates the body; a wall leaves the board; a landing appends the body to the settled cells, sorts them by row and spawns a one-cell piece at the anchor |
| Game.Step | scripts.js:204-221 | one running tick as written: the move, then `clear_full_row` on the settled cells |
| Rows.InsertByRow | scripts.js:54-56 | one step of the stable sort as written: the cell goes after every cell whose row is not below its own |
| Rows.SortByRow | scripts.js:54-56 | the stable ascending sort by row as written, by insertion of each cell in input order |
| Rows.RowRemoved | scripts.js:86-90 | the filter `y !== row` as written: the cells outside the row, in input order |
| Rows.RemoveEach | scripts.js:83-88 | the `$.each` loop as written: the row of each run's first cell is filtered out, one run after the other |
| Rows.ClearFullRows | scripts.js:76-93 | `clear_full_row` as written: runs by row, grouped by length; when a bucket for the width exists, each of its rows is removed, the row of its first run is removed once more, and the cells above that row drop one row; otherwise nothing changes |
| Utils.Runs | utils.js:24-43 | `partition_by` as written: an element joins the last run when its key equals that run's first key and starts a new run otherwise; every run is nonempty |
| Utils.Select | utils.js:45-58 | one bucket of `group_by` as written: the elements with the key, in input order |
| Utils.Buckets | utils.js:48-58 | the map `group_by` returns as written: a bucket for each key some element has |
| Game.SpawnOverSettledCell | scripts.js:50-59 | on a board two wide and two high with spawns at column 0, three ticks from the start leave the new piece on the settled cell (0, 0) |
| Game.DuplicateSettledCell | scripts.js:50-56 | the next landing of that piece lists (0, 0) twice in the settled cells |
| Game.DuplicateRowCleared | scripts.js:76-93 | the settled cells (0, 0), (0, 0), (0, 1) count row 0 as full on a board two wide, and clearing leaves only (0, 1) |
| Game.MultiRowClearShiftsOnce | scripts.js:89-91 | with full rows 18 and 19 on a board 2 wide, the lone cell of row 17 drops to row 18, not 19 |
| Game.GameState.ClearFullRow | scripts.js:76-93 | the settled cells become `ClearFullRows` of the old ones, built from `partition_by`, `group_by` and a loop over the full runs |
| Game.GameState.constructor | scripts.js:112-127 | a 10-by-20 board, a falling one-cell piece at the anchor in row 0, no settled cells, no points, running, speed 300; the state is well formed |
| Game.InitialWellFormed | scripts.js:112-127 | the initial board satisfies the between-ticks invariant (one-cell piece on the board; settled cells sorted, on the board, no full row) |
| Game.StepPreservesWellFormed | scripts.js:204-221 | a tick in an allowed direction keeps a one-cell piece on the board, and the settled cells sorted, on the board and with no full row |
| Game.NoLandingKeepsSettled | scripts.js:204-221 | between ticks, a tick that does not land leaves the settled cells unchanged, and a tick against a side wall changes nothing |
| Game.GameState.Tick | scripts.js:204-221 | when running, the state becomes the step in the given direction (the piece's own direction when none is given), whose direction is never changed; when not running nothing changes; the invariant is kept; when running and the move does not land, the settled cells are unchanged |
| Utils.Partition | utils.js:16-22 | the chunks concatenate back to the input; every chunk but the last has `chunk` elements; every chunk is nonempty and no longer than `chunk` |
| Utils.RunsSplitInput | utils.js:24-43 | the runs concatenate back to the input; all elements of a run share the key; neighbouring runs have different keys |
| Utils.PartitionBy | utils.js:24-43 | the loop builds exactly the runs: they concatenate back to the input, are nonempty, uniform in key, and neighbours differ |
| Utils.SelectMembers | utils.js:45-58 | a bucket holds exactly the input elements with its key |
| Utils.SelectAppend | utils.js:45-58 | the bucket of a concatenation is the bucket of the first part followed by that of the second, so input order is kept |
| Utils.BucketsProperties | utils.js:45-58 | there is a bucket exactly for each key some element has; every element is in the bucket of its key; a bucket holds only elements with its key |
| Utils.GroupBy | utils.js:48-58 | the fold builds exactly the bucket map |
| Utils.Range | utils.js:60-66 | the length is max(0, end - start) and element i is start + i |
| Utils.Map | utils.js:79-97 | the result has the first array's length and element i is f(a[i], b[i]) |
| Utils.Equals | utils.js:99-108 | true iff same length and equal at every position, that is, iff the arrays are equal |
| Utils.Contains | utils.js:110-115 | true iff some element equals the object |
| Utils.SameElementsMeansEqual | utils.js:99-115 | element-wise `equals` is sequence equality |
| Utils.ArraySet | utils.js:121-131 | no duplicates; holds exactly the input's elements; in the order of their first occurrence |

## Left out

- The `views` module (board, score and game-over rendering) and the `views.board()` call inside the tick: jQuery/DOM output.
- `reg_event_db`, `dispatch` and the global `events`/`db` objects: string-keyed event plumbing. `Game.GameState.Tick` and `Game.GameState.KeyDown` are called directly.
- The `setInterval` timer and the `keydown` listener wiring. A timer tick is `Tick(None, anchor)`.
- `random_between`, `rand_nth` and `shuffle`: they draw on `Math.random`. The spawn column is a parameter `anchor` with `0 <= anchor < W`.
- The `arr.contains(obj)` branch of `contains`: a non-standard method never reached for coordinate pairs.
- Score and game over: `points` is never updated and the game-over transition is commented out, so `points` and `isGameRunning` are only initialised.
- The sharing of `initial_state`'s arrays across re-initialisation: the constructor produces fresh values.
- Numbers are unbounded integers. The JavaScript doubles never leave the small integer range the board uses.
- Shapes other than the one-cell piece: `block` is modelled for any shape, but the game only spawns one-cell pieces, and the invariant `WellFormed` assumes them.
- The in-place array sort is the value function `SortByRow`, a stable insertion sort assigned back to the settled cells. It does not model the engine's sorting algorithm, only its result.
- Rows.ClearFullRowsSorted: the clearing lemmas are stated for cells sorted by row, the only input the game produces. On unsorted input, `partition_by` splits one row into several runs, and `Rows.ClearFullRows` models that as written without further lemmas.
- Utils.Map: requires the second array to be at least as long as the first. The source reads `undefined` past the end and produces `NaN`, which has no integer counterpart.
- Utils.Partition: requires `chunk > 0` or an empty array. On an empty array the source returns no chunks whatever the chunk, and the model does the same; on a non-empty array with a chunk of 0 or less the source's loop never ends.
- Game.GameState.Tick: requires the between-ticks invariant and a direction among gravity and the three arrow moves, which is what the timer and the key table supply.
- Game.GameState.Collisions: requires a nonempty body, since the source reads `body[0]`.
- Utils.Equals: compares elements with Dafny's value equality. The source's `!==` is reference identity for nested arrays, so the model matches it only for primitive elements (the engine passes numbers).
- Utils.Contains: built on the same value equality as `Utils.Equals`, so it matches the source only for arrays of primitive elements (the engine looks up coordinate pairs of numbers).
- Utils.ArraySet: de-duplicates by the same value equality, so it matches the source only for arrays of primitive elements.
- Utils.GroupBy: keys a map by the key itself. The source keys a plain object by the key's string form, so keys with equal string forms share a bucket and a key such as `"constructor"` makes the push throw. The model matches the source for integer keys, the only kind the engine uses (run lengths).
- Utils.PartitionBy: compares keys with Dafny's value equality and tracks the current key as an option. The source compares keys with `===`, so object-valued or NaN keys give every element a run of its own, and an `undefined` element always starts a new run. The model matches the source for the integer row keys the engine uses; `Utils.Runs` is stated the same way.
