# Hex bubble shooter: the board logic

This project models the core of a hex-grid bubble shooter. The game runs on a board of
36 staggered rows. Rows alternate between 9 and 8 real cells, and a parity flag `even`
says which rows are the short ones. Each tile carries a payload of three byte attributes:
colour, shape and symbol. The player shoots a payload from a three-slot gun. Where it
lands, the game tries to match it with its neighbours on one attribute after another.
Then it drops the best cluster found, together with every tile the drop leaves cut off
from the top. When enough empty rows open up at the bottom, the board scrolls down and
new rows are generated from a seeded random generator.

The model has six modules.

- `Hex`: the data model and the pure geometry.
  - Coordinates, payloads and tiles.
  - Row widths and `checkBounds`.
  - The six neighbour offsets.
  - `checkMatch`.
  - The set of real cells and its size, 306.
- `Arenas`: the fixed-capacity arena of `src/util/arena.h`, as a class over an array.
- `Boards`: the board as a class over a 36 x 9 array of tiles.
  - Its row scans: `countBotEmpRows` and `checkFullRow`.
  - Its in-place edits: `addTile`, `removeTile` and `shiftBoard`.
  - The `nFulRowsTop` bookkeeping.
  - Value-level snapshots (`Grid`) that the edits are proved against.
- `Anchoring`: the connectivity that "connected to the top" means. It defines paths
  through occupied neighbouring cells, and a cell is anchored when such a path reaches
  the anchor row `nFulRowsTop - 1`.
- `Matching`: the three recursive searches.
  - `checkDropRecur`, the cluster flood.
  - `isConnectedToTopRecur`.
  - `checkUnconnectedRecur`, the orphan sweep.
  Each search is a method. It threads the visited map by value and appends to an arena in
  place.
- `Guns`: the seeded draws and the gun queue (`setNext`, `rearm`, `swapExtra`), as
  functions.
- `Game`: the game state as a class.
  - `resetGame`, split into the constructor and `Start`.
  - `getRandVal` and `generateRows`.
  - `checkLines`, `checkDrop` and `doDrop`.
  - The discrete transitions of `flyBullet`.
  - `shootAndRearm` and the gun methods.
  - The best-score rule of `gameOver`.
  - The `n_params` settings key and the sticky `alteredDifficulty` flag.

## Model

| member | source | states |
|---|---|---|
| Hex.Width | src/game.cpp:38 | a row has 9 real columns or 8 |
| Hex.CheckBounds | src/game.cpp:37-39 | every cell `checkBounds` accepts can index the 36 x 9 storage |
| Hex.BoundsInArray | src/game.cpp:37-39 | the cells `checkBounds` accepts are exactly rows 0..35 with a column below 9, or below 8 on rows of parity 1 |
| Hex.ShiftedWidth | src/game.cpp:161-162 | moving a row by `off` and toggling the parity flag exactly when `off` is odd keeps the row's width |
| Hex.ShiftedBounds | src/game.cpp:160-183 | a cell that stays on the board under such a move is real before the move iff it is real after |
| Hex.Step | src/game.cpp:113 | the neighbour in direction `i` is a different cell at most one column away: directions 0 and 1 are the left and right cells of the same row, 2 and 3 lie one row up, 4 and 5 one row down |
| Hex.Reverse | src/game.cpp:115 | the back direction is another of the six directions |
| Hex.StepReverse | src/game.cpp:113-116 | taking a step and then its back direction returns to the start, and the back of the back direction is the original direction |
| Hex.NeighbourSet | src/game.cpp:113 | the neighbours considered are real cells only |
| Hex.NeighbourSymmetric | src/game.cpp:113-116 | the neighbour relation on real cells is symmetric |
| Hex.CheckMatch | src/game.cpp:271-278 | two payloads match iff `param` is 0, 1 or 2 and the selected attribute is equal; any other `param` never matches |
| Hex.RowCells | src/game.cpp:147-148 | the cells of one row below a width, exactly |
| Hex.RowCellsCount | src/game.cpp:147-148 | a row of width `w` has `w` cells |
| Hex.CellsBeforeNext | src/game.cpp:147-148 | the number of real cells above row `n+1` is that above `n` plus row `n`'s width |
| Hex.SplitLastRow | src/game.cpp:147-148 | removing the last row from the real cells of rows `0..n-1` leaves those of rows `0..n-2` and removes exactly its width |
| Hex.CountCells | src/game.cpp:147-148 | the real cells of rows `0..n-1` number `CellsBefore(n)` |
| Hex.ValidCells | src/game.cpp:37-39 | the set of all cells `checkBounds` accepts |
| Hex.ValidCellCount | src/game.h:10-13 | the board has 306 real cells under either parity, fewer than `MAX_TODROP` |
| Arenas.Arena.Contents | src/util/arena.h:43 | the elements appended since the last clear number `count()` |
| Arenas.Arena.constructor | src/util/arena.h:16-20 | a new arena has `CAP` slots and no elements |
| Arenas.Arena.Acquire | src/util/arena.h:30-33 | stores the object in the first free slot, returns the new count, and leaves every other slot unchanged; the contents grow by that object |
| Arenas.Arena.Get | src/util/arena.h:35-41 | any slot below the capacity can be read; below the count it is that element of the contents |
| Arenas.Arena.Count | src/util/arena.h:43 | the count never exceeds the capacity |
| Arenas.Arena.Capacity | src/util/arena.h:44 | the capacity is the number of slots, and the count never exceeds it |
| Arenas.Arena.Clear | src/util/arena.h:46-48 | empties the contents and leaves every slot as it was |
| Arenas.Arena.CopyFrom | src/game.cpp:415-416 | copy assignment: afterwards slots, count and contents equal the source arena's |
| Boards.Placed | src/game.cpp:128-131 | the stored tile keeps the payload and takes the given coordinate; it is occupied iff the given tile was or `makeExist` is set |
| Boards.Removed | src/game.cpp:154 | only the occupancy flag is cleared |
| Boards.Blank | src/game.cpp:237 | the zero-initialised storage: every cell is an empty tile |
| Boards.Put | src/game.cpp:128-129 | one cell replaced, every other cell kept |
| Boards.Occupancy | src/game.cpp:37-39 | exactly the real cells whose tile exists |
| Boards.Neighs | src/game.cpp:110-125 | six references in direction order: reference `i` points at the cell one step in direction `i`, and it exists iff that cell is real and occupied |
| Boards.NeighsBackReference | src/game.cpp:113-118 | if an occupied cell sees an occupied neighbour in direction `i`, that neighbour sees it back in the reverse direction |
| Boards.Toggled | src/game.cpp:161-162 | the parity flag flips iff the offset is odd |
| Boards.ToggledKeepsWidth | src/game.cpp:161-162 | with the toggled flag a row moved by `off` keeps its width: long rows stay long, short rows stay short |
| Boards.ShiftGrid | src/game.cpp:163-182 | every real cell of the result is computed from the cell `off` rows away, or emptied when that cell is off the board |
| Boards.ShiftTranslatesOccupancy | src/game.cpp:160-183 | after a shift by `off` the occupied cells are exactly the old occupied cells moved by `off` rows, less those that leave the board |
| Boards.ShiftedWithinTranslated | src/game.cpp:160-183 | a shift creates no occupied cell that was not occupied `off` rows away |
| Boards.TranslatedWithinShifted | src/game.cpp:160-183 | every occupied cell that stays on the board is still occupied after the shift |
| Boards.ShiftedCellSource | src/game.cpp:169 | an occupied cell after a shift came from an occupied cell `off` rows away |
| Boards.ShiftedCellTarget | src/game.cpp:179 | an occupied cell that stays on the board is occupied at its new place |
| Boards.ShiftRoundTrip | src/game.cpp:160-183 | shifting by `off` and then by `-off` restores the parity flag, and every surviving real cell gets back its payload and occupancy |
| Boards.ShiftUpSkipsLastRow | src/game.cpp:164 | the upward branch as written leaves a tile in the bottom row, where no tile can arrive after a shift by -1 (see Findings) |
| Boards.BlankRowsEmpty | src/game.cpp:237 | every row of the zero-initialised board is empty under either parity |
| Boards.ShiftedRowEmpty | src/game.cpp:374-378 | after a downward shift by `off`, row `r` is empty iff row `r - off` was |
| Boards.ShiftedTopEmpty | src/game.cpp:173-178 | after a downward shift by `off`, each of the top `off` rows is empty |
| Boards.EmptyRows | src/game.cpp:83-97 | the number of empty rows at the bottom lies in 0..36 |
| Boards.EmptyBelowSpec | src/game.cpp:83-97 | the upward scan past `k` empty rows passes only empty rows and stops at the first row holding a tile, or at the top |
| Boards.EmptyRowsSpec | src/game.cpp:83-97 | the bottom `EmptyRows` rows are empty and, unless the board is empty, the row above them holds a tile |
| Boards.EmptyRowsUnique | src/game.cpp:83-97 | any count with those two properties equals `EmptyRows`: the count is determined by the board |
| Boards.Cleared | src/game.cpp:428-437 | every listed cell has its occupancy cleared; every other cell is kept |
| Boards.ClearedTwice | src/game.cpp:428-437 | clearing one list and then another is the same as clearing their concatenation |
| Boards.Restored | src/game.cpp:403-404 | every listed cell is placed back at its own coordinate and made occupied; every other cell is kept |
| Boards.ClearedRestored | src/game.cpp:392-404 | clearing occupied, self-referencing cells and then restoring them gives back the original board |
| Boards.Board.constructor | src/game.h:35-41 | a zero-initialised board: nothing occupied, `nFulRowsTop` 0, parity flag clear |
| Boards.Board.Grid | src/game.h:38 | the snapshot agrees with the storage cell by cell |
| Boards.Board.CountBotEmpRows | src/game.cpp:83-97 | the bottom `n` rows are empty, and the row just above them is not (when it exists) |
| Boards.Board.CheckFullRow | src/game.cpp:99-108 | true iff every real cell of the row is occupied |
| Boards.Board.AddTile | src/game.cpp:127-140 | the board gains exactly the placed tile; `nFulRowsTop` becomes `pos.row+1` iff updating is asked for, the upward walk over full rows passes at least one row, and it ends at or above the old `nFulRowsTop`; otherwise it is unchanged |
| Boards.Board.CountFullRun | src/game.cpp:135-136 | the walk stops at row 0 or at the first non-full row; every row it passes is full |
| Boards.Board.RemoveTile | src/game.cpp:153-158 | only the cell's occupancy is cleared; `nFulRowsTop` becomes the smaller of its old value and `pos.row+1` |
| Boards.TopAfterRemovals | src/game.cpp:155-156 | the packed region's end after removing a list of cells in turn never exceeds its start |
| Boards.TopAfterRemovalsAppend | src/game.cpp:428-437 | removing one list and then another moves the end as removing their concatenation does |
| Boards.TopAfterRemovalsLeast | src/game.cpp:155-156 | the order of removal does not matter: the end is at most one past every removed cell's row and equals the start or one past some removed cell's row |
| Boards.Board.ShiftBoard | src/game.cpp:160-183 | the parity flag toggles iff `off` is odd; the board becomes the shifted snapshot; after a downward shift `nFulRowsTop` is at most 1, and exactly 1 when it was positive. The upward branch follows the corrected loop bound (see Findings, Boards.ShiftUpSkipsLastRow) |
| Boards.Board.ShiftUp | src/game.cpp:163-172 | the upward branch, all rows visited, yields the shifted snapshot |
| Boards.Board.ShiftDown | src/game.cpp:173-182 | the downward branch yields the shifted snapshot and leaves `nFulRowsTop` at most 1 |
| Boards.Board.FullRunBound | src/game.cpp:135-136 | the walk never passes more rows than lie above its start (row 0 is never tested), and it passes a row only when the starting row is full |
| Boards.Board.FullRunIsGrid | src/game.cpp:135-136 | the walk over full rows on the storage is the same walk on its snapshot |
| Boards.Board.FullRunOfFullRows | src/game.cpp:136 | when rows `1..row` are full the walk passes all of them |
| Boards.Board.FullRunOfGrid | src/game.cpp:136 | the same, read off a snapshot of the storage |
| Boards.Board.FullRunBlocked | src/game.cpp:136 | the walk from a row that is not full passes nothing |
| Boards.Board.RemoveAll | src/game.cpp:428-437 | the board becomes the snapshot with every listed cell cleared; `nFulRowsTop` becomes `TopAfterRemovals` of its old value over the list, in list order |
| Boards.Board.RestoreAll | src/game.cpp:403-404 | the board becomes the snapshot with every listed cell restored |
| Boards.Board.RowEmptyIs | src/game.cpp:87-88 | a row of the storage is empty iff the same row of an agreeing snapshot is |
| Boards.Board.BottomEmptyRows | src/game.cpp:83-97 | the bottom `k` rows of the storage are empty iff at least `k` empty rows lie at the bottom of its snapshot, or the board is empty |
| Anchoring.StepAdjacent | src/game.cpp:113 | a step in any of the six directions leads to an adjacent cell |
| Anchoring.AdjacentSymmetric | src/game.cpp:113-116 | adjacency is symmetric |
| Anchoring.ReachesSelf | src/game.cpp:296-314 | an occupied cell reaches itself |
| Anchoring.ReachesPrepend | src/game.cpp:307-308 | an occupied cell next to a cell that reaches `z` also reaches `z` |
| Anchoring.ReachesAnchored | src/game.cpp:296-314 | a cell that reaches an anchored cell is anchored |
| Anchoring.ReachesThroughStep | src/game.cpp:328-329 | what an occupied neighbour reaches, the cell reaches too |
| Anchoring.ReachedUnanchored | src/game.cpp:324-329 | everything reached from an unanchored cell is unanchored |
| Anchoring.AnchoredNeighbour | src/game.cpp:307-308 | two adjacent occupied cells are both anchored or both not |
| Anchoring.SealedCell | src/game.cpp:303-313 | a cell off the anchor row whose occupied neighbours all lie in `k` forms a closed one-cell region within `k`; an unoccupied cell does so trivially |
| Anchoring.SealedJoin | src/game.cpp:307-308 | two closed regions join into one closed within the larger bound |
| Anchoring.NeighboursInNext | src/game.cpp:307-308 | the neighbour scan advances by one direction |
| Anchoring.SealedExtend | src/game.cpp:307-308 | the regions closed by successive neighbour searches join up |
| Anchoring.SealedFinish | src/game.cpp:309-310 | after a failed search of all six neighbours the searched region is closed; with an empty starting map the cell is not anchored |
| Anchoring.PathStaysInside | src/game.cpp:296-314 | a path that starts in a closed region never leaves it |
| Anchoring.SealedRegionUnanchored | src/game.cpp:296-314 | no cell of a closed region is anchored |
| Anchoring.NeighboursInGrows | src/game.cpp:290-291 | visiting more cells keeps every neighbour already visited |
| Anchoring.AllNeighboursGrow | src/game.cpp:394-401 | visiting more cells keeps the neighbours of every earlier listed cell visited, and adds the listed cell whose neighbours are now all visited |
| Anchoring.SpreadJoin | src/game.cpp:290-291 | the regions left by two consecutive searches join, listed by both lists together |
| Anchoring.SpreadStep | src/game.cpp:290-291 | one neighbour search extends the searched region and the neighbours of `pos` already visited |
| Anchoring.SpreadFinish | src/game.cpp:284-292 | a search that expanded its start cell when selected leaves every cell it visited listed and expanded |
| Anchoring.SpreadSeed | src/game.cpp:284-292 | the start cell listed ahead of what its neighbour searches listed leaves every visited cell listed and expanded |
| Anchoring.SpreadCovers | src/game.cpp:280-294 | a walk through the selected cells from a region the search covered stays in that region, and every cell on it is listed |
| Anchoring.ReachesCovered | src/game.cpp:280-294 | everything a covered cell reaches through the selected cells is listed |
| Anchoring.ReachesEnds | src/game.cpp:296-314 | both ends of a walk are occupied cells |
| Anchoring.UnanchoredAlong | src/game.cpp:316-332 | a walk from an unanchored cell passes only unanchored cells |
| Anchoring.ReachesUnanchored | src/game.cpp:316-332 | what an unanchored cell reaches, it reaches through unanchored cells |
| Matching.VisitOne | src/game.cpp:282-284 | marking one unvisited real cell shrinks the unvisited set by one |
| Matching.FewerUnvisited | src/game.cpp:282-284 | a larger visited map leaves no more cells unvisited |
| Matching.Progress | src/game.cpp:282-284 | a recursive call starts from strictly fewer unvisited cells |
| Matching.NewlyVisitedJoin | src/game.cpp:290-291 | the lists appended by successive calls are distinct and newly visited together |
| Matching.MatchSet | src/game.cpp:285-289 | exactly the cells that pass the flood's test: occupied real cells matching on `param` |
| Matching.ClusterMatches | src/game.cpp:280-294 | every cell of a cluster matches |
| Matching.FloodStep | src/game.cpp:290-291 | one neighbour flood keeps the loop invariant: distinct new cells, all near the cluster, the region expanded |
| Matching.SeedFlooded | src/game.cpp:282-292 | a visit that lists its cell when it matches and then its neighbour floods lists distinct new cells; from the seed they lie in its cluster, past it they are reached from the cell |
| Matching.CheckDropRecur | src/game.cpp:280-294 | appends only cells reached from `pos` through occupied cells that match on `param` (from the seed: cells of its cluster), each at most once and only if newly visited; every matching cell it visits is appended with all its occupied neighbours visited, as are the seed's; the arena cannot overflow |
| Matching.FloodNeighbours | src/game.cpp:290-291 | the neighbour loop leaves every occupied neighbour of `pos` visited and appends distinct new cells near the cluster, each matching cell it visits expanded |
| Matching.FloodComplete | src/game.cpp:280-294 | a flood that leaves its visited region expanded lists exactly the cluster of its seed |
| Matching.IsConnectedToTopRecur | src/game.cpp:296-314 | a true answer means the cell is anchored; a false answer leaves every newly visited occupied cell off the anchor row with all its occupied neighbours visited; with an empty map the answer is exactly "anchored" |
| Matching.NeighbourSearched | src/game.cpp:307-308 | one neighbour search either anchors the cell or extends the closed region |
| Matching.IsConnectedToTop | src/game.cpp:324 | the test with a fresh visited map answers exactly whether the cell is anchored |
| Matching.SweepStep | src/game.cpp:328-329 | one neighbour sweep keeps the loop invariant: distinct new occupied cells reached from `pos`, the region expanded |
| Matching.SeedSwept | src/game.cpp:325-329 | the cell appended ahead of its neighbour sweeps gives distinct new occupied cells, all reached from it, the visited region expanded |
| Matching.CheckUnconnectedRecur | src/game.cpp:316-332 | appends distinct, newly visited, occupied cells reachable from `pos`; once past the anchor test every occupied cell it visits is appended with all its occupied neighbours visited; a tested seed that appends something is unanchored, and one that appends nothing was visited before, is empty or is anchored; the arena cannot overflow |
| Matching.SweepNeighbours | src/game.cpp:328-329 | the neighbour loop leaves every occupied neighbour of `pos` visited and appends distinct new occupied cells reached from `pos`, every occupied cell it visits expanded |
| Guns.RandVal | src/game.cpp:28-31 | a draw lies within `lo..hi` |
| Guns.SeedWraps | src/game.cpp:29 | the draws repeat after 2^32 seeds, the wrap of the `unsigned int` seed |
| Guns.ToByte | src/game.cpp:149 | the cast keeps values that fit a byte |
| Guns.Draw | src/game.cpp:149 | a drawn attribute names one of the colours when there are at most 256 |
| Guns.RowThingInPalette | src/game.cpp:149 | every attribute of a row payload names one of the colours (at most 256) |
| Guns.NextThing | src/game.cpp:186-188 | every attribute of a gun payload names one of the colours (at most 256) |
| Guns.NextThingSwapsRowThing | src/game.cpp:149 | the gun payload and the row payload drawn from the same seed differ only in the order of colour and shape |
| Guns.SetNext | src/game.cpp:185-190 | only the next slot changes, it becomes filled with payload in range, and three draws are made |
| Guns.Rearm | src/game.cpp:192-198 | the next slot is filled afterwards; the extra slot and first-swap flag are untouched; with a next payload waiting it becomes armed after 3 draws, otherwise 6 draws are made |
| Guns.SwapExtra | src/game.cpp:200-212 | the old armed payload is parked afterwards; with something parked the parked payload becomes armed without a draw and the first-swap flag clears; otherwise the gun is rearmed with at least 3 draws |
| Guns.RearmShifts | src/game.cpp:192-198 | after `rearm` the armed payload is the old next one, drawn on the spot when none was waiting; a fresh next payload is drawn; the extra slot is untouched; 3 draws, or 6 when the next slot was empty |
| Guns.SwapKeepsPayloads | src/game.cpp:200-212 | `swapExtra` loses no payload: with something parked it exchanges armed and extra without a draw, otherwise it parks the armed payload and rearms; something is parked afterwards |
| Guns.SwapTwice | src/game.cpp:200-205 | two swaps with something parked give back the original gun, the first-swap flag cleared, with no draw |
| Game.CellSeed | src/game.cpp:147-149 | cell `(r,c)` draws from the seed after three draws for every real cell before it |
| Game.CellSeedSuccession | src/game.cpp:146-149 | the draws run in row-major order: the next cell of a row starts three draws later, and the next row starts three draws per real cell of this row later |
| Game.RowThings | src/game.cpp:148-149 | a run of `k` cells has `k` payloads |
| Game.RowThingsNext | src/game.cpp:148-149 | the run grows by the next cell's payload |
| Game.RowThingsAt | src/game.cpp:148-149 | cell `c` of the run holds the payload of the draws starting `3c` seeds later |
| Game.PutRow | src/game.cpp:148-150 | placing a row of payloads yields a board |
| Game.PutRowCells | src/game.cpp:148-150 | each placed cell holds its payload, is occupied and knows its coordinate; every other cell is kept |
| Game.PutRowCell | src/game.cpp:148-150 | the same for one cell |
| Game.PutRowNone | src/game.cpp:148 | placing no payload changes nothing |
| Game.PutRowStep | src/game.cpp:148-150 | placing one more cell with `addTile` extends the placed run by one |
| Game.PutRowFull | src/game.cpp:134-138 | placing a row affects only that row's fullness; a complete row is full; a partly placed, previously empty row is not |
| Game.Generated | src/game.cpp:146-151 | generating rows yields a board |
| Game.GeneratedNext | src/game.cpp:147 | generating one more row places that row's payloads on what the earlier rows left |
| Game.GeneratedCells | src/game.cpp:146-151 | every real cell of the first `n` rows holds the payload of its own seed, occupied at its coordinate; every other cell is kept |
| Game.GeneratedCell | src/game.cpp:146-151 | the same for one cell |
| Game.GeneratedRowCell | src/game.cpp:148-150 | the cells of the last generated row hold their own seeds' payloads |
| Game.GeneratedKeeps | src/game.cpp:147 | rows from `n` on are not touched |
| Game.GeneratedNextOpen | src/game.cpp:146-151 | on an empty board, while generating, the next row is still empty and rows `1..row-1` are full |
| Game.GeneratedFull | src/game.cpp:146-151 | every generated row is full |
| Game.GeneratedNotEmpty | src/game.cpp:146-151 | every generated row holds a tile |
| Game.CheckedLines | src/game.cpp:374-382 | the board, parity and seed `checkLines` leaves: it yields a board |
| Game.CheckedLinesGap | src/game.cpp:374-382 | afterwards exactly `nRowsGap` empty rows lie at the bottom when there were more, and as many as before otherwise |
| Game.CheckedLinesMoved | src/game.cpp:375-378 | with a surplus, the result is the board shifted down by it with the vacated rows generated, the parity toggled by it and the seed advanced by three per generated cell |
| Game.MovedBottomEmpty | src/game.cpp:375-378 | after the move by the surplus and the refill, the bottom `nRowsGap` rows are empty |
| Game.MovedAboveGap | src/game.cpp:375-378 | after the move and refill, the row above the bottom `nRowsGap` rows holds a tile |
| Game.MovedRowEmpty | src/game.cpp:375-378 | below the generated rows, a row after the move is empty iff the row it came from was |
| Game.SelectBestAppend | src/game.cpp:407-411 | one more total takes over the choice iff it is strictly larger than the best so far |
| Game.SelectBestInRange | src/game.cpp:385-411 | the chosen index lies among the attempts; the best total is at least 0 and at least the last attempt's; a positive best total is that of the chosen attempt |
| Game.SelectBestIsFirstMaximum | src/game.cpp:385-411 | with non-negative totals the choice is the first index holding the maximum |
| Game.CycledParams | src/game.cpp:621-622 | for non-negative settings the result is `n mod 3 + 1`, in 1..3 (C++ remainder) |
| Game.CycleThrice | src/game.cpp:621-622 | three presses return every setting of 1..3 to where it started |
| Game.AlteredAfter | src/game.cpp:875-876 | a flag already set stays set |
| Game.AlteredSticky | src/game.cpp:875-876 | the flag is set after some frames iff it was set before or some frame had an altered setting; nothing unsets it |
| Game.BestAfter | src/game.cpp:512-515 | the best score never decreases; it becomes the final score exactly when that score is larger |
| Game.Totals | src/game.cpp:407 | one non-negative total per attempt, in order |
| Game.TotalsAppend | src/game.cpp:407 | one more attempt appends its total |
| Game.ResolvedAppend | src/game.cpp:388-412 | the pass for the next attribute extends the list of resolved attempts |
| Game.Flood | src/game.cpp:389-390 | a new list holding, once each, exactly the cells of the landing cell's cluster on `param`, no more than there are real cells |
| Game.MatchesListed | src/game.cpp:392-393 | every listed matching cell can index the storage |
| Game.OrphansUnanchored | src/game.cpp:392-402 | every orphan found is occupied and unanchored once the cluster is removed |
| Game.OrphanStep | src/game.cpp:397-400 | one sweep from a neighbour of a removed cell keeps the loop invariant: distinct orphans, the visited unanchored region expanded, the neighbours swept so far visited |
| Game.OrphanOfUnanchored | src/game.cpp:392-402 | an orphan is occupied and unanchored |
| Game.OrphansComplete | src/game.cpp:394-402 | once the occupied neighbours of every removed cell are visited, every orphan has been found |
| Game.SweepAround | src/game.cpp:397-400 | the sweeps from the neighbours of one removed cell keep the loop invariant and leave all of its occupied neighbours visited |
| Game.SweepOrphans | src/game.cpp:392-404 | clears the cluster, sweeps every occupied neighbour of a cleared cell for orphans, then restores the cluster; the board ends as it began; the sweep runs against the end `TopAfterRemovals` leaves after the cluster's removal, and the new list holds, once each, exactly the cells connected to an unanchored occupied neighbour of a cleared cell once the cluster is gone |
| Game.SweepAndAppend | src/game.cpp:392-406 | the large-cluster branch: the board ends as it began, the orphan list is exactly the cut-off cells against the end the cluster's removal leaves, and the cluster list gains the landing cell at its end |
| Game.AttemptResolved | src/game.cpp:389-406 | an attempt built from an exact cluster list and, for a large enough cluster, the landing cell and an exact orphan list, is resolved, and its cluster list without the last cell is the cluster |
| Game.CollectOrphans | src/game.cpp:394-402 | the sweep from every occupied neighbour of the listed cells collects, once each, exactly the occupied cells connected to an unanchored neighbour of a listed cell, all unanchored |
| Game.ResolveAttribute | src/game.cpp:389-406 | one attribute's pass: the board ends as it began; the cluster list is exactly the cluster, and with at least `N_TO_DROP - 1` cells it gains the landing cell and the orphan list is exactly the cut-off cells against the end the cluster's removal leaves; otherwise the orphan list is empty |
| Game.TryAttribute | src/game.cpp:388-411 | one loop step keeps the lists of the choice `SelectBest` makes over the totals so far; the new attempt swept against the end its cluster's removal leaves |
| Game.TryAttributes | src/game.cpp:388-412 | tries attributes `0..n_params-1` in order on the same board and returns the lists of the chosen attempt; the board ends as it began |
| Game.Bullet.constructor | src/game.h:57-68 | a zero-initialised bullet: it does not exist, does not rebounce, and its lists are empty |
| Game.Bullet.TakeLists | src/game.cpp:415-417 | the bullet takes copies of both lists and starts rebouncing |
| Game.GameState.constructor | src/game.cpp:236-240 | the zero-initialised state with the loaded settings and the initial seed; empty board, clear flags, score 0 |
| Game.GameState.Start | src/game.cpp:242-244 | the board holds the rows `BOARD_HEIGHT - nRowsGap` generated from the initial seed; `nFulRowsTop` covers them; the gun is rearmed with the draws that follow |
| Game.GameState.GetRandVal | src/game.cpp:28-31 | the draw made with the current seed, in `lo..hi`; the seed advances by one |
| Game.GameState.DrawAttribute | src/game.cpp:149 | one colour-range draw as a byte; the seed advances by one |
| Game.GameState.DrawRowThing | src/game.cpp:149 | the row payload of the next three draws, colour first |
| Game.GameState.GenerateTile | src/game.cpp:148-150 | the next cell of the row receives the payload of its own three draws; when this completes a row that was empty and rows `1..row-1` are full, `nFulRowsTop` becomes `row+1` (from row 1 on), otherwise it is unchanged |
| Game.GameState.RunAfterPlacing | src/game.cpp:134-138 | while a row is being filled the walk passes all rows above only once the row is complete |
| Game.GameState.GenerateRow | src/game.cpp:148-150 | the row receives the payloads of its width's draws, in order |
| Game.GameState.GenerateRows | src/game.cpp:146-151 | the board becomes the generated snapshot (every cell of the first `n` rows holds its own draws' payload); the seed advances by three per real cell; when the rows were empty, `nFulRowsTop` ends at `n` if `n >= 2` and is unchanged otherwise |
| Game.GameState.CheckLines | src/game.cpp:374-382 | the board, parity flag and seed become `CheckedLines` of the old ones; afterwards no more than `nRowsGap` empty rows lie at the bottom, and after a move exactly that many; a move of two or more rows leaves `nFulRowsTop` covering the generated rows |
| Game.GameState.Descend | src/game.cpp:376-377 | the board becomes the old one shifted down by the surplus with the vacated rows generated; the parity toggles by the surplus; the seed advances by three per generated cell |
| Game.GameState.CheckDrop | src/game.cpp:384-422 | every attribute below `n_params` is resolved on an unchanged board; the bullet holds the lists of the first attempt with the largest total and rebounces |
| Game.GameState.DropListed | src/game.cpp:425-438 | with at least `N_TO_DROP` cells listed the score gains both list lengths, all listed cells are cleared and `nFulRowsTop` becomes `TopAfterRemovals` of both lists; otherwise nothing changes |
| Game.GameState.DoDrop | src/game.cpp:424-440 | the score gains both list lengths exactly when the cluster list holds at least `N_TO_DROP` cells; the board, flag and seed become `CheckedLines` of the board with both lists cleared (or of the old board without a drop), and `nFulRowsTop` moves with the removals and then settles as `checkLines` settles it; afterwards no surplus of empty rows |
| Game.GameState.ScanForHit | src/game.cpp:470-484 | the bullet rebounces iff some occupied real cell passes the hit test; otherwise nothing changes |
| Game.GameState.FlyBullet | src/game.cpp:442-486 | leaving the top removes the bullet; a finished rebounce lands the payload on the last empty cell, drops, and ends the flight (board, flag, seed and `nFulRowsTop` as `Landed` says); an unfinished one changes no tile, no seed, no flag, no end, no list and not the last empty cell; a flying bullet keeps the seed, records the empty cell it is over and rebounces iff some occupied cell passes the hit test, and without a hit keeps `nFulRowsTop` and both lists |
| Game.GameState.Land | src/game.cpp:455-460 | the bullet disappears and stops rebouncing; the board, flag, seed and `nFulRowsTop` are what `doDrop` leaves after `addTile` places the payload on the last empty cell (moving the end as `Placement` says); the score gains the drop |
| Game.GameState.PlacePayload | src/game.cpp:457 | the board becomes `Placement` of the old one: the payload, marked present, on the last empty cell, and the end moved as the walk over full rows in `addTile` decides |
| Game.Placement | src/game.cpp:127-140 | the placed cell holds the payload marked present at its own coordinate, and the end either stays or becomes one past the placed row |
| Game.GameState.SetNext | src/game.cpp:185-190 | the gun and seed after `setNext` |
| Game.GameState.Rearm | src/game.cpp:192-198 | the gun and seed after `rearm` |
| Game.GameState.SwapExtra | src/game.cpp:200-212 | the gun and seed after `swapExtra` |
| Game.GameState.ShootAndRearm | src/game.cpp:259-269 | the armed payload flies as a fresh bullet and the gun is rearmed |
| Game.GameState.GameOver | src/game.cpp:503-516 | the game ends, the bullet disappears, and the best score follows the rule of `BestAfter` |
| Game.GameState.CycleParams | src/game.cpp:621-622 | the settings key cycles the number of attributes tried |
| Game.GameState.UpdateAlteredDifficulty | src/game.cpp:875-876 | the flag becomes set when any setting is altered, and stays set |

## Left out

- Floating-point motion, screen geometry, timing, easing, drawing, sound, input and the
  settings menu are not modelled. Where `flyBullet` decides something geometrically (the
  bullet leaves the top, the cell under the bullet, the end of the rebounce, a hit) the
  outcome is an input of `Game.GameState.FlyBullet`.
- The side-wall bounce is not modelled; it only changes the velocity.
- Particles are not modelled (`addParticle`, `flyParticles` and the particle arena),
  and neither is `addShakeRecur`; they affect only drawing.
- The debugging output inside the two recursive searches is left out.
- Loading and saving the user data is I/O. The loaded settings are a parameter of the
  constructor, and saving the best score is not modelled.
- The per-tile neighbour cache that `updateNeighs` maintains is replaced by
  `Boards.Neighs`, computed from the board on demand: a reference exists exactly when
  the neighbouring real cell is occupied. Whether the cache always agrees with that is
  not modelled; the searches follow the recomputed references.
- `TOGO` and `TOGOI`, the direction tables, are not part of this model. The directions
  are taken in a fixed order of the model's choosing: left, right, up-left, up-right,
  down-left, down-right.
- The generator behind `SetRandomSeed` and `GetRandomValue` is a foreign call. It is
  the parameter `random`. `rand()`, the source of the initial seed, is the constructor
  parameter `seed0`.
- `N_TO_DROP`, `COLORS.size()` and `nRowsGap` are not defined in the files modelled.
  They are constants of the state.
- The gun of the zero-initialised state is the constructor parameter `gun0`.
- The seed is an unbounded counter. The `unsigned int` wrap-around shows only in the
  draws: for a generator reached through `Guns.Seeded`, `Guns.SeedWraps` proves they
  repeat after 2^32 seeds.
- The score is an unbounded integer; `int` overflow is not modelled.
- The searches run on a snapshot of the board, which they do not change, so each
  visited map is passed and returned by value.
- `checkDrop` keeps the lists of all attempts in `todrops[3]` and `uncons[3]` and copies
  the chosen pair at the end. The model keeps the best pair so far, which gives the
  same lists.
- Game.GameState.CheckDrop: does not state the value `nFulRowsTop` ends with. Each
  attempt's removals and re-additions move it, and the value depends on the order in
  which cells are restored. The contract says only that it stays non-negative.
- Game.SweepOrphans, Game.ResolveAttribute, Game.TryAttribute and Game.TryAttributes:
  do not state `nFulRowsTop` after the re-additions, for the same reason; they say only
  that it stays non-negative. The first three state the end the orphan sweep runs
  against, `Boards.TopAfterRemovals` of the starting end over the cluster, which
  `Game.Orphans` takes as the parameter `top`. `Game.TryAttributes` does not, since every
  attempt after the first starts from the end the previous re-additions left.
- Boards.Board.RestoreAll: does not state `nFulRowsTop`; after `addTile` re-adds the
  cells it depends on the order of the list.
- Game.GameState.ScanForHit: on a hit, does not state the lists or `nFulRowsTop`
  separately; they are what `Game.GameState.CheckDrop` leaves, and only that the
  bullet rebounces is stated. Without a hit nothing changes.
- The search directions are taken in the model's fixed order, which sets the order of
  the cluster list and so the order of the re-additions. That order is observable
  through `nFulRowsTop`: it is the anchor row the next attempt sweeps against, so it can
  change that attempt's orphan list and the attribute chosen. The contracts above leave
  `nFulRowsTop` open.
- Game.GameState.CheckLines: a move by exactly one row bounds `nFulRowsTop` by 1 and
  fixes it at 1 only when it was positive; when it was 0 the contract says only that it
  is at most 1. `Game.GameState.DoDrop`, `Game.GameState.Land` and
  `Game.GameState.FlyBullet` state the new `nFulRowsTop` through this contract, so the
  same case is open there.
- The state requires `n_params` to lie in 1..3. The settings key keeps it there, and
  `todrops[3]` would overflow for a larger loaded value.
- Arenas.Arena.Acquire: requires a free slot. On a full arena the source writes past
  the end. Every caller in the model is proved to have room: the lists hold at most the
  306 real cells plus the landing cell.
- `src/game.h` lacks several fields that `src/game.cpp` uses: `usr`, the
  bullet's `uncon`, the gun's next and extra slots, `nRowsGap`, `score` and
  `alteredDifficulty`. The model follows `src/game.cpp`.
- The removal rule in `removeTile` sets `nFulRowsTop` to `pos.row + 1` when the row lies
  inside the packed region. The model follows this code rather than a rule that shrinks
  it to `pos.row`.
- `gameOver` keeps a larger score whether or not the difficulty was altered. The model
  follows the code.

## Findings

| source | as written | input that shows it | evidently intended | confidence | as-written member | corrected member |
|---|---|---|---|---|---|---|
| src/game.cpp:164 | the upward branch of `shiftBoard` visits rows `0 .. BOARD_HEIGHT-2` only | `off = -1` with a tile in row 35, column 0: the tile stays in row 35 although no tile can move into that row | visit every row, so the bottom `-off` rows end up empty | not executed | Boards.ShiftUpSkipsLastRow | Boards.Board.ShiftUp |
