# Block calendar puzzle: exact-cover solver, pieces and grid

This project models the core of a solver for the "daily calendar" block
puzzle. A 7x7 board prints the twelve months and the days 1 to 31. A
date is shown by covering every other printed cell with nine fixed
polyomino pieces, leaving the month and the day visible. The model has
three parts, one module per source file, plus a small shared module:

- `AlgorithmX` (`algorithm_x.dfy`) is Knuth's Algorithm X. It works over
  two tables:
  - a mutable table from each column (constraint) to the set of rows
    (options) that still cover it;
  - a read-only table from each row to the sequence of columns it covers.

  The class `CoverTables` holds both. `Select` removes a row's columns and
  every conflicting row. `Deselect` undoes that in reverse order.
  `Solve` branches on a column with the fewest candidates, recurses and
  backtracks. Each method is proved against a specification function:
  - `Selected` and `SavedSets` are closed forms of what `Select` leaves and
    returns;
  - `IsExactCover` states what a solution is.

  What is proved:
  - select/deselect restores the table exactly, and select keeps the
    row/column consistency that makes every removal safe;
  - the solver returns every exact cover of the table, each once as a set
    and nothing else;
  - the solver leaves the table as it found it.
- `Pieces` (`pieces.dfy`) holds the integer geometry of a piece: rotate,
  reflect, reposition, reset, and the generation of up to eight
  orientations. The class `Piece` keeps `cells` and `configurations` as
  fields that its methods reassign. Each method is tied to a pure function
  (`Rotated`, `Reflected`, `Normalized`, `Orientations`), and those
  functions carry the proved properties:
  - normalisation;
  - two reflections, or four rotations, give back the repositioned
    original, which for a normalised list (every fixed shape, and every
    list `Rotate`, `Reflect` and `Reposition` leave) is the list itself;
  - the configuration list has at most eight entries, all of the base's
    length, with the base among them;
  - the fixed shapes are normalised.
- `Puzzle` (`puzzle_grid.dfy`) holds the calendar grid, an `array2<int>`:
  -1 marks a blocked cell, 0 a free one and a piece id a covered one.
  - It includes the month and date tables, the grid's construction,
    `IsFree`, the all-or-nothing `PlacePiece`, `RemovePiece`, and the
    row-major scan `FindValidPlacements`.
  - The grid's contents are abstracted to a `Board` value (rows of ints),
    on which placing and removing are pure functions.
  - The place/remove round trip is proved on that value.
- `Collections` (`collections.dfy`) holds sequence/set helpers. It also
  has `ListOf`, which is Python's `list(s)` for a set: every element once,
  in an unspecified order.

Days 29 and 30 fall on cells that are already blocked, so marking them
changes nothing. `MarkCount` shows the consequence: on those days a new
grid marks 7 of its 49 cells rather than 8, so 42 cells stay free rather
than 41. The nine pieces cover 4+5+5+5+4+4+5+4+5 = 41 cells. The model records this and does not alter it. The source's own
solver for the puzzle is an empty stub, so nothing in it depends on this.

## Model

The source's constants are Dafny constants: `Puzzle.BlockedCells`
(puzzle_grid.py:9), `Puzzle.MonthTable` (puzzle_grid.py:10-14) and
`Pieces.PieceA` to `Pieces.PieceI` (pieces.py:72-151), each copied cell for
cell. The lemmas `BlockedCount`, `LastDays`, `MonthCellsInTopRows` and
`FixedShapesNormal`, each with a row below, state what is proved about them.

| member | source | states |
|---|---|---|
| AlgorithmX.CoverTables.constructor | algorithm_x.py:1-14 | The tables the solver is given: a well-formed options table (no repeated column in a row) and a constraints table consistent with it (every row listed under a column lists that column, and its other columns are live and list it too). |
| AlgorithmX.CoverTables.DetachRow | algorithm_x.py:20-22 | Removes row `r2` from every other column of `options[r2]` and from no other set; every such removal finds `r2` present. |
| AlgorithmX.CoverTables.AttachRow | algorithm_x.py:30-32 | Adds row `r2` back to every other column of `options[r2]` and changes nothing else. |
| AlgorithmX.CoverTables.CoverColumn | algorithm_x.py:18-23 | One outer step of select: detaches every row of column `c` from its other columns and pops `c`; the new table is `Cover(old, c)` and the popped set is the column's set just before popping. |
| AlgorithmX.CoverTables.UncoverColumn | algorithm_x.py:27-32 | One outer step of deselect: reinstates column `c` with the saved set and re-adds each saved row to its other columns, giving `Uncover(old, options, c, saved)`. |
| AlgorithmX.CoverTables.Select | algorithm_x.py:16-24 | The table becomes `Selected(old, options[r])` (the row's columns gone, and every row that shares one of them gone from all columns); the returned list holds one saved set per column of `options[r]`, in that order (`SavedSets`); consistency is preserved. |
| AlgorithmX.CoverTables.Deselect | algorithm_x.py:26-32 | Replaying the saved sets in reverse column order restores the table exactly to what it was before the matching select. |
| AlgorithmX.CoverTables.Solve | algorithm_x.py:1-14 | On return the table equals its initial value; the result is exactly the exact covers of the table (each solution's rows cover every column exactly once; every exact cover appears; no two solutions are the same set); an empty table yields exactly `[[]]`; a column with no candidates yields nothing; every solution starts with a candidate of a column of minimum size. |
| AlgorithmX.PrefixEach | algorithm_x.py:11-12 | Prefixing each recursive solution with the chosen row: same count, `found[i] == [r] + sub[i]`. |
| AlgorithmX.SelectedNothing | algorithm_x.py:16-24 | Selecting a row with no columns leaves the table unchanged. |
| AlgorithmX.CoverStep | algorithm_x.py:18-23 | The i-th outer step of select pops the column that `SavedSets` records at position i, and covering it takes `Selected` from the first i columns to the first i+1. |
| AlgorithmX.SelectedConsistent | algorithm_x.py:18-23 | Selecting any columns keeps the table consistent, which is what makes each later `.remove` safe. |
| AlgorithmX.UncoverCover | algorithm_x.py:26-32 | Uncovering a covered column with its saved set restores the table exactly. |
| AlgorithmX.SelectRemovesConflicts | algorithm_x.py:18-23 | After select, none of the row's columns remains, and no remaining column lists a row that shares a column with the selected row. |
| AlgorithmX.SelectShrinks | algorithm_x.py:9-11 | Selecting a live row removes at least one column, so the recursion terminates. |
| AlgorithmX.MinColumnExists | algorithm_x.py:6 | A non-empty table has a column whose candidate set is no larger than any other's (the `min` by size). |
| AlgorithmX.EmptyTableCover | algorithm_x.py:2-4 | With no columns, the empty set is the only exact cover. |
| AlgorithmX.EmptyColumnNoCover | algorithm_x.py:6-7 | A column with no candidates admits no exact cover. |
| AlgorithmX.ExtendCover | algorithm_x.py:8-12 | An exact cover of the table after selecting `r`, plus `r`, is an exact cover of the table before, and does not already contain `r`. |
| AlgorithmX.ShrinkCover | algorithm_x.py:7-12 | An exact cover containing `r`, minus `r`, is an exact cover of the table after selecting `r`, which is why branching on the chosen column misses no solution. |
| AlgorithmX.EmptyTableSolutions | algorithm_x.py:2-4 | `[[]]` is exactly the set of solutions of an empty table. |
| AlgorithmX.PrefixedSolutions | algorithm_x.py:11-12 | `[r] + s` is a solution of the table when `s` is a solution after selecting `r`, and `r` does not occur in `s`. |
| AlgorithmX.BranchStep | algorithm_x.py:7-14 | After the k-th branch of the loop over the snapshot, the accumulated solutions are sound, complete for the first k+1 candidates and pairwise distinct as sets. |
| AlgorithmX.CompletenessStep | algorithm_x.py:7-12 | Every exact cover that contains one of the first k+1 candidates is among the accumulated solutions. |
| AlgorithmX.DistinctnessStep | algorithm_x.py:7-12 | Solutions from different branches, or from one branch, are distinct as sets. |
| AlgorithmX.NoCandidatesNoSolutions | algorithm_x.py:6-7 | If some column is empty, the minimum column is empty, the loop runs no branch and nothing is yielded. |
| AlgorithmX.AllBranchesDone | algorithm_x.py:7-14 | Once every candidate of the chosen column has been tried, the accumulated solutions are exactly the exact covers of the table. |
| Collections.ListOf | pieces.py:47 | `list(configs)` for a set: the list holds every element of the set, once each, and has the set's size. |
| Collections.DistinctCard | pieces.py:37-47 | A list without repetitions has exactly as many distinct elements as entries (so the configuration list is as long as the configuration set). |
| Collections.ElemsCard | pieces.py:37-47 | A list has at most as many distinct elements as entries (used for the bound of eight configurations). |
| Pieces.MinX | pieces.py:26 | `min(x for x, y in cells)`: a lower bound of every x coordinate. |
| Pieces.MinY | pieces.py:27 | `min(y for x, y in cells)`: a lower bound of every y coordinate. |
| Pieces.Shift | pieces.py:28 | The translation comprehension keeps the number of cells; `ShiftAt` gives each cell. |
| Pieces.RotCells | pieces.py:12 | The rotation comprehension keeps the number of cells; `RotCellsAt` gives each cell. |
| Pieces.FlipCells | pieces.py:18 | The reflection comprehension keeps the number of cells; `FlipCellsAt` gives each cell. |
| Pieces.Normalized | pieces.py:22-28 | What reposition leaves: as many cells as before (an empty list stays empty); `NormalizedMeaning` gives its shape. |
| Pieces.Rotated | pieces.py:10-14 | What rotate leaves: as many cells as before; `RotatedMeaning` gives its shape. |
| Pieces.Reflected | pieces.py:16-20 | What reflect leaves: as many cells as before; `ReflectedMeaning` gives its shape. |
| Pieces.Orientations | pieces.py:37-45 | The tuples added to `configs` in the first k rounds: two per round. |
| Pieces.MinXAttained | pieces.py:26 | The minimum x is the x of some cell. |
| Pieces.MinYAttained | pieces.py:27 | The minimum y is the y of some cell. |
| Pieces.ShiftAt | pieces.py:28 | Translation moves each cell by the offset, in place in the list. |
| Pieces.RotCellsAt | pieces.py:12 | The rotation comprehension maps each cell (dx, dy) to (dy, -dx), keeping the order. |
| Pieces.FlipCellsAt | pieces.py:18 | The reflection comprehension maps each cell (dx, dy) to (-dx, dy), keeping the order. |
| Pieces.NormalizedMeaning | pieces.py:22-28 | After reposition, a non-empty list has minimum x and y of 0, every coordinate is non-negative, the length is kept and the relative position of every pair of cells is kept. |
| Pieces.RotatedMeaning | pieces.py:10-14 | After rotate, the list is normalised, keeps its length and order, and every pair of cells has its offset turned by (dx, dy) to (dy, -dx). |
| Pieces.ReflectedMeaning | pieces.py:16-20 | After reflect, the list is normalised, keeps its length and order, and every pair of cells has its offset mirrored by (dx, dy) to (-dx, dy). |
| Pieces.MinShift | pieces.py:26-28 | Translating a list translates its minimum x and y by the same amount. |
| Pieces.NormalizedShift | pieces.py:22-28 | Reposition forgets where the shape was: a translated list repositions to the same list. |
| Pieces.NormalizedFixesNormal | pieces.py:22-28 | Reposition leaves an already normalised list unchanged. |
| Pieces.NormalizedIdempotent | pieces.py:22-28 | Repositioning twice is repositioning once. |
| Pieces.NormalizedIsShift | pieces.py:26-28 | Reposition is the translation by the minimum x and y. |
| Pieces.RotatedIgnoresPosition | pieces.py:10-14 | Rotating a repositioned list gives the same result as rotating the original. |
| Pieces.ReflectedIgnoresPosition | pieces.py:16-20 | Reflecting a repositioned list gives the same result as reflecting the original. |
| Pieces.ReflectTwice | pieces.py:42-44 | Two reflections give the repositioned original. |
| Pieces.ReflectInvolution | pieces.py:42-44 | Two reflections restore a normalised list exactly. |
| Pieces.SpinFour | pieces.py:12 | Four plain quarter turns, without repositioning, give back the very same list of cells. |
| Pieces.RotateFour | pieces.py:39-45 | Four rotations give the repositioned original. |
| Pieces.RotateFourNormal | pieces.py:39-45 | Four rotations restore a normalised list exactly. |
| Pieces.RoundIsRotation | pieces.py:42-45 | One round of the loop (reflect, reflect, rotate) leaves the same cells as a single rotate. |
| Pieces.RoundStep | pieces.py:40-45 | Each round adds the current cells and their reflection to the set of configurations, and leaves the cells turned once more. |
| Pieces.OrientationsShape | pieces.py:39-45 | After k rounds, 2k tuples have been added, each as long as the base, the first being the base itself. |
| Pieces.ConfigurationBounds | pieces.py:37-47 | The set of configurations has at most 8 members, all as long as the base, and the base is one of them. |
| Pieces.ConfigurationListBounds | pieces.py:47 | Any list holding each configuration once has at most 8 entries, all as long as the base, and the base is among them. |
| Pieces.OrientationsNormal | pieces.py:39-45 | Every configuration generated from a normalised base is normalised. |
| Pieces.FixedShapesNormal | pieces.py:72-151 | Each of the shapes PieceA to PieceI is normalised. |
| Pieces.FixedShapeConfigurationsNormal | pieces.py:72-151 | Every configuration generated for a fixed shape is normalised. |
| Pieces.OrientationsHoldTurns | pieces.py:39-45 | The configurations contain the base and its single rotation. |
| Pieces.TwoConfigurations | pieces.py:37-47 | When a rotation changes the list, there are at least two configurations. |
| Pieces.SquareRotation | pieces.py:72-78 | Rotating the 2x2 square permutes its cell list: the result is another order of the same four cells. |
| Pieces.SquareRepeatsShape | pieces.py:37-47 | The square's rotation is a different tuple of the same cell set, so deduplication is by sequence: the one square shape yields at least two configurations. |
| Pieces.Piece.constructor | pieces.py:4-7 | The base cells and the current cells are the given list; `configurations` holds each configuration of that base once, at most 8 in all, each as long as the base, the base among them. |
| Pieces.Piece.Rotate | pieces.py:10-14 | `cells` becomes `Rotated(old cells)`; the configurations and the base are untouched. |
| Pieces.Piece.Reflect | pieces.py:16-20 | `cells` becomes `Reflected(old cells)`; the configurations and the base are untouched. |
| Pieces.Piece.Reposition | pieces.py:22-28 | `cells` becomes `Normalized(old cells)`, which leaves an empty list unchanged. |
| Pieces.Piece.Reset | pieces.py:30-33 | `cells` becomes the base cells. |
| Pieces.Piece.GenerateConfigurations | pieces.py:35-47 | Returns every distinct orientation produced by the four rounds, each once (`IsConfigurationList`): at most 8 lists, each as long as the base, the base among them; leaves `cells` equal to the base. |
| Puzzle.DayName | puzzle_grid.py:15 | `str(i)` for a day 1..31: one or two decimal digits; `DayNameRoundTrip` reads it back. |
| Puzzle.DayCell | puzzle_grid.py:15 | Day i's cell lies in the grid at row 2 or below, at row-major position i-1 counted from row 2 (seven days to a row). |
| Puzzle.DateTable | puzzle_grid.py:15 | Every cell in the date table lies in the grid, at row 2 or below. |
| Puzzle.DayNameRoundTrip | puzzle_grid.py:15 | `str(i)` for a day 1..31 reads back as `i`. |
| Puzzle.DayNamesDistinct | puzzle_grid.py:15 | No two days share a key in the date table. |
| Puzzle.DateTableLookup | puzzle_grid.py:15 | The date table maps exactly the names `"1"` to `"31"`, and day i to ((i-1) % 7, 2 + (i-1) // 7). |
| Puzzle.MonthCellsInTopRows | puzzle_grid.py:10-14 | Every month cell has y in {0, 1} and x at most 5. |
| Puzzle.LastDays | puzzle_grid.py:9-15 | Days 29 and 30 map to (0, 6) and (1, 6), which are blocked cells; day 31 maps to (2, 6), which is not. |
| Puzzle.MarksDisjoint | puzzle_grid.py:9-15 | A month cell is never blocked and never a date cell; a date cell is blocked exactly for days 29 and 30. |
| Puzzle.BlockedCount | puzzle_grid.py:9 | The six blocked cells are six different cells. |
| Puzzle.MarkCount | puzzle_grid.py:9-25 | With a known month and day, a new grid blocks 8 cells, or 7 on days 29 and 30. |
| Puzzle.RemoveUndoesPlace | puzzle_grid.py:30-41 | Removing a piece right after placing it where it fits restores the board. |
| Puzzle.PlacedPieceOccupies | puzzle_grid.py:30-36 | After a non-empty piece with a non-zero id is placed, it no longer fits at the same anchor. |
| Puzzle.FreeAfterPlace | puzzle_grid.py:30-36 | After a placement, a cell is free exactly when it was free and is not under the piece. |
| Puzzle.FreeAfterRemove | puzzle_grid.py:38-41 | After a removal, a cell is free exactly when it was free or it is an in-board cell under the piece. |
| Puzzle.PuzzleGrid.constructor | puzzle_grid.py:6-25 | The grid is 7x7. It holds -1 exactly on the six blocked cells, on the month's cell if the month is known and on the date's cell if the date is known; every other cell holds 0. |
| Puzzle.PuzzleGrid.BlockCorners | puzzle_grid.py:18-19 | The loop over the blocked cells leaves -1 exactly on them. |
| Puzzle.PuzzleGrid.Block | puzzle_grid.py:19-25 | One write of -1 to an in-grid cell: the marked set grows by exactly that cell. |
| Puzzle.PuzzleGrid.MarkMonthAndDate | puzzle_grid.py:20-25 | The month and date steps add exactly the month's and the date's cells, when known. |
| Puzzle.PuzzleGrid.IsFree | puzzle_grid.py:27-28 | Holds exactly when (x, y) is inside the grid and its cell holds 0. |
| Puzzle.PuzzleGrid.Fits | puzzle_grid.py:32 | Holds exactly when every cell of the piece, anchored at (x, y), is free. |
| Puzzle.PuzzleGrid.PlacePiece | puzzle_grid.py:30-36 | All or nothing: returns true exactly when the piece fits, and then writes the piece id to exactly its cells; otherwise returns false and the grid is unchanged. |
| Puzzle.PuzzleGrid.WriteCells | puzzle_grid.py:33-34 | Writes the value to exactly the piece's cells, all of which are known to lie in the grid. |
| Puzzle.PuzzleGrid.RemovePiece | puzzle_grid.py:38-41 | Sets each in-grid cell of the piece to 0 and changes no other cell. |
| Puzzle.PuzzleSolver.constructor | puzzle_grid.py:67-69 | Stores the grid and the pieces. |
| Puzzle.PuzzleSolver.CanPlace | puzzle_grid.py:85-87 | Holds exactly when the piece fits the grid at (x, y), which is the success condition of `PlacePiece`. |
| Puzzle.PuzzleSolver.FindValidPlacements | puzzle_grid.py:76-83 | Returns exactly the anchors in [0,7)² where the piece can be placed, in strictly increasing row-major order (y outer, x inner), without changing the grid. |

## Left out

- `Piece.visualize_configurations` (pieces.py:49-70) and `PuzzleGrid.visualize_grid` (puzzle_grid.py:43-64) are matplotlib rendering, not behaviour.
- `PuzzleSolver.solve` (puzzle_grid.py:72-74) is an empty stub. The `solutions` field it would fill (puzzle_grid.py:70) is not modelled either.
- The commented example at algorithm_x.py:34-40 is not modelled. It fills `options` with sets, which `reversed` cannot iterate. The model takes `options` as a map from row to a sequence of distinct columns.
- The construction of the exact-cover tables from pieces and grid appears nowhere in the source, so it is not modelled.
- AlgorithmX.CoverTables.Solve: the error paths are dropped. On a table that is not consistent, Python raises KeyError when a listed row is missing from `options` (`options[r]` at algorithm_x.py:18 and :27, `options[r2]` at :20 and :30) or a listed column is missing from the table (:19, :22, :32), or a remove error at :22 when the row is already gone. `Solve`, `Select` and `CoverColumn` require the consistency invariant, and `DetachRow` requires the row to be present, so such tables are outside the model. The exclusion also covers some inconsistent tables on which Python returns normally. Example: column A with no candidates beside column B holding a row that also lists a column missing from the table. Python yields nothing there, but no claim is made for it.
- AlgorithmX.CoverTables.Solve: a Python generator yields solutions lazily and can be abandoned early. The model returns the whole list of solutions at once.
- AlgorithmX.CoverTables.Solve: Python picks the first minimum-size column in dict order. The model chooses any minimum-size column, so its guarantee holds for every tie-break. The order in which rows of a column are tried (set iteration order) is likewise an arbitrary enumeration of the snapshot.
- AlgorithmX.CoverTables.Deselect: specified only for undoing the matching `Select` (a ghost argument names the table before it). Its effect on other inputs is not stated.
- AlgorithmX.CoverTables.Deselect: in Python, `deselect` empties the caller's `cols` list through `pop`. The model receives the list as a value and pops a local copy, so the caller's list is left intact.
- Pieces.Piece.GenerateConfigurations: the order of the returned list follows Python set iteration, which is unspecified. The model promises only each distinct configuration once, in some order.
- Pieces.Piece.Rotate, Pieces.Piece.Reflect, Pieces.Piece.Reset: the `return self` chaining is dropped, as these are methods of a class.
- Pieces.Piece.constructor: in Python `base_cells` aliases the caller's list. Sequences are values here, so later changes to that list by the caller are not modelled. The piece's own methods never mutate it.
- Puzzle.PuzzleGrid.constructor: the month and date are strings (`seq<char>`); only the exact keys of the two tables are recognised, as in Python.
- numpy's `zeros`, its dtype and its negative indices are not modelled: the grid is an `array2<int>`, and every write is to an in-grid cell, as the source's own bounds checks ensure.
- Python's `%` and `//` in the date table agree with Dafny's for the non-negative operands used (days 1 to 31).
