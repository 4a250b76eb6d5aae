# Sudoku engine: a verified Dafny model

This project models the engine of a Sudoku program. It covers class `Cell` and class `Grid` of
`objects.h` and `objects.cpp`, for a grid of block size `dim` and side `dim2 = dim * dim`:

- the two `warp` transforms between (row, column) and (unit type, unit, position);
- the flat row-major cell index and the flat index of the alternatives table;
- the constructors, `clear`, the copy constructor and `operator=`;
- `set_value`, the one mutator, which keeps the possibility arrays, the `npossible` counters,
  the alternatives table and `_filled` in step;
- the solver `solve`: forced placements first, then branching on copies, with the per-mode cap;
- `fill` and `generate`, both built on `solve`;
- the dimension check of `read_from_stream`.

`Grid` is a Dafny class. Its cells are an `array<Cell>`, and its alternatives table is an
`array?<nat>` that is `null` once `fill` has released it. `Cell` is a datatype; a released
possibility array is the empty sequence.

The module `Bookkeeping` defines what the solver relies on, stated over snapshots of the
arrays. `Consistent` says four things:

- every cell is well formed;
- no cell still allows a value that a peer holds;
- every table entry equals the number of cells of its unit that still allow its value;
- `_filled` is the number of set cells.

`SetValue` is proved to give exactly the cells of `SetCells` and the table of `SetAlternatives`,
and these are proved to keep `Consistent`. The intermediate states of its loops are in module
`Phases`.

`Solve` is proved sound: every grid it reports is full and well formed and keeps every value of
the input. When the input repeats no value in a unit, no reported grid does either. `Solve`
also terminates: each recursive call is made on a copy with one more set cell.

Randomness is an explicit stream `rng` of numbers, consumed by `Draw`. The solution callback
of `solve` becomes the list of full grids that `Solve` returns.

## Model

| member | source | states |
|---|---|---|
| Coordinates.CellIndex | objects.h:226 | the row-major index `row * dim2 + column` of an in-range cell is below `dim2 * dim2` |
| Coordinates.CellIndexBijective | objects.h:226 | the index `row * dim2 + column` of an in-range cell is below `dim2 * dim2` and gives the coordinates back |
| Coordinates.XYOfBijective | objects.h:365 | every flat index below `dim2 * dim2` is the row-major index of exactly one in-range (row, column) |
| Coordinates.WarpToSu | objects.cpp:50-54 | an in-range cell warps, for a type `t < 3`, to a triple of that type whose set and index are below `dim2` |
| Coordinates.WarpToXY | objects.cpp:56-60 | an in-range (type, set, index) warps to a row and a column below `dim2` |
| Coordinates.WarpRoundTrip | objects.cpp:50-60 | for `t < 3` and an in-range cell, warping to (set, index) keeps the type `t`, gives a set and an index below `dim2`, and warping back gives the cell |
| Coordinates.WarpRoundTripSu | objects.cpp:50-60 | for an in-range (type, set, index), warping to (row, column) stays in the grid and warping back gives the triple |
| Coordinates.CellInUnit | objects.cpp:50-54 | every cell lies in unit `UnitOf` of each type, at position `PosOf`, both below `dim2` |
| Coordinates.UnitCell | objects.cpp:167-170 | position `i` of unit `u` of type `t` is a cell of the grid that lies in that unit at that position |
| Coordinates.UnitCellInjective | objects.cpp:167-170 | two positions of one unit name the same cell only when they are equal |
| Coordinates.AltIndex | objects.h:313-315 | the table index of an in-range triple `(t, s, v)` is below `3*dim2*dim2` |
| Coordinates.IndAlternative | objects.h:300-302 | an index below `3*dim2*dim2` decodes to a triple with `t < 3`, `s < dim2` and `1 <= v <= dim2` |
| Coordinates.AltIndexRoundTrip | objects.h:313-315 | for `t < 3`, `s < dim2` and `1 <= v <= dim2` the index `v-1+s*dim2+t*dim2*dim2` is below `3*dim2*dim2`, and `ind_alternative` gives `(t, s, v)` back |
| Coordinates.IndAlternativeRoundTrip | objects.h:300-302 | every index below `3*dim2*dim2` decodes to a triple with `t < 3`, `s < dim2` and `1 <= v <= dim2` that indexes it back |
| Coordinates.AltIndexInjective | objects.h:326-328 | distinct in-range triples use distinct table entries |
| Cells.NewCell | objects.cpp:476-479 | the new cell holds the given value, is not fixed, and allows each of the `n` values, with `npossible == n` |
| Cells.Cleared | objects.cpp:216-217 | clearing one allowed value removes exactly that value, keeps every other flag, and lowers `npossible` by one, so it still counts the flags |
| Bookkeeping.SetCells | objects.cpp:188-218 | after `set_value` the target holds the value, has no possibility array and no possibilities; no cell of its three units allows the value; every other cell keeps its value, its flag and every other possibility; a peer that allowed the value counts one possibility less, and every other count stays |
| Bookkeeping.SetAlternatives | objects.cpp:193-236 | no table entry grows: every decrement stops at zero |
| Bookkeeping.SetAlternativesTouches | objects.cpp:222-236 | the entries of the value in the three units of the cell end at 0, and an entry that changes is either in a unit of the cell (for the value or for another value the cell allowed) or is the value in a unit that holds a peer that loses it |
| Bookkeeping.SatSub | objects.cpp:197-199 | the guarded decrement never underflows and is exact when it can be |
| Bookkeeping.SetValueKeepsConsistency | objects.cpp:188-240 | setting an empty cell of a consistent grid gives a consistent grid with one more set cell |
| Bookkeeping.SetValueKeepsElimination | objects.cpp:211-218 | after the second pass no cell allows a value that a peer holds |
| Bookkeeping.SetValueCountsFilled | objects.cpp:192 | the number of set cells goes up by exactly one, as `_filled++` does |
| Bookkeeping.SetValueKeepsNoConflict | objects.cpp:188-240 | placing a value the cell still allows never repeats a value in a unit, and keeps every value already set |
| Bookkeeping.SetValueExtends | objects.cpp:189-191 | `set_value` on an empty cell keeps every value already set |
| Bookkeeping.SetValueKeepsDead | objects.cpp:188-218 | placing a value the cell allows leaves an empty cell with no possibility left as it was, so a dead end stays one |
| Bookkeeping.ClueKeepsNoConflict | objects.cpp:437-439 | copying into an empty cell the value of a conflict-free solution that agrees with every set value repeats no value in a unit |
| Bookkeeping.FreshConsistent | objects.cpp:62-72 | the fresh grid, with every cell empty and every entry `dim2`, is consistent with `_filled == 0` |
| Bookkeeping.SolvedConsistent | objects.cpp:406-413 | a full grid with an all-zero table and `_filled` equal to the number of cells is consistent |
| Bookkeeping.StaleCounterInconsistent | objects.cpp:406-413 | a full grid whose counter is below the number of cells is not consistent, whatever its table holds |
| Bookkeeping.FullWhenCounted | objects.cpp:322 | the number of set cells equals the number of cells exactly when the grid is full |
| Phases.OthersLoweredStep | objects.cpp:196-199 | one step of the first pass lowers the level of value `i + 1` in the unit, if the cell allowed it and it is not the new value, and changes nothing else |
| Phases.ClearedPeersDone | objects.cpp:211-218 | once every peer that allowed the value is cleared, the cells are those of `SetCells` |
| Phases.PlacedLoweredStep | objects.cpp:222-231 | lowering the level of the value in one unit of a cleared peer counts that peer as lost in that unit |
| Phases.PlacedLoweredZero | objects.cpp:235 | zeroing the value's entry in one unit of the cell completes that unit type |
| Phases.PassesDone | objects.cpp:193-236 | the two complete passes give the table of `SetAlternatives` |
| Phases.VisitStep | objects.cpp:214-215 | the peer at the current position still allows the value exactly when it loses it and has not been cleared |
| Sudoku.SolutionsAppend | objects.cpp:367-369 | accumulating the solutions of two branches keeps every one a solution |
| Sudoku.SolutionsWeaken | objects.cpp:362-368 | solutions of a child that extends this grid, and is a dead end when this grid is, are solutions of this grid |
| Sudoku.Cap | objects.cpp:333-344 | the search stops after one solution under `FIND_ONE` and `FIND_ANY` and under no other mode, after two under `FIND_UNIQUE`, and after `SIZE_MAX - 1` (for 64-bit `size_t`) under `FIND_ALL` |
| Sudoku.Draw | objects.cpp:347 | a draw lies in `0 .. n-1` and consumes one number of the stream |
| Sudoku.NthTrue | objects.cpp:381-386 | the scan stops on the `(num + 1)`-th possible value from its start position |
| Sudoku.IntegerSqrt | objects.cpp:131 | the result is the integer square root: `r*r <= n < (r+1)*(r+1)` |
| Sudoku.ReadDimension | objects.cpp:122-132 | a first line of `n > 0` tokens gives `dim` with `dim*dim == n` exactly when `n` is a perfect square, and `FORMAT_ERROR` otherwise; an empty first line is a stream error |
| Sudoku.Grid.FreshCells | objects.cpp:67-68 | `dim2*dim2` fresh cells, each empty with every value possible |
| Sudoku.Grid.CopyCells | objects.cpp:82-83 | a fresh array holding the same cells |
| Sudoku.Grid.NewTable | objects.cpp:69-70 | a fresh table with every entry at the given level |
| Sudoku.Grid.CopyTable | objects.cpp:84-85 | a fresh table holding the same entries |
| Sudoku.Grid.constructor | objects.cpp:62-72 | every cell empty with all values possible, every entry `dim2`, `_filled == 0`, and the grid is consistent |
| Sudoku.Grid.Clear | objects.cpp:105-113 | the grid becomes a fresh one of the same dimension |
| Sudoku.Grid.Copy | objects.cpp:80-86 | a deep copy: new arrays with the same cells, table and counter, consistent when the source is |
| Sudoku.Grid.Assigned | objects.cpp:172-185 | a deep copy in which a released table stays released |
| Sudoku.Grid.At | objects.h:226 | the cell at row-major index `row * dim2 + column` |
| Sudoku.Grid.AtUnit | objects.cpp:167-170 | the cell at position `i` of unit `u` of type `t` |
| Sudoku.Grid.GetAlternative | objects.h:313-315 | the table entry at the triple's index, which is in range |
| Sudoku.Grid.LevelIsTally | objects.h:307 | on a consistent grid the level is the number of cells of the unit that still allow the value, so at most `dim2` |
| Sudoku.Grid.SetAlternative | objects.h:326-328 | only the triple's entry changes, and reading it back gives the new level |
| Sudoku.Grid.SetValue | objects.cpp:188-240 | the cells become `SetCells`, the table becomes `SetAlternatives`, `_filled` goes up by one, and a consistent grid stays consistent |
| Sudoku.Grid.LowerOthers | objects.cpp:193-205 | the first pass lowers, in the three units of the cell, the levels of the other values the cell allowed |
| Sudoku.Grid.ClearPeers | objects.cpp:211-239 | the second pass clears the value from every peer that allowed it and leaves the table of the complete passes |
| Sudoku.Grid.ClearUnit | objects.cpp:212-236 | the pass over one unit of the cell clears every peer of that unit that allowed the value, and zeroes the value's entry in that unit |
| Sudoku.Grid.VisitPeer | objects.cpp:214-232 | one position of the unit: a peer that still allows the value is cleared, any other cell is left alone |
| Sudoku.Grid.ClearPeer | objects.cpp:215-231 | the peer loses the value, and the level of the value goes down by one in each of the peer's units |
| Sudoku.Grid.LowerPeerUnits | objects.cpp:222-231 | the levels of the value in the three units of the peer each go down by one, stopping at zero |
| Sudoku.Grid.MinAlternative | objects.cpp:280-286 | the smallest positive level and the first entry that holds it, or `dim2 + 1` when no level is positive |
| Sudoku.Grid.MinCell | objects.cpp:288-294 | the smallest positive `npossible` and the first cell in row order that has it, or `dim2 + 1` when none is positive |
| Sudoku.Grid.EntryCandidates | objects.cpp:296-310 | on a consistent grid, an entry's level is the number of cells of its unit that allow its value |
| Sudoku.Grid.NthInUnit | objects.cpp:354-361 | the scan of the unit stops on the `(num + 1)`-th cell from its start that allows the value |
| Sudoku.Grid.IsCandidate | objects.cpp:358 | the test of one cell of the unit agrees with the unit's mask |
| Sudoku.Grid.ForcedByUnit | objects.cpp:296-310 | when a level is 1, the only cell of the unit that allows the value takes it; the grid stays consistent, keeps its values, gains no repeated value, and stays a dead end if it was one |
| Sudoku.Grid.ForcedByCell | objects.cpp:311-319 | a cell with one possibility takes that value; the grid stays consistent, keeps its values, gains no repeated value, and stays a dead end if it was one |
| Sudoku.Grid.Propagate | objects.cpp:251-320 | deduction keeps the grid consistent and every value set, adds no repeated value, keeps a dead end dead, and stops on a full grid or with both minimums above 1 |
| Sudoku.Grid.Solve | objects.cpp:242-404 | the receiver is unchanged; the count is the number of solutions reported; each is a full grid that keeps every value of the receiver, with no repeated value when the receiver has none; a full grid is its own single solution; a grid with an empty cell that has no possibility left has none (count 0, objects.cpp:322-326); `FIND_ONE` and `FIND_ANY` report at most one; modes other than `FIND_ANY` consume no randomness |
| Sudoku.Grid.BranchOnUnit | objects.cpp:345-372 | branching on an alternative reports only solutions of the grid, at most one under `FIND_ONE` and `FIND_ANY` |
| Sudoku.Grid.BranchInUnit | objects.cpp:347-372 | the tries over the candidate cells of the unit report only solutions of the grid, at most one under `FIND_ONE` and `FIND_ANY`; modes other than `FIND_ANY` consume no randomness |
| Sudoku.Grid.TryInUnit | objects.cpp:354-369 | the next candidate cell takes the value in a copy, and its solutions join those found so far as solutions of the grid |
| Sudoku.Grid.Hypothesis | objects.cpp:362-368 | a copy with one more set cell is solved, and its solutions are solutions of the grid |
| Sudoku.Grid.TryInCell | objects.cpp:381-394 | the next possible value of the cell is placed in a copy, and its solutions join those found so far as solutions of the grid |
| Sudoku.Grid.BranchOnCell | objects.cpp:373-398 | branching on a cell's possibilities reports only solutions of the grid, at most one under `FIND_ONE` and `FIND_ANY` |
| Sudoku.Grid.Fill | objects.cpp:406-413 | on failure nothing changes; on success the cells are a full grid that keeps every value, the table is released and `_filled` is stale, so the grid is no longer consistent though its arrays keep their shape; a full grid is left as it was |
| Sudoku.Grid.FillRepaired | objects.cpp:406-413 | as `Fill`, but the table and the counter describe the full grid, so the grid stays consistent |
| Sudoku.Grid.AddClue | objects.cpp:435-440 | two draws pick a cell; a clue is added exactly when that cell was empty, and then the cells become those of `set_value` with the solution's value, fixed; otherwise nothing changes; every value already set stays, and the grid stays consistent and free of repeated values |
| Sudoku.Grid.AddClues | objects.cpp:433-441 | when the stream lasts, exactly `target` more cells are set, each a fixed clue of the solution; every value already set stays |
| Sudoku.Grid.AddUntilUnique | objects.cpp:443-457 | adding clues one at a time between tests keeps the grid consistent and free of repeated values, never removes a value, and keeps every set value a fixed clue of the solution; on success the last `solve(FIND_UNIQUE)` reported a nonzero count of solutions of the final grid |
| Sudoku.Grid.AddPuzzleClues | objects.cpp:432-457 | at least `dim^3 + difficulty` clues are added, every value already set stays, every set value is a fixed clue of the solution, and on success the last test reported a nonzero count of solutions of the puzzle |
| Sudoku.Grid.FilledGrid | objects.cpp:427-428 | a fresh grid filled by `fill` as written: on success a full conflict-free grid whose table is released and whose counter is still 0 |
| Sudoku.Grid.Generate | objects.cpp:425-460 | the solution is full and free of repeated values, with its table released and `_filled == 0` as `fill` left them; the puzzle is consistent, free of repeated values, has at least `dim2*dim + difficulty` set cells, each fixed and equal to the solution's value, and the last `solve(FIND_UNIQUE)` reported a nonzero count of solutions of it; success needs `dim^3 + difficulty <= dim^4` |

## Left out

- Reading and writing grids (`read_from_stream` beyond the dimension check, `write_to_stream`, `operator>>`, `operator<<`) is left out, because it is stream input and output. `ReadDimension` takes the tokens of the first line as a sequence.
- `ReadDimension` uses an integer square root where the source calls the floating-point `sqrt` (objects.cpp:131), because floating point is not modelled.
- Randomness (`random_device`, `mt19937`, `uniform_int_distribution`) is an explicit stream. A draw is the head of the stream modulo the range. The retry loops of `generate` report failure when the stream runs out; the source loops on real randomness. For `difficulty > dim2*dim2 - dim2*dim` the first loop of `generate` (objects.cpp:434-441) never ends on any random sequence, because once every cell is set `i` cannot reach its target; the model returns `ok == false` once the stream runs out, and `Generate` proves that success needs `dim^3 + difficulty <= dim^4`.
- The `std::function` callback and the static `_saved` grid are replaced by the list of solutions that `Solve` returns, because they are a side channel.
- Memory management is left out: `new`/`delete`, `free_all`, and the leaks in `operator=` and `operator>>`. A released table is `null`.
- `DEBUG_LEVEL` tracing and the `what()` messages of `SudokuException` are left out, because they are output only.
- `Grid(0)`, which leaves `_dim2`, `_cells` and `_alternatives` uninitialised, is not modelled. The constructor requires `pdim > 0`.
- Sudoku.Grid.SetValue: requires an empty cell, as the header asks of callers (objects.h:284), and a value in `1 .. dim2`, because outside that range `possible[pvalue-1]` and the table index are undefined behaviour. The source checks neither.
- Sudoku.Grid.Solve: states soundness, not completeness. It does not prove that a solution is found whenever one exists.
- Sudoku.Grid.Solve: bounds the count only for `FIND_ONE` and `FIND_ANY`. Children add their counts to `nfound` before the cap is compared, so `FIND_UNIQUE` can report more than 2.
- Sudoku.Grid.Solve: requires the grid to be consistent, because `solve` reads the table and relies on it. A grid after the source's `fill` is not consistent (see Findings).
- Sudoku.Grid.Solve: promises no repeated value only when the input has none. `set_value` accepts a value that a peer already holds, and `solve` reports a full grid as a solution without checking it. An input with a repeated value can therefore yield a reported grid with that repetition.
- Sudoku.Grid.BranchInUnit: under `FIND_ANY` each try draws its candidate afresh, with replacement, as the source does. The model does not claim that every candidate is tried.
- Sudoku.Grid.Generate: does not promise a unique solution. The header says the generated grid has only one solution (objects.h:353), but the code accepts the puzzle as soon as `solve(FIND_UNIQUE)` returns a nonzero count (objects.cpp:448), which includes 2 or more; the model follows the code.
- Sudoku.Grid.Generate: stops with `ok == false` when `fill` fails. The source goes on and copies values of an unfilled grid. `fill` rarely fails on a fresh grid, but the `FIND_ANY` search it runs is not complete (each try draws its candidate with replacement), so it can fail.
- `generate` keeps the source's `fill`, so the solution grid it returns carries the released table and stale counter of the Findings row. Its clue loops read only cells of that grid, and the fresh `generated` grid has its own table, so they are unaffected.
- Integer widths are unbounded. `size_t` overflow cannot occur for grids that fit in memory, and the `FIND_ALL` cap keeps its value `SIZE_MAX - 1` for 64-bit `size_t`.

## Findings

| source | as written | input that shows it | evidently intended | confidence | as-written member | corrected member |
|---|---|---|---|---|---|---|
| objects.cpp:406-413 | `fill` calls `free_all()`, which deletes `_alternatives` and sets it to 0, and only `_cells` is rebuilt. `_filled` keeps its old value. | `Grid g(2); g.fill(); Grid h(g);` or `g.solve();` after a successful fill: both read the released table in the copy constructor (objects.cpp:85), which `solve` reaches through its first statement `Grid source=*this` (objects.cpp:244); and `_filled` stays 0 on a full grid. | after `fill` the grid describes the full solution: a table of zeros and `_filled == dim2*dim2`, so it can be copied and solved again | not executed | Sudoku.Grid.Fill, Bookkeeping.StaleCounterInconsistent, Sudoku.Grid.Generate | Sudoku.Grid.FillRepaired |
