# EfsharHeshbon puzzle engine in Dafny

This project models the constraint engine behind the EfsharHeshbon number puzzle.
A puzzle has a board of small positive integers, row and column targets, and one
global operation, `+` or `*`. A solution is a 0/1 grid. In each row, the marked
values must combine to the row target, and in each column the marked values must
combine to the column target.

Modules follow the Python files:

- `Puzzle` (puzzle.dfy) holds the shared vocabulary:
  - the operation and `functools.reduce` as a left fold (`Aggregate`);
  - 0/1 rows as indicator vectors of index sets;
  - the marked values of a row (`Picked`) and of a column (`ColumnMarked`);
  - `SolutionList`, the `all_solutions` list that the searches append to.
- `Combinations` (combinations.dfy) models `itertools.combinations(range(n), r)` as a lexicographic sequence. Its lemmas prove that the sequence holds every `r`-subset exactly once.
- `CoreLogic` (core_logic.dfy) models backend/core_logic.py:
  - `find_matching_subsets`;
  - the two column checks;
  - `count_marked`;
  - `compute_targets`;
  - `solve_minimal`, as a recursive method that works in place on an `array` of rows and updates a `BestSolution` object.
- The search is specified once, by `Explore`. It is the depth-first list of grids that the search accepts, in the order it accepts them. `MinPick` is the strict `<` update of `best_solution` folded over that list.
- `SearchTheory` (search_theory.dfy) proves the search correct:
  - soundness: every accepted grid meets every row and column target;
  - completeness: with positive board values, pruning never discards a prefix that can be completed;
  - no grid is accepted twice;
  - the `<` update keeps the first grid with the fewest marks.
- `ManualInput` (manual_input.dfy) models backend/manual_input.py; it covers:
  - the validator, which accumulates errors;
  - `find_all_solutions`, with its inner recursive search;
  - `solve_manual_puzzle`;
  - `get_solution_stats`.
- `SolveEndpoint` (solve_endpoint.dfy) models the search of the `/solve` handler. It keeps the best grid and collects every grid in one pass.
- `ArchiveGame` (hint_archive.dfy) covers the console game in archive/main.py:
  - `show_hint`, on a `HintSession` object whose field is the global `revealed_hints`;
  - the search part of `run_game`.

The three copies of the search are each proved against the same specification:
- `solve_minimal`;
- `find_solutions_recursive`;
- `solve_and_collect`.

Each copy hands the grid back unchanged. Each one leaves `best_solution` equal to `MinPick` over `Explore`, or extends `all_solutions` by `Explore`, or both.

What the code does, as modelled:
- Hints reveal the first unrevealed marked cell in row-major order (archive/main.py:10-16). There is no overlap-based hint choice.
- Product-mode pruning only rejects a column whose partial product exceeds its target, or a zero product against a non-zero target. It has no divisibility test.
- The manual validator and `find_all_solutions` fix the board size at 5.
- A row target of 0 or less is reported twice: once by the sign check and once as too low by the range check (`ManualInput.NonPositiveRowTargetReportedTwice`).
- On a ragged board, `/solve` and `run_game` do not always fail. The search writes rows as wide as row 0, and the column check reads only the columns of row 0. So a row longer than row 0 loses its later marks, and a grid that is not a solution can be returned (`SolveEndpoint.RaggedBoardAccepted`). The search entry points of the model take rectangular boards only.

## Model

| member | source | states |
|---|---|---|
| Puzzle.OpOf | backend/main.py:67 | definition: `"*"` selects multiplication and every other string selects addition; `CoreLogic.ComputeTargets` proves it agrees with the operation of `compute_targets` on `"+"` and `"*"` |
| Puzzle.Aggregate | backend/core_logic.py:37 | definition of `reduce(op, values)` as a left fold over a non-empty list; its properties are `AggregateAppend`, `AggregatePositive` and `AggregateGrows` |
| Puzzle.AggregateAppend | backend/core_logic.py:37 | reducing a concatenation combines the two reductions with the operation |
| Puzzle.AggregatePositive | backend/core_logic.py:55 | a reduction of positive values is at least 1 |
| Puzzle.AggregateGrows | backend/core_logic.py:55-56 | with positive values, adding more values never lowers the sum or product |
| Puzzle.MaskIsIndicator | backend/core_logic.py:99 | every 0/1 row is the indicator of its set of marked indices |
| Puzzle.IndicatorInjective | backend/core_logic.py:99 | two in-range index sets with the same indicator row are equal |
| Puzzle.PickedAgree | backend/core_logic.py:48-52 | the marked values of a row depend only on the marks from the starting index on |
| Puzzle.PickedPositive | backend/core_logic.py:36 | marked values taken from a positive row are positive |
| Puzzle.ColumnMarkedGrows | backend/core_logic.py:48-56 | with positive values, a column's marked values only grow as rows are added, and so does their reduction |
| Puzzle.ColumnMarkedPositive | backend/core_logic.py:48-52 | a column's marked values are positive on a positive board |
| Puzzle.ColumnMarkedAgree | backend/core_logic.py:48-52 | a column's marked values read only the grid rows up to the given row |
| Puzzle.SolutionList.constructor | backend/manual_input.py:142 | `all_solutions` starts empty |
| Puzzle.SolutionList.Append | backend/manual_input.py:150 | appending adds exactly the one grid at the end |
| Combinations.ComboValues | backend/core_logic.py:36 | definition of the `nums` half of `zip(*combo)`; `ComboValuesArePicked` proves it equals the values the combination's indicator row marks |
| Combinations.CombShape | backend/core_logic.py:35 | each combination has exactly `r` strictly increasing indices in range |
| Combinations.CombTooFew | backend/core_logic.py:34-35 | asking for more indices than remain gives no combination |
| Combinations.IncreasingSetSize | backend/core_logic.py:39 | the index set of a combination has as many elements as the combination |
| Combinations.IncreasingBound | backend/core_logic.py:35 | an increasing combination in a range is no longer than that range |
| Combinations.CombSplit | backend/core_logic.py:35 | combinations with the lowest index come first, followed by those without it, in lexicographic order |
| Combinations.CombWithLow | backend/core_logic.py:35 | the leading combinations are the lowest index added to the shorter combinations of the rest |
| Combinations.CombWithoutLow | backend/core_logic.py:35 | the trailing combinations are the combinations of the rest |
| Combinations.CombComplete | backend/core_logic.py:35 | every `r`-element index set in range is the set of some combination |
| Combinations.CombCompleteWithLow | backend/core_logic.py:35 | completeness for index sets that contain the lowest index |
| Combinations.CombCompleteWithoutLow | backend/core_logic.py:35 | completeness for index sets that lack the lowest index |
| Combinations.CombDistinct | backend/core_logic.py:35 | no two combinations have the same index set |
| Combinations.ComboValuesArePicked | backend/core_logic.py:36-37 | the values `zip(*combo)` yields are the values the combination's indicator row marks |
| Combinations.PickFirst | backend/core_logic.py:36 | a combination that starts at the current index contributes that value first |
| Combinations.SkipFirst | backend/core_logic.py:36 | a combination that does not start at the current index skips that value |
| CoreLogic.FindMatchingSubsets | backend/core_logic.py:28-40 | the result holds exactly the index sets whose values reduce to the target; no set appears twice; sets come in non-decreasing size |
| CoreLogic.AppendMatches | backend/core_logic.py:35-39 | the inner loop appends the index set of each combination that reduces to the target, in combination order |
| CoreLogic.MatchingUpToStep | backend/core_logic.py:34-39 | the outer loop for size `r` appends the matches of size `r` to those of smaller sizes |
| CoreLogic.MatchesAmongStep | backend/core_logic.py:35-39 | one more combination adds its index set exactly when its reduction equals the target |
| CoreLogic.MatchingSubsetsExact | backend/core_logic.py:28-40 | a set is in `find_matching_subsets` if and only if it is a non-empty in-range index set whose values reduce to the target |
| CoreLogic.MatchesAmongSound | backend/core_logic.py:35-39 | every set found comes from a combination whose values reduce to the target |
| CoreLogic.MatchesAmongContains | backend/core_logic.py:37-39 | every combination that reduces to the target is found |
| CoreLogic.MatchesAmongDistinct | backend/core_logic.py:35-39 | combinations with distinct index sets give distinct matches |
| CoreLogic.MatchesAmongSize | backend/core_logic.py:35-39 | a match found among `r`-combinations has `r` elements |
| CoreLogic.MatchingSubsetsSound | backend/core_logic.py:34-39 | each returned set matches, with between 1 and `len(values)` elements |
| CoreLogic.MatchingUpToSound | backend/core_logic.py:34-39 | each set found up to size `r` matches and has at most `r` elements |
| CoreLogic.PickedNothing | backend/core_logic.py:36 | a row with no marks picks no values |
| CoreLogic.MatchingSubsetsComplete | backend/core_logic.py:34-39 | every matching index set is returned |
| CoreLogic.MatchingUpToContains | backend/core_logic.py:34 | a set found by size `r` is still present after all later sizes |
| CoreLogic.MatchingUpToGrows | backend/core_logic.py:34 | each size round keeps every earlier match |
| CoreLogic.MatchingSubsetsDistinctBySize | backend/core_logic.py:34-39 | the matches up to any size are pairwise distinct and in non-decreasing size |
| CoreLogic.SizeMatches | backend/core_logic.py:35-39 | the matches of one size round are distinct and all have that size |
| CoreLogic.MatchingUpToSmaller | backend/core_logic.py:34 | matches found up to size `r` have at most `r` elements |
| CoreLogic.MatchesAmongSizes | backend/core_logic.py:35-39 | matches among same-size combinations all have that size |
| CoreLogic.IsPartialValidColumns | backend/core_logic.py:42-60 | true if and only if every column's marked values so far are empty or stay within the target; for `*`, a zero product also needs a zero target |
| CoreLogic.PartialValidFrom | backend/core_logic.py:47-59 | the same condition over the columns from `col` on |
| CoreLogic.IsValidColumns | backend/core_logic.py:62-77 | true if and only if every column has at least one mark and its marked values reduce exactly to the target |
| CoreLogic.ValidFrom | backend/core_logic.py:66-76 | the same condition over the columns from `col` on |
| CoreLogic.RowSum | backend/core_logic.py:83 | definition of `sum(row)`; `RowSumCountsMarks` proves that on a 0/1 row it counts the marks |
| CoreLogic.CountMarked | backend/core_logic.py:79-83 | definition of `count_marked`; `CountMarkedNonNegative` and `ArchiveGame.MarkedCellsCount` prove it is the number of marked cells |
| CoreLogic.RowSumCountsMarks | backend/core_logic.py:83 | the sum of a 0/1 row is the number of marked indices |
| CoreLogic.IndicatorRowSum | backend/core_logic.py:83 | the indicator row of an option has as many marks as the option has indices |
| CoreLogic.CountMarkedNonNegative | backend/core_logic.py:79-83 | the mark count of a 0/1 grid is never negative |
| CoreLogic.Explore | backend/core_logic.py:85-105 | definition: the grids the depth-first search accepts, in the order it reaches them; `SearchTheory.ExploreSound`, `ExploreComplete` and `ExploreDistinct` give its meaning, and every search method is proved against it |
| CoreLogic.MinPick | backend/core_logic.py:93-95 | definition: `best_solution` after the strict `<` update has seen a list of grids in order; `SearchTheory.MinPickFirstMinimal` proves it keeps the first grid of fewest marks |
| CoreLogic.ExploreOptionsStep | backend/core_logic.py:98-103 | one more row option appends exactly the grids found below it |
| CoreLogic.MinPickAppend | backend/core_logic.py:93-95 | the running best over two runs of grids is the best over the first, then updated by the second |
| CoreLogic.ExploreLeaf | backend/core_logic.py:90-96 | at the bottom, the search accepts the grid itself exactly when the columns are valid, and the best is updated by that grid alone |
| CoreLogic.BestSolution.constructor | archive/main.py:72 | the best starts at the given bound with no grid |
| CoreLogic.SolveMinimal | backend/core_logic.py:85-105 | the grid comes back as it was, with the current row reset to zeros; the best becomes the strict-`<` minimum of the old best over every grid the search accepts |
| CoreLogic.MinimalLeaf | backend/core_logic.py:90-96 | a complete grid updates the best only if it passes the column check and has strictly fewer marks |
| CoreLogic.TryOption | backend/core_logic.py:98-103 | one option writes its indicator row and searches below it only if the pruning check passes |
| CoreLogic.Column | backend/core_logic.py:124 | definition of one tuple of `zip(*board)`; `ColumnMarkedAll` proves it is what a fully marked column picks, and `ComputeTargets` states the column targets through it |
| CoreLogic.ComputeTargets | backend/core_logic.py:113-128 | one target per row and one per tuple of `zip(*board)`, which stops at the shortest row; each is the sum (`'+'`) or product (any other string) of the whole line, an empty row sums to 0; on a rectangular board with `"+"` or `"*"`, the fully marked grid meets every row and column target under the operation the solver selects |
| CoreLogic.LineTargetIsAggregate | backend/core_logic.py:121 | each line target equals the reduction of the whole line with the matching operation |
| CoreLogic.LineTargetsAreAggregates | backend/core_logic.py:120-126 | every row and column target is the reduction of its whole line |
| CoreLogic.ZipWidth | backend/core_logic.py:124 | `zip(*board)` yields as many columns as the shortest row has entries, and none for an empty board |
| CoreLogic.PickedAll | backend/core_logic.py:121 | marking every cell picks the whole row |
| CoreLogic.ColumnMarkedAll | backend/core_logic.py:125 | marking every cell picks the whole column |
| CoreLogic.AllMarkedMeetsTargets | backend/core_logic.py:113-128 | whole-line sums or products of a rectangular board are met by the fully marked grid, under the solver's operation choice |
| SearchTheory.ExploreSound | backend/core_logic.py:85-103 | every accepted grid is well shaped, keeps the fixed rows, has each later row drawn from that row's options, and passes `is_valid_columns` |
| SearchTheory.ExploreOptionsSound | backend/core_logic.py:98-103 | soundness for the grids found under a list of options for the current row |
| SearchTheory.NoOptionsNoGrids | backend/core_logic.py:98 | a row with no options leaves nothing to accept |
| SearchTheory.PruningSound | backend/core_logic.py:42-77 | with positive values, a prefix of a grid that passes the final column check always passes the pruning check |
| SearchTheory.ColumnPrefixWithin | backend/core_logic.py:53-59 | one column of such a prefix stays within its target |
| SearchTheory.ExploreOptionsContains | backend/core_logic.py:98-103 | a completable grid whose row is one of the options is found under that option |
| SearchTheory.ExploreComplete | backend/core_logic.py:85-103 | with positive values, every valid completion built from the row options is accepted |
| SearchTheory.ExploreDistinct | backend/core_logic.py:85-105 | with distinct in-range options, no grid is accepted twice |
| SearchTheory.ExploreOptionsDistinct | backend/core_logic.py:98-103 | the grids found under a list of options are pairwise distinct |
| SearchTheory.DeeperDistinct | backend/core_logic.py:98-103 | grids found under the last option are distinct, and none was found under an earlier option |
| SearchTheory.EarlierAndLaterDisjoint | backend/core_logic.py:98-103 | grids found under earlier options differ from those found under the last option |
| SearchTheory.EarlierRowDiffers | backend/core_logic.py:99-100 | a grid found under an earlier option has a different current row from the last option's row |
| SearchTheory.RowPossibilities | backend/main.py:69-72 | one list of options per board row |
| SearchTheory.BuildRowPossibilities | backend/main.py:69-72 | the loop builds `find_matching_subsets(row, target, op)` for each row |
| SearchTheory.HasEmptyRow | archive/main.py:67 | true if and only if some row has no matching subset |
| SearchTheory.EmptyGrid | backend/main.py:74 | the starting grid has the board's shape |
| SearchTheory.OptionRowIffRowMatches | backend/core_logic.py:99 | a row is the indicator of one of its options if and only if it is a 0/1 row whose marked values reduce to the row target |
| SearchTheory.RowPossibilitiesDistinct | backend/core_logic.py:28-40 | each row's options are distinct and in range |
| SearchTheory.SearchSound | backend/core_logic.py:85-103 | every grid accepted from the empty grid solves the puzzle |
| SearchTheory.SearchExact | backend/core_logic.py:85-105 | on a board of positive values, the search from the empty grid accepts exactly the solutions, each once |
| SearchTheory.MinPickFirstMinimal | backend/core_logic.py:93-95 | the strict-`<` fold keeps the old best if no grid beats it; otherwise it keeps the first grid of fewest marks among those below the bound |
| SearchTheory.MinPickFromInfinite | backend/main.py:75-85 | starting from infinity over a non-empty list, the best is the first grid of fewest marks, with its count |
| ManualInput.MaxProduct | backend/manual_input.py:81 | the largest product is 9^5 = 59049 |
| ManualInput.FirstWrongRow | backend/manual_input.py:40-43 | the first row whose length is not 5, or none |
| ManualInput.ValidationErrors | backend/manual_input.py:33-114 | definition of the `errors` list: the first shape error alone, or the cell, sign and range errors in source order; `ValidIffAcceptable` and the `*Exact` lemmas give its meaning |
| ManualInput.ValidateManualInput | backend/manual_input.py:20-114 | the error list is exactly the checks' errors in source order; the input is valid if and only if the list is empty, if and only if the input is acceptable |
| ManualInput.AppendCellErrors | backend/manual_input.py:58-66 | the nested loops report the out-of-range cells row by row |
| ManualInput.AppendSignErrors | backend/manual_input.py:69-75 | the loop appends one error per non-positive target |
| ManualInput.AppendRangeErrors | backend/manual_input.py:78-112 | the loop appends one too-high or too-low error per target outside the bounds |
| ManualInput.ShapeErrorShortCircuits | backend/manual_input.py:36-55 | a shape or operation error is the only error reported; a board without 5 rows reports exactly the board-size error |
| ManualInput.RowCellErrorsExact | backend/manual_input.py:61-66 | one error per out-of-range cell of a row, with nothing else and no repeats |
| ManualInput.CellErrorsExact | backend/manual_input.py:58-66 | one error per out-of-range cell of the board, with nothing else and no repeats |
| ManualInput.SignErrorsExact | backend/manual_input.py:69-75 | one error per non-positive target, with nothing else and no repeats |
| ManualInput.RangeErrorsExact | backend/manual_input.py:78-112 | a too-high error for each target above the maximum, otherwise a too-low error below the minimum, with nothing else and no repeats |
| ManualInput.ValidIffAcceptable | backend/manual_input.py:114 | no errors if and only if the shape is right, the operation is known, all cells are in range and all targets are within the bounds |
| ManualInput.AcceptableHasNoErrors | backend/manual_input.py:20-114 | acceptable input yields an empty error list |
| ManualInput.CellErrorsEmpty | backend/manual_input.py:58-66 | in-range cells give no cell errors |
| ManualInput.RowCellErrorsEmpty | backend/manual_input.py:61-66 | an in-range row gives no cell errors |
| ManualInput.SignErrorsEmpty | backend/manual_input.py:69-75 | positive targets give no sign errors |
| ManualInput.RangeErrorsEmpty | backend/manual_input.py:78-112 | targets within the bounds give no range errors |
| ManualInput.AcceptableFails | backend/manual_input.py:20-114 | input that is not acceptable yields at least one error |
| ManualInput.CellErrorAt | backend/manual_input.py:62-66 | an out-of-range cell is reported with its row, column and range |
| ManualInput.RowCellErrorAt | backend/manual_input.py:61-66 | an out-of-range cell of a row is reported |
| ManualInput.RangeErrorAt | backend/manual_input.py:83-86 | a target above the maximum is reported as too high, and one below the minimum as too low |
| ManualInput.SignErrorAt | backend/manual_input.py:70-71 | a non-positive target is reported |
| ManualInput.NonPositiveRowTargetReportedTwice | backend/manual_input.py:69-104 | a non-positive row target on a well-shaped board gets both a sign error and a too-low error |
| ManualInput.ManualInstance | backend/manual_input.py:129 | a 5x5 manual puzzle is a well-formed instance of width 5 |
| ManualInput.FindAllSolutions | backend/manual_input.py:116-168 | returns the grids the search accepts; with positive values they are exactly the solutions, each once |
| ManualInput.SearchAll | backend/manual_input.py:132-166 | returns `[]` when a row has no matching subset, and otherwise the depth-first list of accepted grids |
| ManualInput.FindSolutionsRecursive | backend/manual_input.py:145-164 | the grid comes back unchanged, and `all_solutions` gains every grid the search accepts below this row, in order |
| ManualInput.FoundLeaf | backend/manual_input.py:146-152 | a complete grid is appended only if it passes the column check |
| ManualInput.TryManualOption | backend/manual_input.py:155-161 | one option writes its indicator row and searches below it only if the pruning check passes |
| ManualInput.SolveManualPuzzle | backend/manual_input.py:170-235 | invalid input returns the validator's errors; no solution returns a single no-solution error; otherwise it returns all solutions, their number, and the first one of fewest marks with its count |
| ManualInput.PickOptimal | backend/manual_input.py:219-226 | the loop's result is the strict-`<` minimum from infinity |
| ManualInput.AcceptablePositive | backend/manual_input.py:58-66 | valid input has a 5x5 shape and only positive values |
| ManualInput.MarkedCounts | backend/manual_input.py:256 | definition of `marked_counts`; `GetSolutionStats` states the statistics in terms of it |
| ManualInput.MinOf | backend/manual_input.py:265 | the minimum is an element no greater than any other |
| ManualInput.MaxOf | backend/manual_input.py:266 | the maximum is an element no smaller than any other |
| ManualInput.GetSolutionStats | backend/manual_input.py:237-269 | zeros and an empty distribution for no solutions; otherwise the total, the least and greatest mark counts, and a distribution whose keys are the counts that occur, each mapped to how often it occurs |
| SolveEndpoint.SolvePuzzle | backend/main.py:49-106 | all accepted grids are returned; an empty result has no solution and count 0; otherwise the solution is the first grid of fewest marks with its count; with positive values the list holds exactly the solutions, each once |
| SolveEndpoint.SolveAndCollect | backend/main.py:78-95 | the grid comes back unchanged; the best is the strict-`<` minimum over the accepted grids, and `all_solutions` gains them in order |
| SolveEndpoint.CollectLeaf | backend/main.py:79-86 | a complete valid grid updates the best when strictly smaller and is always appended |
| SolveEndpoint.CollectStep | backend/main.py:82-85 | both accumulators stay in step over a further run of grids |
| SolveEndpoint.TryCollectOption | backend/main.py:88-93 | one option writes its indicator row and searches below it only if the pruning check passes |
| SolveEndpoint.RaggedBoardAccepted | backend/main.py:88-93 | on the ragged board `[[1, 2], [3, 4, 5]]` the search places rows of width 2, both prefixes pass pruning and the grid `[[1, 1], [1, 0]]` passes the column check, although row 1's remaining marks pick 3, not its target 8 |
| ArchiveGame.MarkedCells | archive/main.py:11-13 | definition: the marked cells in the order the double loop of `show_hint` visits them; `MarkedCellsExact` and `MarkedCellsCount` give its meaning |
| ArchiveGame.NextHint | archive/main.py:10-16 | definition: the first of those cells that is not revealed; `HintAt`, `NoHintLeft` and `HintIsMarked` give its meaning |
| ArchiveGame.FirstNotIn | archive/main.py:11-16 | the first cell not yet revealed, or none when every cell is revealed |
| ArchiveGame.HintSession.constructor | archive/main.py:8 | the revealed set starts empty |
| ArchiveGame.HintSession.ShowHint | archive/main.py:10-16 | returns the first marked, unrevealed cell in row-major order, or none, and adds exactly that cell to the revealed set |
| ArchiveGame.HintSession.RunGame | archive/main.py:58-80 | resets the revealed set; stops when a row has no matching subset; reports no solution when no accepted grid has fewer than `sys.maxsize` marks; otherwise reports the first grid of fewest marks with its count |
| ArchiveGame.RowMarksExact | archive/main.py:12-13 | a row's marked cells, in column order |
| ArchiveGame.MarksUpToExact | archive/main.py:11-13 | the marked cells of the leading rows, in row-major order |
| ArchiveGame.MarkedCellsExact | archive/main.py:11-13 | exactly the marked cells of the grid, in row-major order |
| ArchiveGame.MarkedCellsDistinct | archive/main.py:11-13 | no marked cell is listed twice |
| ArchiveGame.FirstNotInAt | archive/main.py:13-15 | the first unrevealed cell is the one all of whose predecessors are revealed |
| ArchiveGame.HintAt | archive/main.py:10-15 | the hint is the marked, unrevealed cell that every earlier marked cell precedes in the revealed set |
| ArchiveGame.NoHintLeft | archive/main.py:16 | when every marked cell is revealed there is no hint |
| ArchiveGame.HintIsMarked | archive/main.py:13 | a hint is a marked, unrevealed cell inside the grid |
| ArchiveGame.RevealedStayMarked | archive/main.py:13-14 | revealing a hint keeps the revealed set inside the marked cells |
| ArchiveGame.HintAfterPrefix | archive/main.py:10-16 | once the first `k` marked cells are revealed, the next hint is marked cell `k`, or none after the last |
| ArchiveGame.HintsFromPrefix | archive/main.py:10-16 | repeated hints after the first `k` go through the remaining marked cells in order, then none |
| ArchiveGame.HintsFromEnd | archive/main.py:16 | once everything is revealed, every further hint is none |
| ArchiveGame.HintsFromEmpty | archive/main.py:10-16 | from an empty set, the first `count_marked` hints are the marked cells in row-major order, and every later hint is none |
| ArchiveGame.MarkedCellsCount | archive/main.py:11-13 | the number of marked cells equals `count_marked` |
| ArchiveGame.MarksUpToCount | archive/main.py:11-13 | the marked cells of the leading rows number their `count_marked` |
| ArchiveGame.RowMarksCount | archive/main.py:12-13 | a row's marked cells number its row sum |

## Left out

- The random board generator and its helpers are not modelled (`generate_board`, `weighted_choice`, `generate_board_from_solution` and the confusing-number heuristics). They depend on randomness and floating-point weights.
- The scoring heuristics `find_common_factors` and `evaluate_board_confusion` are not modelled. They only feed the generator.
- The FastAPI application is not modelled. That covers CORS, the pydantic schemas, `/new_game`, `/test_difficulty` and the exception wrapping of `/solve_manual`. Requests are the method parameters.
- `avg_marked` of `get_solution_stats` is not modelled, because it uses float division and `round`.
- The debug `print` calls and the Hebrew message texts are not modelled. Errors are tagged `ValidationError` values with 0-based indices.
- The console I/O of archive/main.py is not modelled: input parsing, the board and solution printers, and the menu loop after the search. archive/gui_app.py is not part of this model.
- ManualInput.ValidateManualInput: the `isinstance(val, int)` tests are always true in the model. Values are typed `int`, as the request schema delivers them.
- CoreLogic.ComputeTargets: `eval('*'.join(...))` is modelled as the product of the line. `compute_targets` maps `'+'` to a sum and any other string to a product. `/solve` maps `'*'` to multiplication and any other string to addition (`OpOf`); both mappings are kept as written.
- CoreLogic.ComputeTargets: requires every row to be non-empty when the operation is not `'+'`. For an empty row the Python evaluates `eval('')`, which raises `SyntaxError`; the model has no exception outcome.
- ManualInput.FindAllSolutions: requires 5 rows of 5 values and exactly 5 row and 5 column targets (`ManualShape`). The Python hard-codes the size 5 in its grid and its loops. On other shapes it may raise `IndexError` or return a list that does not match the board; for example, a board of 5 rows of width 4 gives `[]`, because column 4 is never marked. Its only caller validates the shape first.
- SolveEndpoint.SolvePuzzle: requires a well-formed instance: a non-empty rectangular board, and at least one target per row and per column. The model does not cover other input. There the Python may raise `IndexError`, or drop rows through `zip`, or return grids that are not solutions (`SolveEndpoint.RaggedBoardAccepted`). Too few column targets do not always raise either: `is_valid_columns` returns False at an unmarked column before it reads that column's target.
- ArchiveGame.HintSession.RunGame: requires a well-formed instance, and does not cover other input, for the same reasons as `SolvePuzzle`. It returns the outcome instead of printing it.
- ArchiveGame.HintSession.ShowHint: requires that no row is shorter than the first row. On a grid with a shorter row, the Python raises `IndexError` only when the scan reaches a missing cell; a hint found before that point is returned normally. The model does not cover such grids.
- ManualInput.GetSolutionStats: states the distribution as the multiset of mark counts. It does not restate separately that the counts sum to the number of solutions.
