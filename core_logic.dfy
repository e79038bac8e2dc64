/** backend/core_logic.py: row subset enumeration, the two column checks, the
    mark count, the minimal-mark backtracking search and target computation. */
module CoreLogic {
  import opened Puzzle
  import opened Combinations

  // ---------------------------------------------------------------------------
  // find_matching_subsets
  // ---------------------------------------------------------------------------

  /** `indices` is a non-empty set of positions of `values` whose values reduce
      under `op` to `target`: what `find_matching_subsets` looks for. */
  predicate IsMatchingSubset(values: seq<int>, target: int, op: Op, indices: set<int>)
  {
    (forall x :: x in indices ==> 0 <= x < |values|) &&
    var picked := Picked(values, Indicator(indices, |values|), 0);
    |picked| > 0 && Aggregate(op, picked) == target
  }

  /** The index tuples are non-empty and name positions of `values` in increasing order. */
  predicate ValidCombos(values: seq<int>, combos: seq<seq<int>>)
  {
    forall k :: 0 <= k < |combos| ==> |combos[k]| > 0 && Increasing(combos[k], 0, |values|)
  }

  /** The sets of those tuples of `combos` whose values reduce to `target`, in order. */
  function MatchesAmong(values: seq<int>, target: int, op: Op, combos: seq<seq<int>>): seq<set<int>>
    requires ValidCombos(values, combos)
    decreases |combos|
  {
    if |combos| == 0 then []
    else
      var last := combos[|combos| - 1];
      MatchesAmong(values, target, op, combos[..|combos| - 1])
        + (if Aggregate(op, ComboValues(values, last)) == target then [SetOf(last)] else [])
  }

  /** What the outer loop of `find_matching_subsets` has gathered once the sizes
      `1..r` are done. */
  function MatchingUpTo(values: seq<int>, target: int, op: Op, r: nat): seq<set<int>>
    requires r <= |values|
    decreases r
  {
    if r == 0 then []
    else
      CombShape(0, |values|, r);
      MatchingUpTo(values, target, op, r - 1) + MatchesAmong(values, target, op, Comb(0, |values|, r))
  }

  function MatchingSubsets(values: seq<int>, target: int, op: Op): seq<set<int>>
  {
    MatchingUpTo(values, target, op, |values|)
  }

  /** `find_matching_subsets(values, target, op)`: every size from 1 up, every
      combination of that size in `itertools.combinations` order. */
  method FindMatchingSubsets(values: seq<int>, target: int, op: Op) returns (matching: seq<set<int>>)
    ensures matching == MatchingSubsets(values, target, op)
    ensures forall s :: s in matching <==> IsMatchingSubset(values, target, op, s)
    ensures Distinct(matching)
    ensures forall i, j :: 0 <= i < j < |matching| ==> |matching[i]| <= |matching[j]|
  {
    var n := |values|;
    matching := [];
    var r := 1;
    while r <= n
      invariant 1 <= r <= n + 1
      invariant matching == MatchingUpTo(values, target, op, r - 1)
    {
      MatchingUpToStep(values, target, op, r);
      matching := AppendMatches(values, target, op, Comb(0, n, r), matching);
      r := r + 1;
    }
    MatchingSubsetsExact(values, target, op);
    MatchingSubsetsDistinctBySize(values, target, op, n);
  }

  /** The inner loop of `find_matching_subsets`: one pass over the combinations
      of one size, appending the set of each combination that meets the target. */
  method AppendMatches(values: seq<int>, target: int, op: Op, combos: seq<seq<int>>, init: seq<set<int>>)
    returns (matching: seq<set<int>>)
    requires ValidCombos(values, combos)
    ensures matching == init + MatchesAmong(values, target, op, combos)
  {
    matching := init;
    var k := 0;
    while k < |combos|
      invariant 0 <= k <= |combos|
      invariant matching == init + MatchesAmong(values, target, op, combos[..k])
    {
      var combo := combos[k];
      var nums := ComboValues(values, combo);
      MatchesAmongStep(values, target, op, combos, k);
      if Aggregate(op, nums) == target {
        matching := matching + [SetOf(combo)];
      }
      k := k + 1;
    }
    assert combos[..k] == combos;
  }

  lemma MatchingUpToStep(values: seq<int>, target: int, op: Op, r: nat)
    requires 1 <= r <= |values|
    ensures ValidCombos(values, Comb(0, |values|, r))
    ensures MatchingUpTo(values, target, op, r)
         == MatchingUpTo(values, target, op, r - 1) + MatchesAmong(values, target, op, Comb(0, |values|, r))
  {
    CombShape(0, |values|, r);
  }

  lemma MatchesAmongStep(values: seq<int>, target: int, op: Op, combos: seq<seq<int>>, k: nat)
    requires ValidCombos(values, combos) && k < |combos|
    ensures ValidCombos(values, combos[..k]) && ValidCombos(values, combos[..k + 1])
    ensures MatchesAmong(values, target, op, combos[..k + 1])
         == MatchesAmong(values, target, op, combos[..k])
            + (if Aggregate(op, ComboValues(values, combos[k])) == target then [SetOf(combos[k])] else [])
  {
    assert combos[..k + 1][..k] == combos[..k];
  }

  /** The list holds exactly the index sets that meet the target. */
  lemma MatchingSubsetsExact(values: seq<int>, target: int, op: Op)
    ensures forall s :: s in MatchingSubsets(values, target, op) <==> IsMatchingSubset(values, target, op, s)
  {
    forall s
      ensures s in MatchingSubsets(values, target, op) <==> IsMatchingSubset(values, target, op, s)
    {
      if s in MatchingSubsets(values, target, op) {
        MatchingSubsetsSound(values, target, op, s);
      }
      if IsMatchingSubset(values, target, op, s) {
        MatchingSubsetsComplete(values, target, op, s);
      }
    }
  }

  /** Every set `MatchesAmong` lists comes from one of the tuples and meets the target. */
  lemma {:induction false} MatchesAmongSound(values: seq<int>, target: int, op: Op, combos: seq<seq<int>>, s: set<int>)
    returns (k: nat)
    requires ValidCombos(values, combos)
    requires s in MatchesAmong(values, target, op, combos)
    ensures k < |combos| && s == SetOf(combos[k])
    ensures Aggregate(op, ComboValues(values, combos[k])) == target
    decreases |combos|
  {
    var front := combos[..|combos| - 1];
    var last := combos[|combos| - 1];
    if s in MatchesAmong(values, target, op, front) {
      k := MatchesAmongSound(values, target, op, front, s);
      assert combos[k] == front[k];
    } else {
      k := |combos| - 1;
    }
  }

  /** Every tuple whose values meet the target has its set listed. */
  lemma {:induction false} MatchesAmongContains(values: seq<int>, target: int, op: Op, combos: seq<seq<int>>, k: nat)
    requires ValidCombos(values, combos) && k < |combos|
    requires Aggregate(op, ComboValues(values, combos[k])) == target
    ensures SetOf(combos[k]) in MatchesAmong(values, target, op, combos)
    decreases |combos|
  {
    var front := combos[..|combos| - 1];
    if k < |combos| - 1 {
      assert combos[k] == front[k];
      MatchesAmongContains(values, target, op, front, k);
    }
  }

  /** Tuples with pairwise different sets give a list without repeats. */
  lemma {:induction false} MatchesAmongDistinct(values: seq<int>, target: int, op: Op, combos: seq<seq<int>>)
    requires ValidCombos(values, combos)
    requires forall k, l :: 0 <= k < l < |combos| ==> SetOf(combos[k]) != SetOf(combos[l])
    ensures Distinct(MatchesAmong(values, target, op, combos))
    decreases |combos|
  {
    if |combos| > 0 {
      var front := combos[..|combos| - 1];
      var last := combos[|combos| - 1];
      MatchesAmongDistinct(values, target, op, front);
      if Aggregate(op, ComboValues(values, last)) == target {
        var m := MatchesAmong(values, target, op, front);
        forall i | 0 <= i < |m|
          ensures m[i] != SetOf(last)
        {
          var k := MatchesAmongSound(values, target, op, front, m[i]);
          assert front[k] == combos[k];
        }
      }
    }
  }

  /** All tuples of `combos` have `r` indices, so all listed sets have `r` elements. */
  lemma MatchesAmongSize(values: seq<int>, target: int, op: Op, combos: seq<seq<int>>, r: nat, s: set<int>)
    requires ValidCombos(values, combos)
    requires forall k :: 0 <= k < |combos| ==> |combos[k]| == r
    requires s in MatchesAmong(values, target, op, combos)
    ensures |s| == r
  {
    var k := MatchesAmongSound(values, target, op, combos, s);
    IncreasingSetSize(combos[k], 0, |values|);
  }

  /** find_matching_subsets returns only non-empty index sets of `values` that
      meet the target. */
  lemma MatchingSubsetsSound(values: seq<int>, target: int, op: Op, s: set<int>)
    requires s in MatchingSubsets(values, target, op)
    ensures IsMatchingSubset(values, target, op, s)
    ensures 1 <= |s| <= |values|
  {
    MatchingUpToSound(values, target, op, |values|, s);
  }

  lemma {:induction false} MatchingUpToSound(values: seq<int>, target: int, op: Op, r: nat, s: set<int>)
    requires r <= |values| && s in MatchingUpTo(values, target, op, r)
    ensures IsMatchingSubset(values, target, op, s)
    ensures 1 <= |s| <= r
    decreases r
  {
    CombShape(0, |values|, r);
    if s in MatchingUpTo(values, target, op, r - 1) {
      MatchingUpToSound(values, target, op, r - 1, s);
    } else {
      var combos := Comb(0, |values|, r);
      var k := MatchesAmongSound(values, target, op, combos, s);
      IncreasingSetSize(combos[k], 0, |values|);
      ComboValuesArePicked(values, combos[k], 0);
    }
  }

  /** A set without marks picks no value. */
  lemma {:induction false} PickedNothing(values: seq<int>, flags: seq<int>, lo: nat)
    requires |flags| == |values| && lo <= |values|
    requires forall j :: lo <= j < |values| ==> flags[j] != 1
    ensures Picked(values, flags, lo) == []
    decreases |values| - lo
  {
    if lo < |values| {
      PickedNothing(values, flags, lo + 1);
    }
  }

  /** find_matching_subsets misses no index set that meets the target. */
  lemma MatchingSubsetsComplete(values: seq<int>, target: int, op: Op, s: set<int>)
    requires IsMatchingSubset(values, target, op, s)
    ensures s in MatchingSubsets(values, target, op)
  {
    var n := |values|;
    if |s| == 0 {
      assert s == {};
      PickedNothing(values, Indicator(s, n), 0);
      assert false;
    }
    var k := CombComplete(0, n, |s|, s);
    if |s| > n {
      CombTooFew(0, n, |s|);
      assert false;
    }
    var combos := Comb(0, n, |s|);
    CombShape(0, n, |s|);
    ComboValuesArePicked(values, combos[k], 0);
    MatchesAmongContains(values, target, op, combos, k);
    MatchingUpToContains(values, target, op, |s|, n, s);
  }

  lemma {:induction false} MatchingUpToContains(values: seq<int>, target: int, op: Op, r: nat, upto: nat, s: set<int>)
    requires 1 <= r <= upto <= |values|
    requires s in MatchingUpTo(values, target, op, r)
    ensures s in MatchingUpTo(values, target, op, upto)
    decreases upto
  {
    if r < upto {
      MatchingUpToContains(values, target, op, r, upto - 1, s);
      MatchingUpToGrows(values, target, op, upto);
    }
  }

  /** A later size keeps every set gathered before it. */
  lemma MatchingUpToGrows(values: seq<int>, target: int, op: Op, r: nat)
    requires 1 <= r <= |values|
    ensures forall s :: s in MatchingUpTo(values, target, op, r - 1) ==> s in MatchingUpTo(values, target, op, r)
  {
    MatchingUpToStep(values, target, op, r);
  }

  /** The sets come without repeats and sorted by size, smallest first. */
  lemma {:induction false} MatchingSubsetsDistinctBySize(values: seq<int>, target: int, op: Op, r: nat)
    requires r <= |values|
    ensures Distinct(MatchingUpTo(values, target, op, r))
    ensures forall i, j :: 0 <= i < j < |MatchingUpTo(values, target, op, r)| ==>
              |MatchingUpTo(values, target, op, r)[i]| <= |MatchingUpTo(values, target, op, r)[j]|
    decreases r
  {
    if r > 0 {
      MatchingSubsetsDistinctBySize(values, target, op, r - 1);
      var n := |values|;
      MatchingUpToStep(values, target, op, r);
      var before := MatchingUpTo(values, target, op, r - 1);
      var added := MatchesAmong(values, target, op, Comb(0, n, r));
      MatchingUpToSmaller(values, target, op, r - 1);
      SizeMatches(values, target, op, r);
      SizeSortedConcat(before, added, r);
    }
  }

  /** The sets gathered for size `r` come without repeats and have `r` elements each. */
  lemma SizeMatches(values: seq<int>, target: int, op: Op, r: nat)
    requires 1 <= r <= |values|
    ensures ValidCombos(values, Comb(0, |values|, r))
    ensures Distinct(MatchesAmong(values, target, op, Comb(0, |values|, r)))
    ensures forall j :: 0 <= j < |MatchesAmong(values, target, op, Comb(0, |values|, r))| ==>
              |MatchesAmong(values, target, op, Comb(0, |values|, r))[j]| == r
  {
    var combos := Comb(0, |values|, r);
    CombShape(0, |values|, r);
    CombDistinct(0, |values|, r);
    MatchesAmongDistinct(values, target, op, combos);
    MatchesAmongSizes(values, target, op, combos, r);
  }

  /** The sets gathered for sizes up to `r` have at most `r` elements. */
  lemma MatchingUpToSmaller(values: seq<int>, target: int, op: Op, r: nat)
    requires r <= |values|
    ensures forall i :: 0 <= i < |MatchingUpTo(values, target, op, r)| ==> |MatchingUpTo(values, target, op, r)[i]| <= r
  {
    var m := MatchingUpTo(values, target, op, r);
    forall i | 0 <= i < |m|
      ensures |m[i]| <= r
    {
      MatchingUpToSound(values, target, op, r, m[i]);
    }
  }

  /** Tuples of `r` indices give sets of `r` elements. */
  lemma MatchesAmongSizes(values: seq<int>, target: int, op: Op, combos: seq<seq<int>>, r: nat)
    requires ValidCombos(values, combos)
    requires forall k :: 0 <= k < |combos| ==> |combos[k]| == r
    ensures forall j :: 0 <= j < |MatchesAmong(values, target, op, combos)| ==> |MatchesAmong(values, target, op, combos)[j]| == r
  {
    var m := MatchesAmong(values, target, op, combos);
    forall j | 0 <= j < |m|
      ensures |m[j]| == r
    {
      MatchesAmongSize(values, target, op, combos, r, m[j]);
    }
  }

  /** Sets of fewer than `r` elements followed by sets of exactly `r` elements,
      each part without repeats and sorted by size, make a list with the same two
      properties. */
  lemma SizeSortedConcat(before: seq<set<int>>, added: seq<set<int>>, r: nat)
    requires Distinct(before) && Distinct(added)
    requires forall i, j :: 0 <= i < j < |before| ==> |before[i]| <= |before[j]|
    requires forall i :: 0 <= i < |before| ==> |before[i]| < r
    requires forall j :: 0 <= j < |added| ==> |added[j]| == r
    ensures Distinct(before + added)
    ensures forall i, j :: 0 <= i < j < |before + added| ==> |(before + added)[i]| <= |(before + added)[j]|
  {
    var all := before + added;
    forall i, j | 0 <= i < j < |all|
      ensures all[i] != all[j] && |all[i]| <= |all[j]|
    {
      if j < |before| {
        assert all[i] == before[i] && all[j] == before[j];
      } else if i < |before| {
        assert all[i] == before[i] && all[j] == added[j - |before|];
      } else {
        assert all[i] == added[i - |before|] && all[j] == added[j - |before|];
      }
    }
  }

  // ---------------------------------------------------------------------------
  // is_partial_valid_columns, is_valid_columns
  // ---------------------------------------------------------------------------

  /** `grid` has a row 0, the first `upto` rows of `grid` and `board` are as wide as
      `grid[0]`, and there is a target for each column of `grid[0]`. */
  predicate Fits(grid: Grid, board: Grid, targetCols: seq<int>, upto: nat)
  {
    |grid| >= 1 && upto <= |grid| && upto <= |board| && |targetCols| >= |grid[0]| &&
    forall r :: 0 <= r < upto ==> |grid[r]| >= |grid[0]| && |board[r]| >= |grid[0]|
  }

  /** The pruning test of one column: nothing is marked in it yet, or the reduction
      of its marked values does not exceed the target and, for `*`, is not a zero
      product against a non-zero target. */
  predicate WithinTarget(op: Op, values: seq<int>, target: int)
  {
    |values| == 0 ||
    (Aggregate(op, values) <= target && !(op == Mul && Aggregate(op, values) == 0 && target != 0))
  }

  /** The final test of one column: something is marked and the marked values
      reduce exactly to the target. */
  predicate MeetsTarget(op: Op, values: seq<int>, target: int)
  {
    |values| > 0 && Aggregate(op, values) == target
  }

  /** `is_partial_valid_columns(grid, row_idx, board, target_cols, op)`: looks at
      rows `0..row_idx` only and fails on the first column over its target. */
  function IsPartialValidColumns(grid: Grid, rowIdx: nat, board: Grid, targetCols: seq<int>, op: Op): (ok: bool)
    requires Fits(grid, board, targetCols, rowIdx + 1)
    ensures ok <==> forall col :: 0 <= col < |grid[0]| ==>
                      WithinTarget(op, ColumnMarked(grid, board, col, rowIdx + 1), targetCols[col])
  {
    PartialValidFrom(grid, rowIdx, board, targetCols, op, 0)
  }

  function PartialValidFrom(grid: Grid, rowIdx: nat, board: Grid, targetCols: seq<int>, op: Op, col: nat): (ok: bool)
    requires Fits(grid, board, targetCols, rowIdx + 1) && col <= |grid[0]|
    ensures ok <==> forall c :: col <= c < |grid[0]| ==>
                      WithinTarget(op, ColumnMarked(grid, board, c, rowIdx + 1), targetCols[c])
    decreases |grid[0]| - col
  {
    if col == |grid[0]| then true
    else
      var values := ColumnMarked(grid, board, col, rowIdx + 1);
      if |values| == 0 then PartialValidFrom(grid, rowIdx, board, targetCols, op, col + 1)
      else
        var result := Aggregate(op, values);
        if result > targetCols[col] then false
        else if op == Mul && result == 0 && targetCols[col] != 0 then false
        else PartialValidFrom(grid, rowIdx, board, targetCols, op, col + 1)
  }

  /** `is_valid_columns(grid, board, target_cols, op)`: every column of `grid[0]`
      has a marked cell and its marked values reduce to its target. */
  function IsValidColumns(grid: Grid, board: Grid, targetCols: seq<int>, op: Op): (ok: bool)
    requires Fits(grid, board, targetCols, |board|)
    ensures ok <==> forall col :: 0 <= col < |grid[0]| ==>
                      MeetsTarget(op, ColumnMarked(grid, board, col, |board|), targetCols[col])
  {
    ValidFrom(grid, board, targetCols, op, 0)
  }

  function ValidFrom(grid: Grid, board: Grid, targetCols: seq<int>, op: Op, col: nat): (ok: bool)
    requires Fits(grid, board, targetCols, |board|) && col <= |grid[0]|
    ensures ok <==> forall c :: col <= c < |grid[0]| ==>
                      MeetsTarget(op, ColumnMarked(grid, board, c, |board|), targetCols[c])
    decreases |grid[0]| - col
  {
    if col == |grid[0]| then true
    else
      var values := ColumnMarked(grid, board, col, |board|);
      if |values| == 0 then false
      else if Aggregate(op, values) != targetCols[col] then false
      else ValidFrom(grid, board, targetCols, op, col + 1)
  }

  // ---------------------------------------------------------------------------
  // count_marked
  // ---------------------------------------------------------------------------

  /** `sum(row)` */
  function RowSum(row: seq<int>): int
    decreases |row|
  {
    if |row| == 0 then 0 else RowSum(row[..|row| - 1]) + row[|row| - 1]
  }

  /** `count_marked(grid)`: `sum(sum(row) for row in grid)`. */
  function CountMarked(grid: Grid): int
    decreases |grid|
  {
    if |grid| == 0 then 0 else CountMarked(grid[..|grid| - 1]) + RowSum(grid[|grid| - 1])
  }

  /** On a 0/1 row the sum is the number of marked positions. */
  lemma {:induction false} RowSumCountsMarks(row: seq<int>)
    requires IsMask(row)
    ensures RowSum(row) == |MarkedSet(row)|
    decreases |row|
  {
    if |row| > 0 {
      var n := |row| - 1;
      var front := row[..n];
      RowSumCountsMarks(front);
      if row[n] == 1 {
        assert MarkedSet(row) == MarkedSet(front) + {n};
      } else {
        assert MarkedSet(row) == MarkedSet(front);
      }
    }
  }

  /** The row placed for a row option has as many marks as the option has indices. */
  lemma IndicatorRowSum(option: set<int>, w: nat)
    requires forall x :: x in option ==> 0 <= x < w
    ensures RowSum(Indicator(option, w)) == |option|
  {
    var row := Indicator(option, w);
    assert MarkedSet(row) == option;
    RowSumCountsMarks(row);
  }

  /** A grid of 0/1 rows has a mark count of at least 0. */
  lemma {:induction false} CountMarkedNonNegative(grid: Grid)
    requires forall r :: 0 <= r < |grid| ==> IsMask(grid[r])
    ensures CountMarked(grid) >= 0
    decreases |grid|
  {
    if |grid| > 0 {
      CountMarkedNonNegative(grid[..|grid| - 1]);
      RowSumCountsMarks(grid[|grid| - 1]);
    }
  }

  // ---------------------------------------------------------------------------
  // solve_minimal
  // ---------------------------------------------------------------------------

  /** The arguments `board, target_rows, target_cols, op` every search passes along. */
  datatype Instance = Instance(board: Grid, targetRows: seq<int>, targetCols: seq<int>, op: Op)

  /** A rectangular board of at least one row, with a target for every row and column. */
  predicate WellFormed(p: Instance)
  {
    Rectangular(p.board) && |p.targetRows| >= |p.board| && |p.targetCols| >= |p.board[0]|
  }

  function Width(p: Instance): nat
    requires |p.board| >= 1
  {
    |p.board[0]|
  }

  /** A search state: options for every row, and a grid of the board's shape. */
  predicate SearchFits(p: Instance, rowPossibilities: seq<seq<set<int>>>, g: Grid)
  {
    WellFormed(p) && |rowPossibilities| >= |p.board| && Shaped(g, |p.board|, Width(p))
  }

  /** The grids that the depth-first search started at row `rowIdx` of `g` accepts,
      in the order it reaches them: it tries the options of the row in order, goes
      deeper only when the pruning check passes, and accepts a complete grid that
      passes the final column check. */
  function Explore(p: Instance, rowPossibilities: seq<seq<set<int>>>, g: Grid, rowIdx: nat): seq<Grid>
    requires SearchFits(p, rowPossibilities, g) && rowIdx <= |p.board|
    decreases |p.board| - rowIdx, 1, 0
  {
    if rowIdx == |p.board| then
      if IsValidColumns(g, p.board, p.targetCols, p.op) then [g] else []
    else
      ExploreOptions(p, rowPossibilities, g, rowIdx, rowPossibilities[rowIdx])
  }

  /** What the search finds while trying the options `opts` for row `rowIdx`. */
  function ExploreOptions(p: Instance, rowPossibilities: seq<seq<set<int>>>, g: Grid, rowIdx: nat, opts: seq<set<int>>): seq<Grid>
    requires SearchFits(p, rowPossibilities, g) && rowIdx < |p.board|
    decreases |p.board| - rowIdx, 0, |opts|
  {
    if |opts| == 0 then []
    else
      var next := g[rowIdx := Indicator(opts[|opts| - 1], Width(p))];
      ExploreOptions(p, rowPossibilities, g, rowIdx, opts[..|opts| - 1])
        + (if IsPartialValidColumns(next, rowIdx, p.board, p.targetCols, p.op)
           then Explore(p, rowPossibilities, next, rowIdx + 1)
           else [])
  }

  /** What the search finds below `next`, a grid whose row `rowIdx` has just been
      placed: nothing when the pruning check rejects it. */
  function Deeper(p: Instance, rowPossibilities: seq<seq<set<int>>>, next: Grid, rowIdx: nat): seq<Grid>
    requires SearchFits(p, rowPossibilities, next) && rowIdx < |p.board|
  {
    if IsPartialValidColumns(next, rowIdx, p.board, p.targetCols, p.op)
    then Explore(p, rowPossibilities, next, rowIdx + 1)
    else []
  }

  /** Trying one more option: what the loop over `row_possibilities[row_idx]`
      gains at its `k`-th turn. */
  lemma ExploreOptionsStep(p: Instance, rowPossibilities: seq<seq<set<int>>>, g: Grid, rowIdx: nat,
                           opts: seq<set<int>>, k: nat)
    requires SearchFits(p, rowPossibilities, g) && rowIdx < |p.board| && k < |opts|
    ensures ExploreOptions(p, rowPossibilities, g, rowIdx, opts[..k + 1])
         == ExploreOptions(p, rowPossibilities, g, rowIdx, opts[..k])
          + Deeper(p, rowPossibilities, g[rowIdx := Indicator(opts[k], Width(p))], rowIdx)
  {
    assert opts[..k + 1][..k] == opts[..k];
  }

  /** The list a search appends to, after one more turn of the loop over the
      options of row `rowIdx`. */
  lemma ExploreOptionsAppend(p: Instance, rowPossibilities: seq<seq<set<int>>>, g: Grid, rowIdx: nat,
                             opts: seq<set<int>>, k: nat, start: seq<Grid>, before: seq<Grid>, after: seq<Grid>)
    requires SearchFits(p, rowPossibilities, g) && rowIdx < |p.board| && k < |opts|
    requires before == start + ExploreOptions(p, rowPossibilities, g, rowIdx, opts[..k])
    requires after == before + Deeper(p, rowPossibilities, g[rowIdx := Indicator(opts[k], Width(p))], rowIdx)
    ensures after == start + ExploreOptions(p, rowPossibilities, g, rowIdx, opts[..k + 1])
  {
    ExploreOptionsStep(p, rowPossibilities, g, rowIdx, opts, k);
  }

  /** The initial value of `best_solution[0]`: `float("inf")` or a finite bound
      such as `sys.maxsize`. */
  datatype Bound = Infinite | Finite(n: int)

  /** `m < best_solution[0]` */
  predicate Below(m: int, b: Bound)
  {
    b.Infinite? || m < b.n
  }

  /** The two entries of `best_solution`. */
  datatype Best = Best(marked: Bound, solution: Option<Grid>)

  /** The update at the bottom of the search: a grid replaces the best one only
      when its mark count is strictly smaller. */
  function Improve(b: Best, g: Grid): Best
  {
    var m := CountMarked(g);
    if Below(m, b.marked) then Best(Finite(m), Some(g)) else b
  }

  /** `best_solution` after the accepted grids `sols` have reached the update in order. */
  function MinPick(b: Best, sols: seq<Grid>): Best
    decreases |sols|
  {
    if |sols| == 0 then b else Improve(MinPick(b, sols[..|sols| - 1]), sols[|sols| - 1])
  }

  /** Feeding two runs of grids is feeding the first, then the second. */
  lemma {:induction false} MinPickAppend(b: Best, s: seq<Grid>, t: seq<Grid>)
    ensures MinPick(b, s + t) == MinPick(MinPick(b, s), t)
    decreases |t|
  {
    if |t| == 0 {
      assert s + t == s;
    } else {
      var front := t[..|t| - 1];
      assert (s + t)[..|s + t| - 1] == s + front;
      MinPickAppend(b, s, front);
    }
  }

  /** At the bottom of the search a complete grid is accepted exactly when it
      passes the column check, and it then reaches the update. */
  lemma ExploreLeaf(p: Instance, rowPossibilities: seq<seq<set<int>>>, g: Grid, b: Best)
    requires SearchFits(p, rowPossibilities, g)
    ensures IsValidColumns(g, p.board, p.targetCols, p.op) ==>
              Explore(p, rowPossibilities, g, |p.board|) == [g] && MinPick(b, [g]) == Improve(b, g)
    ensures !IsValidColumns(g, p.board, p.targetCols, p.op) ==>
              Explore(p, rowPossibilities, g, |p.board|) == [] && MinPick(b, []) == b
  {
    assert [g][..0] == [];
  }

  /** The two-element list `best_solution`, updated in place by the search. */
  class BestSolution {
    var marked: Bound
    var solution: Option<Grid>

    constructor (initial: Bound)
      ensures marked == initial && solution == None
    {
      marked := initial;
      solution := None;
    }

    function State(): Best
      reads this
    {
      Best(marked, solution)
    }
  }

  /** `solve_minimal(grid, row_idx, board, target_rows, target_cols, op,
      row_possibilities, best_solution)`: rows from `rowIdx` on are still zero;
      the grid is given back as it came, and `best_solution` has seen every grid the
      search accepts, in depth-first order. */
  method SolveMinimal(grid: array<seq<int>>, rowIdx: nat, p: Instance, rowPossibilities: seq<seq<set<int>>>, best: BestSolution)
    requires SearchFits(p, rowPossibilities, grid[..]) && rowIdx <= |p.board|
    requires forall r :: rowIdx <= r < grid.Length ==> grid[r] == Zeros(Width(p))
    modifies grid, best
    ensures grid[..] == old(grid[..])
    ensures best.State() == MinPick(old(best.State()), Explore(p, rowPossibilities, old(grid[..]), rowIdx))
    decreases |p.board| - rowIdx, 1
  {
    var w := Width(p);
    if rowIdx == |p.board| {
      MinimalLeaf(grid, p, rowPossibilities, best);
      return;
    }
    ghost var g0 := grid[..];
    ghost var initial := best.State();
    var opts := rowPossibilities[rowIdx];
    var k := 0;
    while k < |opts|
      invariant 0 <= k <= |opts|
      invariant grid[..] == g0[rowIdx := grid[rowIdx]] && |grid[rowIdx]| == w
      invariant best.State() == MinPick(initial, ExploreOptions(p, rowPossibilities, g0, rowIdx, opts[..k]))
    {
      TryOption(grid, rowIdx, p, rowPossibilities, opts[k], best);
      assert grid[..] == g0[rowIdx := Indicator(opts[k], w)];
      ExploreOptionsStep(p, rowPossibilities, g0, rowIdx, opts, k);
      MinPickAppend(initial, ExploreOptions(p, rowPossibilities, g0, rowIdx, opts[..k]),
                    Deeper(p, rowPossibilities, grid[..], rowIdx));
      k := k + 1;
    }
    assert opts[..k] == opts;
    grid[rowIdx] := Zeros(w);
    assert grid[..] == g0;
  }

  /** The bottom of `solve_minimal`: a complete grid that passes the column check
      replaces `best_solution` when it has strictly fewer marks. */
  method MinimalLeaf(grid: array<seq<int>>, p: Instance, rowPossibilities: seq<seq<set<int>>>, best: BestSolution)
    requires SearchFits(p, rowPossibilities, grid[..])
    modifies best
    ensures best.State() == MinPick(old(best.State()), Explore(p, rowPossibilities, grid[..], |p.board|))
  {
    ExploreLeaf(p, rowPossibilities, grid[..], best.State());
    if IsValidColumns(grid[..], p.board, p.targetCols, p.op) {
      var marked := CountMarked(grid[..]);
      if Below(marked, best.marked) {
        best.marked := Finite(marked);
        best.solution := Some(grid[..]);
      }
    }
  }

  /** One turn of the loop over `row_possibilities[row_idx]`: place the option's
      0/1 row, and search the rows below when the pruning check passes. */
  method TryOption(grid: array<seq<int>>, rowIdx: nat, p: Instance, rowPossibilities: seq<seq<set<int>>>,
                   option: set<int>, best: BestSolution)
    requires SearchFits(p, rowPossibilities, grid[..]) && rowIdx < |p.board|
    requires forall r :: rowIdx < r < grid.Length ==> grid[r] == Zeros(Width(p))
    modifies grid, best
    ensures grid[..] == old(grid[..])[rowIdx := Indicator(option, Width(p))]
    ensures best.State() == MinPick(old(best.State()), Deeper(p, rowPossibilities, grid[..], rowIdx))
    decreases |p.board| - rowIdx, 0
  {
    grid[rowIdx] := Indicator(option, Width(p));
    if IsPartialValidColumns(grid[..], rowIdx, p.board, p.targetCols, p.op) {
      SolveMinimal(grid, rowIdx + 1, p, rowPossibilities, best);
    }
  }

  // ---------------------------------------------------------------------------
  // compute_targets
  // ---------------------------------------------------------------------------

  /** `sum(s)` */
  function Sum(s: seq<int>): int
    decreases |s|
  {
    if |s| == 0 then 0 else Sum(s[..|s| - 1]) + s[|s| - 1]
  }

  /** The value of the expression `'*'.join(map(str, s))`, for a non-empty `s`. */
  function Product(s: seq<int>): int
    requires |s| > 0
    decreases |s|
  {
    if |s| == 1 then s[0] else Product(s[..|s| - 1]) * s[|s| - 1]
  }

  /** Column `j` of a board, top to bottom: one entry of `zip(*board)`. */
  function Column(board: Grid, j: nat): (col: seq<int>)
    requires forall r :: 0 <= r < |board| ==> j < |board[r]|
  {
    seq(|board|, r requires 0 <= r < |board| => board[r][j])
  }

  /** The target of one row or column: its sum for `'+'`, its product for any
      other operation string. */
  function LineTarget(line: seq<int>, operation: string): int
    requires operation != "+" ==> |line| > 0
  {
    if operation == "+" then Sum(line) else Product(line)
  }

  /** The operation `compute_targets` applies: `'+'` sums, every other string
      multiplies. */
  function TargetOp(operation: string): Op
  {
    if operation == "+" then Add else Mul
  }

  /** How many tuples `zip(*board)` yields: the length of the shortest row, and
      none for an empty board. */
  function ZipWidth(board: Grid): (w: nat)
    ensures forall r :: 0 <= r < |board| ==> w <= |board[r]|
    ensures |board| > 0 ==> exists r :: 0 <= r < |board| && |board[r]| == w
    ensures |board| == 0 ==> w == 0
    decreases |board|
  {
    if |board| <= 1 then (if |board| == 0 then 0 else |board[0]|)
    else
      var rest := ZipWidth(board[1..]);
      assert forall r :: 1 <= r < |board| ==> board[1..][r - 1] == board[r];
      if |board[0]| <= rest then |board[0]| else rest
  }

  /** `compute_targets(board, operation)`: one target per row, the sum or product
      of the whole row, and one per tuple of `zip(*board)`, the sum or product of
      that column. An empty row sums to 0. The targets are met by marking every
      cell of a rectangular board, under the operation the solver selects. */
  function ComputeTargets(board: Grid, operation: string): (targets: (seq<int>, seq<int>))
    requires operation != "+" ==> forall r :: 0 <= r < |board| ==> |board[r]| > 0
    ensures |targets.0| == |board| && |targets.1| == ZipWidth(board)
    ensures forall i :: 0 <= i < |board| ==>
              targets.0[i] == if |board[i]| == 0 then 0 else Aggregate(TargetOp(operation), board[i])
    ensures forall j :: 0 <= j < |targets.1| ==> targets.1[j] == Aggregate(TargetOp(operation), Column(board, j))
    ensures Rectangular(board) && |board[0]| > 0 && (operation == "+" || operation == "*") ==>
              var g := AllMarked(|board|, |board[0]|);
              |targets.1| == |board[0]| &&
              IsValidColumns(g, board, targets.1, OpOf(operation)) &&
              forall i :: 0 <= i < |board| ==> MeetsTarget(OpOf(operation), Picked(board[i], g[i], 0), targets.0[i])
  {
    var w := ZipWidth(board);
    var rowsTargets := seq(|board|, i requires 0 <= i < |board| => LineTarget(board[i], operation));
    var colsTargets := seq(w, j requires 0 <= j < w => LineTarget(Column(board, j), operation));
    LineTargetsAreAggregates(board, operation, rowsTargets, colsTargets);
    if Rectangular(board) && |board[0]| > 0 && (operation == "+" || operation == "*") then
      AllMarkedMeetsTargets(board, operation, rowsTargets, colsTargets);
      (rowsTargets, colsTargets)
    else
      (rowsTargets, colsTargets)
  }

  /** `sum` and the product agree with `reduce` on a non-empty list. */
  lemma {:induction false} LineTargetIsAggregate(line: seq<int>, operation: string)
    requires |line| > 0
    ensures LineTarget(line, operation) == Aggregate(TargetOp(operation), line)
    decreases |line|
  {
    if |line| > 1 {
      LineTargetIsAggregate(line[..|line| - 1], operation);
    } else if operation == "+" {
      assert Sum(line[..0]) == 0;
      assert Sum(line) == line[0];
    }
  }

  /** Row and column targets, each the sum or product of its whole line. */
  lemma LineTargetsAreAggregates(board: Grid, operation: string, rowsTargets: seq<int>, colsTargets: seq<int>)
    requires operation != "+" ==> forall r :: 0 <= r < |board| ==> |board[r]| > 0
    requires |rowsTargets| == |board| && |colsTargets| == ZipWidth(board)
    requires forall i :: 0 <= i < |board| ==> rowsTargets[i] == LineTarget(board[i], operation)
    requires forall j :: 0 <= j < |colsTargets| ==> colsTargets[j] == LineTarget(Column(board, j), operation)
    ensures forall i :: 0 <= i < |board| ==>
              rowsTargets[i] == if |board[i]| == 0 then 0 else Aggregate(TargetOp(operation), board[i])
    ensures forall j :: 0 <= j < |colsTargets| ==> colsTargets[j] == Aggregate(TargetOp(operation), Column(board, j))
  {
    forall i | 0 <= i < |board|
      ensures rowsTargets[i] == if |board[i]| == 0 then 0 else Aggregate(TargetOp(operation), board[i])
    {
      if |board[i]| > 0 {
        LineTargetIsAggregate(board[i], operation);
      }
    }
    forall j | 0 <= j < |colsTargets|
      ensures colsTargets[j] == Aggregate(TargetOp(operation), Column(board, j))
    {
      LineTargetIsAggregate(Column(board, j), operation);
    }
  }

  /** The grid that marks every cell. */
  function AllMarked(rows: nat, cols: nat): (g: Grid)
    ensures Shaped(g, rows, cols)
  {
    seq(rows, _ => seq(cols, _ => 1))
  }

  lemma {:induction false} PickedAll(values: seq<int>, flags: seq<int>, lo: nat)
    requires |flags| == |values| && lo <= |values|
    requires forall j :: lo <= j < |values| ==> flags[j] == 1
    ensures Picked(values, flags, lo) == values[lo..]
    decreases |values| - lo
  {
    if lo < |values| {
      PickedAll(values, flags, lo + 1);
      assert values[lo..] == [values[lo]] + values[lo + 1..];
    }
  }

  lemma {:induction false} ColumnMarkedAll(grid: Grid, board: Grid, col: nat, upto: nat)
    requires upto <= |grid| && upto <= |board|
    requires forall r :: 0 <= r < upto ==> col < |grid[r]| && col < |board[r]| && grid[r][col] == 1
    ensures ColumnMarked(grid, board, col, upto) == Column(board[..upto], col)
    decreases upto
  {
    if upto > 0 {
      ColumnMarkedAll(grid, board, col, upto - 1);
      assert board[..upto][..upto - 1] == board[..upto - 1];
    }
  }

  /** Targets that are the sums (or products) of whole lines of a rectangular
      board are met by marking every cell: the whole-board grid passes the final
      column check, and every row's marked values reduce to its row target. For
      `"+"` and `"*"` the operation the targets use is the one the solver selects. */
  lemma AllMarkedMeetsTargets(board: Grid, operation: string, rowsTargets: seq<int>, colsTargets: seq<int>)
    requires Rectangular(board) && |board[0]| > 0
    requires operation == "+" || operation == "*"
    requires |rowsTargets| == |board| && |colsTargets| == ZipWidth(board)
    requires forall i :: 0 <= i < |board| ==> rowsTargets[i] == Aggregate(TargetOp(operation), board[i])
    requires forall j :: 0 <= j < |colsTargets| ==> colsTargets[j] == Aggregate(TargetOp(operation), Column(board, j))
    ensures var g := AllMarked(|board|, |board[0]|);
            |colsTargets| == |board[0]| &&
            IsValidColumns(g, board, colsTargets, OpOf(operation)) &&
            forall i :: 0 <= i < |board| ==> MeetsTarget(OpOf(operation), Picked(board[i], g[i], 0), rowsTargets[i])
  {
    var op := OpOf(operation);
    assert op == TargetOp(operation);
    var g := AllMarked(|board|, |board[0]|);
    forall i | 0 <= i < |board|
      ensures MeetsTarget(op, Picked(board[i], g[i], 0), rowsTargets[i])
    {
      PickedAll(board[i], g[i], 0);
      assert board[i][0..] == board[i];
    }
    forall col | 0 <= col < |g[0]|
      ensures MeetsTarget(op, ColumnMarked(g, board, col, |board|), colsTargets[col])
    {
      ColumnMarkedAll(g, board, col, |board|);
      assert board[..|board|] == board;
    }
  }
}
