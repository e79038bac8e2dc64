/** What the row-by-row search of backend/core_logic.py finds, stated once for
    `Explore`: soundness, completeness on boards of positive values (the pruning
    never cuts off a completable prefix), no repeats, and which grid the strict
    `<` update keeps. The three copies of the search are each proved equal to
    `Explore`, so these results hold for all of them. */
module SearchTheory {
  import opened Puzzle
  import opened Combinations
  import opened CoreLogic

  /** `row` is the row the search places for one of the options `opts`. */
  predicate IsOptionRow(row: seq<int>, opts: seq<set<int>>, w: nat)
  {
    exists i :: 0 <= i < |opts| && row == Indicator(opts[i], w)
  }

  /** Every board value is at least 1. */
  predicate PositiveBoard(board: Grid)
  {
    forall r, c :: 0 <= r < |board| && 0 <= c < |board[r]| ==> board[r][c] >= 1
  }

  // ---------------------------------------------------------------------------
  // Soundness
  // ---------------------------------------------------------------------------

  /** A grid the search accepts keeps the rows above `rowIdx`, places an option row
      in every row from `rowIdx` on, and passes the final column check. */
  lemma {:induction false} ExploreSound(p: Instance, rp: seq<seq<set<int>>>, g: Grid, rowIdx: nat, x: Grid)
    requires SearchFits(p, rp, g) && rowIdx <= |p.board|
    requires x in Explore(p, rp, g, rowIdx)
    ensures Shaped(x, |p.board|, Width(p))
    ensures forall r :: 0 <= r < rowIdx ==> x[r] == g[r]
    ensures forall r :: rowIdx <= r < |p.board| ==> IsOptionRow(x[r], rp[r], Width(p))
    ensures IsValidColumns(x, p.board, p.targetCols, p.op)
    decreases |p.board| - rowIdx, 1, 0
  {
    if rowIdx < |p.board| {
      ExploreOptionsSound(p, rp, g, rowIdx, rp[rowIdx], x);
    }
  }

  lemma {:induction false} ExploreOptionsSound(p: Instance, rp: seq<seq<set<int>>>, g: Grid, rowIdx: nat, opts: seq<set<int>>, x: Grid)
    requires SearchFits(p, rp, g) && rowIdx < |p.board|
    requires x in ExploreOptions(p, rp, g, rowIdx, opts)
    ensures Shaped(x, |p.board|, Width(p))
    ensures forall r :: 0 <= r < rowIdx ==> x[r] == g[r]
    ensures IsOptionRow(x[rowIdx], opts, Width(p))
    ensures forall r :: rowIdx < r < |p.board| ==> IsOptionRow(x[r], rp[r], Width(p))
    ensures IsValidColumns(x, p.board, p.targetCols, p.op)
    decreases |p.board| - rowIdx, 0, |opts|
  {
    var front := opts[..|opts| - 1];
    var last := opts[|opts| - 1];
    var next := g[rowIdx := Indicator(last, Width(p))];
    if x in ExploreOptions(p, rp, g, rowIdx, front) {
      ExploreOptionsSound(p, rp, g, rowIdx, front, x);
      var i :| 0 <= i < |front| && x[rowIdx] == Indicator(front[i], Width(p));
      assert front[i] == opts[i];
    } else {
      ExploreSound(p, rp, next, rowIdx + 1, x);
      assert x[rowIdx] == Indicator(opts[|opts| - 1], Width(p));
    }
  }

  /** A row without options makes the whole search come back empty, so giving up
      early, as `find_all_solutions` and `run_game` do, loses nothing. */
  lemma NoOptionsNoGrids(p: Instance, rp: seq<seq<set<int>>>, g: Grid, rowIdx: nat, r: nat)
    requires SearchFits(p, rp, g) && rowIdx <= r < |p.board| && |rp[r]| == 0
    ensures Explore(p, rp, g, rowIdx) == []
  {
    var found := Explore(p, rp, g, rowIdx);
    if |found| > 0 {
      ExploreSound(p, rp, g, rowIdx, found[0]);
      assert false;
    }
  }

  // ---------------------------------------------------------------------------
  // Pruning and completeness
  // ---------------------------------------------------------------------------

  /** With positive board values a prefix that `is_partial_valid_columns` rejects
      has no completion that `is_valid_columns` accepts: a prefix of a valid grid
      always passes. */
  lemma PruningSound(p: Instance, prefix: Grid, x: Grid, rowIdx: nat)
    requires WellFormed(p) && PositiveBoard(p.board) && rowIdx < |p.board|
    requires Shaped(prefix, |p.board|, Width(p)) && Shaped(x, |p.board|, Width(p))
    requires forall r :: 0 <= r <= rowIdx ==> prefix[r] == x[r]
    ensures IsValidColumns(x, p.board, p.targetCols, p.op) ==>
              IsPartialValidColumns(prefix, rowIdx, p.board, p.targetCols, p.op)
  {
    if IsValidColumns(x, p.board, p.targetCols, p.op) {
      forall col | 0 <= col < |prefix[0]|
        ensures WithinTarget(p.op, ColumnMarked(prefix, p.board, col, rowIdx + 1), p.targetCols[col])
      {
        ColumnPrefixWithin(p, prefix, x, rowIdx, col);
      }
    }
  }

  lemma ColumnPrefixWithin(p: Instance, prefix: Grid, x: Grid, rowIdx: nat, col: nat)
    requires WellFormed(p) && PositiveBoard(p.board) && rowIdx < |p.board| && col < Width(p)
    requires Shaped(prefix, |p.board|, Width(p)) && Shaped(x, |p.board|, Width(p))
    requires forall r :: 0 <= r <= rowIdx ==> prefix[r] == x[r]
    requires MeetsTarget(p.op, ColumnMarked(x, p.board, col, |p.board|), p.targetCols[col])
    ensures WithinTarget(p.op, ColumnMarked(prefix, p.board, col, rowIdx + 1), p.targetCols[col])
  {
    var values := ColumnMarked(prefix, p.board, col, rowIdx + 1);
    ColumnMarkedAgree(prefix, x, p.board, col, rowIdx + 1);
    ColumnMarkedGrows(p.op, x, p.board, col, rowIdx + 1, |p.board|);
    if |values| > 0 {
      ColumnMarkedPositive(prefix, p.board, col, rowIdx + 1);
      AggregatePositive(p.op, values);
    }
  }

  /** Trying the options in order reaches what any one of them leads to. */
  lemma {:induction false} ExploreOptionsContains(p: Instance, rp: seq<seq<set<int>>>, g: Grid, rowIdx: nat, opts: seq<set<int>>, i: nat, x: Grid)
    requires SearchFits(p, rp, g) && rowIdx < |p.board| && i < |opts|
    requires IsPartialValidColumns(g[rowIdx := Indicator(opts[i], Width(p))], rowIdx, p.board, p.targetCols, p.op)
    requires x in Explore(p, rp, g[rowIdx := Indicator(opts[i], Width(p))], rowIdx + 1)
    ensures x in ExploreOptions(p, rp, g, rowIdx, opts)
    decreases |opts|
  {
    var front := opts[..|opts| - 1];
    if i < |opts| - 1 {
      assert front[i] == opts[i];
      ExploreOptionsContains(p, rp, g, rowIdx, front, i, x);
    }
  }

  /** On a board of positive values the search misses no grid that keeps the rows
      above `rowIdx`, places option rows below, and passes the final check. */
  lemma {:induction false} ExploreComplete(p: Instance, rp: seq<seq<set<int>>>, g: Grid, rowIdx: nat, x: Grid)
    requires SearchFits(p, rp, g) && rowIdx <= |p.board| && PositiveBoard(p.board)
    requires Shaped(x, |p.board|, Width(p))
    requires forall r :: 0 <= r < rowIdx ==> x[r] == g[r]
    requires forall r :: rowIdx <= r < |p.board| ==> IsOptionRow(x[r], rp[r], Width(p))
    requires IsValidColumns(x, p.board, p.targetCols, p.op)
    ensures x in Explore(p, rp, g, rowIdx)
    decreases |p.board| - rowIdx
  {
    if rowIdx == |p.board| {
      assert x == g;
    } else {
      var w := Width(p);
      var opts := rp[rowIdx];
      assert IsOptionRow(x[rowIdx], opts, w);
      var i :| 0 <= i < |opts| && x[rowIdx] == Indicator(opts[i], w);
      var next := g[rowIdx := Indicator(opts[i], w)];
      PruningSound(p, next, x, rowIdx);
      ExploreComplete(p, rp, next, rowIdx + 1, x);
      ExploreOptionsContains(p, rp, g, rowIdx, opts, i, x);
    }
  }

  // ---------------------------------------------------------------------------
  // No repeats
  // ---------------------------------------------------------------------------

  /** Every row's options are pairwise different index sets of `[0, w)`. */
  predicate OptionsDistinct(rp: seq<seq<set<int>>>, rows: nat, w: nat)
  {
    forall r :: 0 <= r < rows && r < |rp| ==> Distinct(rp[r]) && OptionsInRange(rp[r], w)
  }

  predicate OptionsInRange(opts: seq<set<int>>, w: nat)
  {
    forall i, x :: 0 <= i < |opts| && x in opts[i] ==> 0 <= x < w
  }

  /** When each row's options differ, the search never accepts the same grid twice. */
  lemma {:induction false} ExploreDistinct(p: Instance, rp: seq<seq<set<int>>>, g: Grid, rowIdx: nat)
    requires SearchFits(p, rp, g) && rowIdx <= |p.board| && OptionsDistinct(rp, |p.board|, Width(p))
    ensures Distinct(Explore(p, rp, g, rowIdx))
    decreases |p.board| - rowIdx, 1, 0
  {
    if rowIdx < |p.board| {
      ExploreOptionsDistinct(p, rp, g, rowIdx, rp[rowIdx]);
    }
  }

  lemma {:induction false} ExploreOptionsDistinct(p: Instance, rp: seq<seq<set<int>>>, g: Grid, rowIdx: nat, opts: seq<set<int>>)
    requires SearchFits(p, rp, g) && rowIdx < |p.board| && OptionsDistinct(rp, |p.board|, Width(p))
    requires Distinct(opts) && OptionsInRange(opts, Width(p))
    ensures Distinct(ExploreOptions(p, rp, g, rowIdx, opts))
    decreases |p.board| - rowIdx, 0, |opts|
  {
    if |opts| > 0 {
      var front := opts[..|opts| - 1];
      var next := g[rowIdx := Indicator(opts[|opts| - 1], Width(p))];
      ExploreOptionsDistinct(p, rp, g, rowIdx, front);
      DeeperDistinct(p, rp, g, rowIdx, opts);
      DistinctConcat(ExploreOptions(p, rp, g, rowIdx, front), Deeper(p, rp, next, rowIdx));
    }
  }

  /** What the last option adds has no repeats and nothing in common with what
      the earlier options found. */
  lemma {:induction false} DeeperDistinct(p: Instance, rp: seq<seq<set<int>>>, g: Grid, rowIdx: nat, opts: seq<set<int>>)
    requires SearchFits(p, rp, g) && rowIdx < |p.board| && OptionsDistinct(rp, |p.board|, Width(p))
    requires |opts| > 0 && Distinct(opts) && OptionsInRange(opts, Width(p))
    ensures Distinct(Deeper(p, rp, g[rowIdx := Indicator(opts[|opts| - 1], Width(p))], rowIdx))
    ensures var earlier := ExploreOptions(p, rp, g, rowIdx, opts[..|opts| - 1]);
            var later := Deeper(p, rp, g[rowIdx := Indicator(opts[|opts| - 1], Width(p))], rowIdx);
            forall y :: y in earlier ==> y !in later
    decreases |p.board| - rowIdx, 0, 0
  {
    var next := g[rowIdx := Indicator(opts[|opts| - 1], Width(p))];
    if IsPartialValidColumns(next, rowIdx, p.board, p.targetCols, p.op) {
      ExploreDistinct(p, rp, next, rowIdx + 1);
      EarlierAndLaterDisjoint(p, rp, g, rowIdx, opts);
    }
  }

  /** The grids found before the last option is tried differ from those found after. */
  lemma EarlierAndLaterDisjoint(p: Instance, rp: seq<seq<set<int>>>, g: Grid, rowIdx: nat, opts: seq<set<int>>)
    requires SearchFits(p, rp, g) && rowIdx < |p.board| && |opts| > 0
    requires Distinct(opts) && OptionsInRange(opts, Width(p))
    ensures var earlier := ExploreOptions(p, rp, g, rowIdx, opts[..|opts| - 1]);
            var later := Explore(p, rp, g[rowIdx := Indicator(opts[|opts| - 1], Width(p))], rowIdx + 1);
            forall y :: y in earlier ==> y !in later
  {
    var next := g[rowIdx := Indicator(opts[|opts| - 1], Width(p))];
    var earlier := ExploreOptions(p, rp, g, rowIdx, opts[..|opts| - 1]);
    forall y | y in earlier
      ensures y !in Explore(p, rp, next, rowIdx + 1)
    {
      EarlierRowDiffers(p, rp, g, rowIdx, opts, y);
      if y in Explore(p, rp, next, rowIdx + 1) {
        ExploreSound(p, rp, next, rowIdx + 1, y);
        assert false;
      }
    }
  }

  /** A grid reached while trying the options before the last one differs from the
      last option's row in row `rowIdx`. */
  lemma EarlierRowDiffers(p: Instance, rp: seq<seq<set<int>>>, g: Grid, rowIdx: nat, opts: seq<set<int>>, y: Grid)
    requires SearchFits(p, rp, g) && rowIdx < |p.board| && |opts| > 0
    requires Distinct(opts) && OptionsInRange(opts, Width(p))
    requires y in ExploreOptions(p, rp, g, rowIdx, opts[..|opts| - 1])
    ensures |y| > rowIdx && y[rowIdx] != Indicator(opts[|opts| - 1], Width(p))
  {
    var w := Width(p);
    var front := opts[..|opts| - 1];
    var last := opts[|opts| - 1];
    ExploreOptionsSound(p, rp, g, rowIdx, front, y);
    var i :| 0 <= i < |front| && y[rowIdx] == Indicator(front[i], w);
    assert front[i] == opts[i];
    IndicatorInjective(front[i], last, w);
  }

  // ---------------------------------------------------------------------------
  // The search over find_matching_subsets, from the empty grid
  // ---------------------------------------------------------------------------

  /** `[find_matching_subsets(row, target, op) for row, target in zip(board, target_rows)]` */
  function RowPossibilities(p: Instance): (rp: seq<seq<set<int>>>)
    requires WellFormed(p)
    ensures |rp| == |p.board|
  {
    seq(|p.board|, r requires 0 <= r < |p.board| => MatchingSubsets(p.board[r], p.targetRows[r], p.op))
  }

  /** The list comprehension that builds `row_possibilities`: one call of
      `find_matching_subsets` per row, with that row's target. */
  method BuildRowPossibilities(p: Instance) returns (rp: seq<seq<set<int>>>)
    requires WellFormed(p)
    ensures rp == RowPossibilities(p)
  {
    rp := [];
    var r := 0;
    while r < |p.board|
      invariant 0 <= r <= |p.board| && |rp| == r
      invariant forall i :: 0 <= i < r ==> rp[i] == MatchingSubsets(p.board[i], p.targetRows[i], p.op)
    {
      var options := FindMatchingSubsets(p.board[r], p.targetRows[r], p.op);
      rp := rp + [options];
      r := r + 1;
    }
  }

  /** The early exit of the entry points: some row has no option at all. */
  method HasEmptyRow(rp: seq<seq<set<int>>>) returns (empty: bool)
    ensures empty <==> exists r :: 0 <= r < |rp| && |rp[r]| == 0
  {
    var r := 0;
    while r < |rp|
      invariant 0 <= r <= |rp|
      invariant forall i :: 0 <= i < r ==> |rp[i]| > 0
    {
      if |rp[r]| == 0 {
        return true;
      }
      r := r + 1;
    }
    return false;
  }

  /** `[[0] * len(board[0]) for _ in range(len(board))]` */
  function EmptyGrid(rows: nat, cols: nat): (g: Grid)
    ensures Shaped(g, rows, cols)
  {
    seq(rows, _ => Zeros(cols))
  }

  /** The grids the search from the empty grid accepts, in the order it reaches
      them: what every entry point collects. */
  function Accepted(p: Instance): seq<Grid>
    requires WellFormed(p)
  {
    Explore(p, RowPossibilities(p), EmptyGrid(|p.board|, Width(p)), 0)
  }

  /** A solution of the puzzle: a 0/1 grid of the board's shape whose every row
      has marks whose values reduce to the row target, and whose every column has
      marks whose values reduce to the column target. */
  predicate IsSolution(p: Instance, x: Grid)
    requires WellFormed(p)
  {
    Shaped(x, |p.board|, Width(p)) &&
    (forall r :: 0 <= r < |p.board| ==>
       IsMask(x[r]) && MeetsTarget(p.op, Picked(p.board[r], x[r], 0), p.targetRows[r])) &&
    (forall col :: 0 <= col < Width(p) ==>
       MeetsTarget(p.op, ColumnMarked(x, p.board, col, |p.board|), p.targetCols[col]))
  }

  /** A row is one the search can place in row `r` exactly when it is a 0/1 row of
      the board's width whose marked values reduce to the row target. */
  lemma OptionRowIffRowMatches(p: Instance, r: nat, row: seq<int>)
    requires WellFormed(p) && r < |p.board|
    ensures IsOptionRow(row, RowPossibilities(p)[r], Width(p)) <==>
              |row| == Width(p) && IsMask(row) && MeetsTarget(p.op, Picked(p.board[r], row, 0), p.targetRows[r])
  {
    var values := p.board[r];
    var opts := RowPossibilities(p)[r];
    var w := Width(p);
    assert |values| == w;
    MatchingSubsetsExact(values, p.targetRows[r], p.op);
    if IsOptionRow(row, opts, w) {
      var i :| 0 <= i < |opts| && row == Indicator(opts[i], w);
      assert opts[i] in opts;
    }
    if |row| == w && IsMask(row) && MeetsTarget(p.op, Picked(values, row, 0), p.targetRows[r]) {
      var s := MarkedSet(row);
      MaskIsIndicator(row);
      assert IsMatchingSubset(values, p.targetRows[r], p.op, s);
      var i :| 0 <= i < |opts| && opts[i] == s;
      assert row == Indicator(opts[i], w);
    }
  }

  /** The options `find_matching_subsets` produces have no repeats and stay inside
      the row. */
  lemma RowPossibilitiesDistinct(p: Instance)
    requires WellFormed(p)
    ensures OptionsDistinct(RowPossibilities(p), |p.board|, Width(p))
  {
    var rp := RowPossibilities(p);
    forall r | 0 <= r < |p.board|
      ensures Distinct(rp[r]) && OptionsInRange(rp[r], Width(p))
    {
      var values := p.board[r];
      MatchingSubsetsDistinctBySize(values, p.targetRows[r], p.op, |values|);
      forall i, x | 0 <= i < |rp[r]| && x in rp[r][i]
        ensures 0 <= x < Width(p)
      {
        MatchingSubsetsSound(values, p.targetRows[r], p.op, rp[r][i]);
      }
    }
  }

  /** Every grid the search accepts from the empty grid is a solution. */
  lemma SearchSound(p: Instance, x: Grid)
    requires WellFormed(p)
    requires x in Accepted(p)
    ensures IsSolution(p, x)
  {
    ExploreSound(p, RowPossibilities(p), EmptyGrid(|p.board|, Width(p)), 0, x);
    forall r | 0 <= r < |p.board|
      ensures IsMask(x[r]) && MeetsTarget(p.op, Picked(p.board[r], x[r], 0), p.targetRows[r])
    {
      OptionRowIffRowMatches(p, r, x[r]);
    }
  }

  /** On a board of positive values the search from the empty grid accepts exactly
      the solutions, each of them once. */
  lemma SearchExact(p: Instance)
    requires WellFormed(p)
    ensures PositiveBoard(p.board) ==>
              Distinct(Accepted(p)) && forall x :: x in Accepted(p) <==> IsSolution(p, x)
  {
    if PositiveBoard(p.board) {
      var rp := RowPossibilities(p);
      var g := EmptyGrid(|p.board|, Width(p));
      forall x
        ensures x in Explore(p, rp, g, 0) <==> IsSolution(p, x)
      {
        if x in Explore(p, rp, g, 0) {
          SearchSound(p, x);
        }
        if IsSolution(p, x) {
          forall r | 0 <= r < |p.board|
            ensures IsOptionRow(x[r], rp[r], Width(p))
          {
            OptionRowIffRowMatches(p, r, x[r]);
          }
          ExploreComplete(p, rp, g, 0, x);
        }
      }
      RowPossibilitiesDistinct(p);
      ExploreDistinct(p, rp, g, 0);
    }
  }

  // ---------------------------------------------------------------------------
  // The strict `<` update
  // ---------------------------------------------------------------------------

  /** `sols[k]` has the fewest marks of all grids in `sols`, and every grid before
      it has more. */
  predicate FirstMinimal(sols: seq<Grid>, k: int)
  {
    0 <= k < |sols| &&
    (forall i :: 0 <= i < |sols| ==> CountMarked(sols[k]) <= CountMarked(sols[i])) &&
    (forall i :: 0 <= i < k ==> CountMarked(sols[k]) < CountMarked(sols[i]))
  }

  /** What `best_solution` holds after the grids `sols`: unchanged when no grid
      beats the initial bound; otherwise the first grid of minimal mark count, with
      that count. */
  lemma {:induction false} MinPickFirstMinimal(b: Best, sols: seq<Grid>) returns (k: int)
    ensures -1 <= k < |sols|
    ensures k == -1 ==>
              MinPick(b, sols) == b &&
              forall i :: 0 <= i < |sols| ==> !Below(CountMarked(sols[i]), b.marked)
    ensures 0 <= k ==>
              MinPick(b, sols) == Best(Finite(CountMarked(sols[k])), Some(sols[k])) &&
              Below(CountMarked(sols[k]), b.marked) &&
              (forall i :: 0 <= i < |sols| ==> CountMarked(sols[k]) <= CountMarked(sols[i])) &&
              (forall i :: 0 <= i < k ==> CountMarked(sols[k]) < CountMarked(sols[i]))
    decreases |sols|
  {
    if |sols| == 0 {
      k := -1;
    } else {
      var n := |sols| - 1;
      var front := sols[..n];
      var m := CountMarked(sols[n]);
      var k' := MinPickFirstMinimal(b, front);
      assert forall i :: 0 <= i < n ==> front[i] == sols[i];
      if k' == -1 {
        k := if Below(m, b.marked) then n else -1;
      } else if m < CountMarked(sols[k']) {
        k := n;
      } else {
        k := k';
      }
    }
  }

  /** Starting from `float("inf")`, a non-empty run of grids leaves the first grid
      of minimal mark count in `best_solution`. */
  lemma MinPickFromInfinite(sols: seq<Grid>) returns (k: nat)
    requires |sols| > 0
    ensures FirstMinimal(sols, k)
    ensures MinPick(Best(Infinite, None), sols) == Best(Finite(CountMarked(sols[k])), Some(sols[k]))
  {
    var j := MinPickFirstMinimal(Best(Infinite, None), sols);
    if j == -1 {
      assert false;
    }
    k := j;
  }
}
