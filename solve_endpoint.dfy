/** The `/solve` endpoint of backend/main.py: one search from the empty grid that
    both keeps the first grid of fewest marks and collects every grid it accepts. */
module SolveEndpoint {
  import opened Puzzle
  import opened CoreLogic
  import opened SearchTheory

  /** The dictionary `solve_puzzle` returns. */
  datatype SolveResponse = SolveResponse(solution: Option<Grid>, markedCount: int, allSolutions: seq<Grid>)

  /** The instance a request describes. */
  function RequestInstance(board: Grid, targetRows: seq<int>, targetCols: seq<int>, operation: string): Instance
  {
    Instance(board, targetRows, targetCols, OpOf(operation))
  }

  /** `solve_puzzle(req)`: every accepted grid, and the first one of fewest marks
      with its mark count; an empty answer when nothing is accepted. */
  method SolvePuzzle(board: Grid, targetRows: seq<int>, targetCols: seq<int>, operation: string)
    returns (response: SolveResponse)
    requires WellFormed(RequestInstance(board, targetRows, targetCols, operation))
    ensures response.allSolutions == Accepted(RequestInstance(board, targetRows, targetCols, operation))
    ensures |response.allSolutions| == 0 ==> response == SolveResponse(None, 0, [])
    ensures |response.allSolutions| > 0 ==>
              exists k :: FirstMinimal(response.allSolutions, k) &&
                          response.solution == Some(response.allSolutions[k]) &&
                          response.markedCount == CountMarked(response.allSolutions[k])
    ensures PositiveBoard(board) ==>
              Distinct(response.allSolutions) &&
              forall x :: x in response.allSolutions <==>
                IsSolution(RequestInstance(board, targetRows, targetCols, operation), x)
  {
    var p := RequestInstance(board, targetRows, targetCols, operation);
    var rowPossibilities := BuildRowPossibilities(p);
    var grid := new seq<int>[|board|](_ => Zeros(|board[0]|));
    assert grid[..] == EmptyGrid(|p.board|, Width(p));
    var best := new BestSolution(Infinite);
    var found := new SolutionList();
    SolveAndCollect(grid, 0, p, rowPossibilities, best, found);
    SearchExact(p);
    if |found.items| == 0 {
      return SolveResponse(None, 0, []);
    }
    var k := MinPickFromInfinite(found.items);
    response := SolveResponse(best.solution, best.marked.n, found.items);
  }

  /** The nested `solve_and_collect(grid, row_idx)`: rows from `rowIdx` on are
      still zero; the grid is given back as it came, `best_solution` has seen every
      grid the search accepts, and `all_solutions` has gained them, in depth-first
      order. */
  method SolveAndCollect(grid: array<seq<int>>, rowIdx: nat, p: Instance, rowPossibilities: seq<seq<set<int>>>,
                         best: BestSolution, found: SolutionList)
    requires SearchFits(p, rowPossibilities, grid[..]) && rowIdx <= |p.board|
    requires forall r :: rowIdx <= r < grid.Length ==> grid[r] == Zeros(Width(p))
    modifies grid, best, found
    ensures grid[..] == old(grid[..])
    ensures best.State() == MinPick(old(best.State()), Explore(p, rowPossibilities, old(grid[..]), rowIdx))
    ensures found.items == old(found.items) + Explore(p, rowPossibilities, old(grid[..]), rowIdx)
    decreases |p.board| - rowIdx, 1
  {
    var w := Width(p);
    if rowIdx == |p.board| {
      CollectLeaf(grid, p, rowPossibilities, best, found);
      return;
    }
    ghost var g0 := grid[..];
    ghost var start := found.items;
    ghost var initial := best.State();
    var options := rowPossibilities[rowIdx];
    var k := 0;
    while k < |options|
      invariant 0 <= k <= |options|
      invariant grid[..] == g0[rowIdx := grid[rowIdx]] && |grid[rowIdx]| == w
      invariant best.State() == MinPick(initial, ExploreOptions(p, rowPossibilities, g0, rowIdx, options[..k]))
      invariant found.items == start + ExploreOptions(p, rowPossibilities, g0, rowIdx, options[..k])
    {
      ghost var collected := found.items;
      ghost var before := best.State();
      TryCollectOption(grid, rowIdx, p, rowPossibilities, options[k], best, found);
      assert grid[..] == g0[rowIdx := Indicator(options[k], w)];
      ExploreOptionsStep(p, rowPossibilities, g0, rowIdx, options, k);
      CollectStep(initial, start, before, collected, best.State(), found.items,
                  ExploreOptions(p, rowPossibilities, g0, rowIdx, options[..k]),
                  Deeper(p, rowPossibilities, grid[..], rowIdx));
      k := k + 1;
    }
    assert options[..k] == options;
    assert Explore(p, rowPossibilities, g0, rowIdx) == ExploreOptions(p, rowPossibilities, g0, rowIdx, options);
    grid[rowIdx] := Zeros(w);
    assert grid[..] == g0;
  }

  /** The bottom of `solve_and_collect`: a complete grid that passes the column
      check reaches the strict `<` update and is appended to `all_solutions`. */
  method CollectLeaf(grid: array<seq<int>>, p: Instance, rowPossibilities: seq<seq<set<int>>>,
                     best: BestSolution, found: SolutionList)
    requires SearchFits(p, rowPossibilities, grid[..])
    modifies best, found
    ensures best.State() == MinPick(old(best.State()), Explore(p, rowPossibilities, grid[..], |p.board|))
    ensures found.items == old(found.items) + Explore(p, rowPossibilities, grid[..], |p.board|)
  {
      ExploreLeaf(p, rowPossibilities, grid[..], best.State());
      if IsValidColumns(grid[..], p.board, p.targetCols, p.op) {
        var marked := CountMarked(grid[..]);
        if Below(marked, best.marked) {
          best.marked := Finite(marked);
          best.solution := Some(grid[..]);
        }
        found.Append(grid[..]);
      }
  }

  /** Both accumulators after one more run of accepted grids. */
  lemma CollectStep(initial: Best, start: seq<Grid>, bestBefore: Best, foundBefore: seq<Grid>,
                    bestAfter: Best, foundAfter: seq<Grid>, earlier: seq<Grid>, added: seq<Grid>)
    requires bestBefore == MinPick(initial, earlier) && foundBefore == start + earlier
    requires bestAfter == MinPick(bestBefore, added) && foundAfter == foundBefore + added
    ensures bestAfter == MinPick(initial, earlier + added) && foundAfter == start + (earlier + added)
  {
    MinPickAppend(initial, earlier, added);
  }

  /** One turn of the loop over `row_possibilities[row_idx]`: place the option's
      0/1 row, and search the rows below when the pruning check passes. */
  method TryCollectOption(grid: array<seq<int>>, rowIdx: nat, p: Instance, rowPossibilities: seq<seq<set<int>>>,
                          option: set<int>, best: BestSolution, found: SolutionList)
    requires SearchFits(p, rowPossibilities, grid[..]) && rowIdx < |p.board|
    requires forall r :: rowIdx < r < grid.Length ==> grid[r] == Zeros(Width(p))
    modifies grid, best, found
    ensures grid[..] == old(grid[..])[rowIdx := Indicator(option, Width(p))]
    ensures best.State() == MinPick(old(best.State()), Deeper(p, rowPossibilities, grid[..], rowIdx))
    ensures found.items == old(found.items) + Deeper(p, rowPossibilities, grid[..], rowIdx)
    decreases |p.board| - rowIdx, 0
  {
    grid[rowIdx] := Indicator(option, Width(p));
    if IsPartialValidColumns(grid[..], rowIdx, p.board, p.targetCols, p.op) {
      SolveAndCollect(grid, rowIdx + 1, p, rowPossibilities, best, found);
    }
  }

  /** The search writes rows as wide as row 0, and the column check reads only the
      columns of row 0, so a row longer than row 0 loses its later marks without
      being rejected. On the board `[[1, 2], [3, 4, 5]]` with `+`, row targets
      `[3, 8]` and column targets `[4, 2]`: row 0's subset `{0, 1}` and row 1's
      subset `{0, 2}` match their targets, they become the rows `[1, 1]` and
      `[1, 0]`, both prefixes pass the pruning check and the whole grid passes the
      column check, although the marks left in row 1 pick only the value 3. */
  lemma RaggedBoardAccepted()
    ensures IsMatchingSubset([1, 2], 3, Add, {0, 1}) && Indicator({0, 1}, 2) == [1, 1]
    ensures IsMatchingSubset([3, 4, 5], 8, Add, {0, 2}) && Indicator({0, 2}, 2) == [1, 0]
    ensures IsPartialValidColumns([[1, 1], [0, 0]], 0, [[1, 2], [3, 4, 5]], [4, 2], Add)
    ensures IsPartialValidColumns([[1, 1], [1, 0]], 1, [[1, 2], [3, 4, 5]], [4, 2], Add)
    ensures IsValidColumns([[1, 1], [1, 0]], [[1, 2], [3, 4, 5]], [4, 2], Add)
    ensures MarkedSet([1, 0]) == {0} && !IsMatchingSubset([3, 4, 5], 8, Add, {0})
  {
    assert Indicator({0, 1}, 2) == [1, 1];
    assert Indicator({0, 2}, 3) == [1, 0, 1];
    assert Indicator({0, 2}, 2) == [1, 0];
    assert Indicator({0}, 3) == [1, 0, 0];
    assert MarkedSet([1, 0]) == {0} by {
      forall j | j in MarkedSet([1, 0]) ensures j == 0 { }
    }
  }
}
