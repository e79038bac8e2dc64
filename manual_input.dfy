/** backend/manual_input.py: validation of a hand-entered 5x5 puzzle, the search
    for all its solutions, the choice of the optimal one, and solution statistics.
    Error messages are tagged descriptors with 0-based row, column and target
    indices. */
module ManualInput {
  import opened Puzzle
  import opened Combinations
  import opened CoreLogic
  import opened SearchTheory

  // ---------------------------------------------------------------------------
  // validate_manual_input
  // ---------------------------------------------------------------------------

  /** Which list of targets an error is about. */
  datatype Line = RowTarget | ColumnTarget

  /** One entry of the `errors` list. */
  datatype ValidationError =
    | BoardSize
    | RowSize(row: int)
    | TargetCount(line: Line)
    | UnknownOperation
    | CellOutOfRange(row: int, col: int, low: int, high: int)
    | TargetNotPositive(line: Line, index: int)
    | TargetTooHigh(line: Line, index: int, target: int, limit: int)
    | TargetTooLow(line: Line, index: int, target: int, limit: int)
    | NoSolution

  /** The side of a hand-entered board. */
  const Side := 5

  /** `reduce(operator.mul, [9] * 5)`: the largest product a row or column can reach. */
  function MaxProduct(): (m: int)
    ensures m == 59049
  {
    assert [9, 9][..1] == [9];
    assert [9, 9, 9][..2] == [9, 9];
    assert [9, 9, 9, 9][..3] == [9, 9, 9];
    assert [9, 9, 9, 9, 9][..4] == [9, 9, 9, 9];
    Aggregate(Mul, [9, 9, 9, 9, 9])
  }

  /** The smallest cell value allowed: `range(1, 10)` for `"+"`, `range(2, 10)` otherwise. */
  function CellLow(operation: string): int
  {
    if operation == "+" then 1 else 2
  }

  /** The largest target allowed: 9^5 for `"*"`, 9 * 5 otherwise. */
  function MaxTarget(operation: string): int
  {
    if operation == "*" then MaxProduct() else 9 * Side
  }

  /** The smallest target allowed: `reduce(operator.mul, [2] * 1)` for `"*"`, 1 otherwise. */
  function MinTarget(operation: string): int
  {
    if operation == "*" then Aggregate(Mul, [2]) else 1
  }

  /** The first row at or after `i` that does not hold 5 numbers. */
  function FirstWrongRow(board: Grid, i: nat): (r: Option<nat>)
    requires i <= |board|
    ensures r.Some? ==> i <= r.value < |board| && |board[r.value]| != Side &&
                        forall k :: i <= k < r.value ==> |board[k]| == Side
    ensures r.None? ==> forall k :: i <= k < |board| ==> |board[k]| == Side
    decreases |board| - i
  {
    if i == |board| then None
    else if |board[i]| != Side then Some(i)
    else FirstWrongRow(board, i + 1)
  }

  /** The one error the structure checks stop at, if any: board size, then row
      sizes in order, then the two target counts, then the operation. */
  function ShapeError(board: Grid, targetRows: seq<int>, targetCols: seq<int>, operation: string): Option<ValidationError>
  {
    if |board| != Side then Some(BoardSize)
    else if FirstWrongRow(board, 0).Some? then Some(RowSize(FirstWrongRow(board, 0).value))
    else if |targetRows| != Side then Some(TargetCount(RowTarget))
    else if |targetCols| != Side then Some(TargetCount(ColumnTarget))
    else if operation != "*" && operation != "+" then Some(UnknownOperation)
    else None
  }

  /** The cell errors of the first `j` values of row `i`. */
  function RowCellErrors(row: seq<int>, i: int, low: int, j: nat): seq<ValidationError>
    requires j <= |row|
    decreases j
  {
    if j == 0 then []
    else
      RowCellErrors(row, i, low, j - 1)
        + (if low <= row[j - 1] <= 9 then [] else [CellOutOfRange(i, j - 1, low, 9)])
  }

  /** The cell errors of the first `i` rows, row by row. */
  function CellErrors(board: Grid, low: int, i: nat): seq<ValidationError>
    requires i <= |board|
    decreases i
  {
    if i == 0 then []
    else CellErrors(board, low, i - 1) + RowCellErrors(board[i - 1], i - 1, low, |board[i - 1]|)
  }

  /** The sign errors of the first `k` targets of one list. */
  function SignErrors(targets: seq<int>, line: Line, k: nat): seq<ValidationError>
    requires k <= |targets|
    decreases k
  {
    if k == 0 then []
    else SignErrors(targets, line, k - 1) + (if targets[k - 1] <= 0 then [TargetNotPositive(line, k - 1)] else [])
  }

  /** The range errors of the first `k` targets of one list: too high, or else too low. */
  function RangeErrors(targets: seq<int>, line: Line, low: int, high: int, k: nat): seq<ValidationError>
    requires k <= |targets|
    decreases k
  {
    if k == 0 then []
    else
      var t := targets[k - 1];
      RangeErrors(targets, line, low, high, k - 1)
        + (if t > high then [TargetTooHigh(line, k - 1, t, high)]
           else if t < low then [TargetTooLow(line, k - 1, t, low)]
           else [])
  }

  /** The `errors` list `validate_manual_input` returns. */
  function ValidationErrors(board: Grid, targetRows: seq<int>, targetCols: seq<int>, operation: string): seq<ValidationError>
  {
    match ShapeError(board, targetRows, targetCols, operation)
    case Some(e) => [e]
    case None =>
      var low := CellLow(operation);
      var minT := MinTarget(operation);
      var maxT := MaxTarget(operation);
      CellErrors(board, low, |board|)
        + SignErrors(targetRows, RowTarget, |targetRows|) + SignErrors(targetCols, ColumnTarget, |targetCols|)
        + RangeErrors(targetRows, RowTarget, minT, maxT, |targetRows|)
        + RangeErrors(targetCols, ColumnTarget, minT, maxT, |targetCols|)
  }

  /** `validate_manual_input(board, target_rows, target_cols, operation)`. */
  method ValidateManualInput(board: Grid, targetRows: seq<int>, targetCols: seq<int>, operation: string)
    returns (valid: bool, errors: seq<ValidationError>)
    ensures errors == ValidationErrors(board, targetRows, targetCols, operation)
    ensures valid <==> |errors| == 0
    ensures valid <==> Acceptable(board, targetRows, targetCols, operation)
  {
    ValidIffAcceptable(board, targetRows, targetCols, operation);
    errors := [];
    if |board| != Side {
      errors := errors + [BoardSize];
      return false, errors;
    }
    var i := 0;
    while i < |board|
      invariant 0 <= i <= |board|
      invariant forall k :: 0 <= k < i ==> |board[k]| == Side
    {
      if |board[i]| != Side {
        errors := errors + [RowSize(i)];
        assert FirstWrongRow(board, 0) == Some(i);
        return false, errors;
      }
      i := i + 1;
    }
    assert FirstWrongRow(board, 0) == None;
    if |targetRows| != Side {
      errors := errors + [TargetCount(RowTarget)];
      return false, errors;
    }
    if |targetCols| != Side {
      errors := errors + [TargetCount(ColumnTarget)];
      return false, errors;
    }
    if operation != "*" && operation != "+" {
      errors := errors + [UnknownOperation];
      return false, errors;
    }
    var low := CellLow(operation);
    errors := AppendCellErrors(board, low);
    errors := AppendSignErrors(errors, targetRows, RowTarget);
    errors := AppendSignErrors(errors, targetCols, ColumnTarget);
    var maxT := MaxTarget(operation);
    var minT := MinTarget(operation);
    errors := AppendRangeErrors(errors, targetRows, RowTarget, minT, maxT);
    errors := AppendRangeErrors(errors, targetCols, ColumnTarget, minT, maxT);
    valid := |errors| == 0;
  }

  /** The nested loop over the cells. */
  method AppendCellErrors(board: Grid, low: int) returns (errors: seq<ValidationError>)
    ensures errors == CellErrors(board, low, |board|)
  {
    errors := [];
    var i := 0;
    while i < |board|
      invariant 0 <= i <= |board|
      invariant errors == CellErrors(board, low, i)
    {
      var row := board[i];
      ghost var before := errors;
      var j := 0;
      while j < |row|
        invariant 0 <= j <= |row|
        invariant errors == before + RowCellErrors(row, i, low, j)
      {
        if !(low <= row[j] <= 9) {
          errors := errors + [CellOutOfRange(i, j, low, 9)];
        }
        j := j + 1;
      }
      i := i + 1;
    }
  }

  /** One loop over a target list, for the sign check. */
  method AppendSignErrors(init: seq<ValidationError>, targets: seq<int>, line: Line) returns (errors: seq<ValidationError>)
    ensures errors == init + SignErrors(targets, line, |targets|)
  {
    errors := init;
    var k := 0;
    while k < |targets|
      invariant 0 <= k <= |targets|
      invariant errors == init + SignErrors(targets, line, k)
    {
      if targets[k] <= 0 {
        errors := errors + [TargetNotPositive(line, k)];
      }
      k := k + 1;
    }
  }

  /** One loop over a target list, for the range check. */
  method AppendRangeErrors(init: seq<ValidationError>, targets: seq<int>, line: Line, low: int, high: int)
    returns (errors: seq<ValidationError>)
    ensures errors == init + RangeErrors(targets, line, low, high, |targets|)
  {
    errors := init;
    var k := 0;
    while k < |targets|
      invariant 0 <= k <= |targets|
      invariant errors == init + RangeErrors(targets, line, low, high, k)
    {
      var t := targets[k];
      if t > high {
        errors := errors + [TargetTooHigh(line, k, t, high)];
      } else if t < low {
        errors := errors + [TargetTooLow(line, k, t, low)];
      }
      k := k + 1;
    }
  }

  /** The input `validate_manual_input` accepts, stated without the error list: a
      5x5 board, five targets per side, `"*"` or `"+"`, every cell in `1..9` (`+`)
      or `2..9` (`*`), and every target between the smallest and largest reachable
      value. */
  predicate Acceptable(board: Grid, targetRows: seq<int>, targetCols: seq<int>, operation: string)
  {
    |board| == Side && (forall i :: 0 <= i < Side ==> |board[i]| == Side) &&
    |targetRows| == Side && |targetCols| == Side && (operation == "*" || operation == "+") &&
    (forall i, j :: 0 <= i < Side && 0 <= j < Side ==> CellLow(operation) <= board[i][j] <= 9) &&
    (forall k :: 0 <= k < Side ==> MinTarget(operation) <= targetRows[k] <= MaxTarget(operation)) &&
    (forall k :: 0 <= k < Side ==> MinTarget(operation) <= targetCols[k] <= MaxTarget(operation))
  }

  /** A structural error is the only error reported. */
  lemma ShapeErrorShortCircuits(board: Grid, targetRows: seq<int>, targetCols: seq<int>, operation: string)
    requires ShapeError(board, targetRows, targetCols, operation).Some?
    ensures ValidationErrors(board, targetRows, targetCols, operation)
         == [ShapeError(board, targetRows, targetCols, operation).value]
    ensures |board| != Side ==> ValidationErrors(board, targetRows, targetCols, operation) == [BoardSize]
  {
  }

  /** Row `i`'s cell errors name exactly its out-of-range values, each once. */
  lemma {:induction false} RowCellErrorsExact(row: seq<int>, i: int, low: int, j: nat)
    requires j <= |row|
    ensures forall e :: e in RowCellErrors(row, i, low, j) <==>
              e.CellOutOfRange? && e.row == i && 0 <= e.col < j && e.low == low && e.high == 9 &&
              !(low <= row[e.col] <= 9)
    ensures Distinct(RowCellErrors(row, i, low, j))
    decreases j
  {
    if j > 0 {
      RowCellErrorsExact(row, i, low, j - 1);
      var added := if low <= row[j - 1] <= 9 then [] else [CellOutOfRange(i, j - 1, low, 9)];
      DistinctConcat(RowCellErrors(row, i, low, j - 1), added);
    }
  }

  /** The cell errors name exactly the cells outside the allowed range, each once,
      with no early exit. */
  lemma {:induction false} CellErrorsExact(board: Grid, low: int, i: nat)
    requires i <= |board|
    ensures forall e :: e in CellErrors(board, low, i) <==>
              e.CellOutOfRange? && 0 <= e.row < i && 0 <= e.col < |board[e.row]| &&
              e.low == low && e.high == 9 && !(low <= board[e.row][e.col] <= 9)
    ensures Distinct(CellErrors(board, low, i))
    decreases i
  {
    if i > 0 {
      CellErrorsExact(board, low, i - 1);
      RowCellErrorsExact(board[i - 1], i - 1, low, |board[i - 1]|);
      DistinctConcat(CellErrors(board, low, i - 1), RowCellErrors(board[i - 1], i - 1, low, |board[i - 1]|));
    }
  }

  /** The sign errors name exactly the targets that are not positive, each once. */
  lemma {:induction false} SignErrorsExact(targets: seq<int>, line: Line, k: nat)
    requires k <= |targets|
    ensures forall e :: e in SignErrors(targets, line, k) <==>
              e.TargetNotPositive? && e.line == line && 0 <= e.index < k && targets[e.index] <= 0
    ensures Distinct(SignErrors(targets, line, k))
    decreases k
  {
    if k > 0 {
      SignErrorsExact(targets, line, k - 1);
      var added := if targets[k - 1] <= 0 then [TargetNotPositive(line, k - 1)] else [];
      DistinctConcat(SignErrors(targets, line, k - 1), added);
    }
  }

  /** The range errors name exactly the targets above `high` (as too high) and the
      others below `low` (as too low), each once. */
  lemma {:induction false} RangeErrorsExact(targets: seq<int>, line: Line, low: int, high: int, k: nat)
    requires k <= |targets|
    ensures forall e :: e in RangeErrors(targets, line, low, high, k) <==>
              (e.TargetTooHigh? && e.line == line && 0 <= e.index < k && e.target == targets[e.index] &&
               e.limit == high && targets[e.index] > high) ||
              (e.TargetTooLow? && e.line == line && 0 <= e.index < k && e.target == targets[e.index] &&
               e.limit == low && targets[e.index] <= high && targets[e.index] < low)
    ensures Distinct(RangeErrors(targets, line, low, high, k))
    decreases k
  {
    if k > 0 {
      RangeErrorsExact(targets, line, low, high, k - 1);
      var t := targets[k - 1];
      var added := if t > high then [TargetTooHigh(line, k - 1, t, high)]
                 else if t < low then [TargetTooLow(line, k - 1, t, low)]
                 else [];
      DistinctConcat(RangeErrors(targets, line, low, high, k - 1), added);
    }
  }

  /** `valid` is true exactly for the acceptable inputs. */
  lemma ValidIffAcceptable(board: Grid, targetRows: seq<int>, targetCols: seq<int>, operation: string)
    ensures |ValidationErrors(board, targetRows, targetCols, operation)| == 0 <==>
              Acceptable(board, targetRows, targetCols, operation)
  {
    if ShapeError(board, targetRows, targetCols, operation).None? {
      if Acceptable(board, targetRows, targetCols, operation) {
        AcceptableHasNoErrors(board, targetRows, targetCols, operation);
      } else {
        AcceptableFails(board, targetRows, targetCols, operation);
      }
    }
  }

  lemma AcceptableHasNoErrors(board: Grid, targetRows: seq<int>, targetCols: seq<int>, operation: string)
    requires Acceptable(board, targetRows, targetCols, operation)
    ensures ValidationErrors(board, targetRows, targetCols, operation) == []
  {
    var low := CellLow(operation);
    var minT := MinTarget(operation);
    var maxT := MaxTarget(operation);
    assert FirstWrongRow(board, 0).None?;
    assert ValidationErrors(board, targetRows, targetCols, operation)
        == CellErrors(board, low, |board|)
         + SignErrors(targetRows, RowTarget, |targetRows|) + SignErrors(targetCols, ColumnTarget, |targetCols|)
         + RangeErrors(targetRows, RowTarget, minT, maxT, |targetRows|)
         + RangeErrors(targetCols, ColumnTarget, minT, maxT, |targetCols|);
    CellErrorsEmpty(board, low, |board|);
    SignErrorsEmpty(targetRows, RowTarget, |targetRows|);
    SignErrorsEmpty(targetCols, ColumnTarget, |targetCols|);
    RangeErrorsEmpty(targetRows, RowTarget, minT, maxT, |targetRows|);
    RangeErrorsEmpty(targetCols, ColumnTarget, minT, maxT, |targetCols|);
  }

  lemma {:induction false} CellErrorsEmpty(board: Grid, low: int, i: nat)
    requires i <= |board|
    requires forall r, c :: 0 <= r < i && 0 <= c < |board[r]| ==> low <= board[r][c] <= 9
    ensures CellErrors(board, low, i) == []
    decreases i
  {
    if i > 0 {
      CellErrorsEmpty(board, low, i - 1);
      RowCellErrorsEmpty(board[i - 1], i - 1, low, |board[i - 1]|);
    }
  }

  lemma {:induction false} RowCellErrorsEmpty(row: seq<int>, i: int, low: int, j: nat)
    requires j <= |row|
    requires forall c :: 0 <= c < j ==> low <= row[c] <= 9
    ensures RowCellErrors(row, i, low, j) == []
    decreases j
  {
    if j > 0 {
      RowCellErrorsEmpty(row, i, low, j - 1);
    }
  }

  lemma {:induction false} SignErrorsEmpty(targets: seq<int>, line: Line, k: nat)
    requires k <= |targets|
    requires forall m :: 0 <= m < k ==> targets[m] >= 1
    ensures SignErrors(targets, line, k) == []
    decreases k
  {
    if k > 0 {
      SignErrorsEmpty(targets, line, k - 1);
    }
  }

  lemma {:induction false} RangeErrorsEmpty(targets: seq<int>, line: Line, low: int, high: int, k: nat)
    requires k <= |targets|
    requires forall m :: 0 <= m < k ==> low <= targets[m] <= high
    ensures RangeErrors(targets, line, low, high, k) == []
    decreases k
  {
    if k > 0 {
      RangeErrorsEmpty(targets, line, low, high, k - 1);
    }
  }

  /** An input that the structure checks let through but that is not acceptable
      leaves an error behind. */
  lemma AcceptableFails(board: Grid, targetRows: seq<int>, targetCols: seq<int>, operation: string)
    requires ShapeError(board, targetRows, targetCols, operation).None?
    requires !Acceptable(board, targetRows, targetCols, operation)
    ensures |ValidationErrors(board, targetRows, targetCols, operation)| > 0
  {
    var low := CellLow(operation);
    var minT := MinTarget(operation);
    var maxT := MaxTarget(operation);
    assert FirstWrongRow(board, 0).None?;
    if exists i, j :: 0 <= i < Side && 0 <= j < Side && !(low <= board[i][j] <= 9) {
      var i, j :| 0 <= i < Side && 0 <= j < Side && !(low <= board[i][j] <= 9);
      CellErrorAt(board, low, i, j, |board|);
    } else if exists k :: 0 <= k < Side && !(minT <= targetRows[k] <= maxT) {
      var k :| 0 <= k < Side && !(minT <= targetRows[k] <= maxT);
      RangeErrorAt(targetRows, RowTarget, minT, maxT, k, |targetRows|);
    } else {
      var k :| 0 <= k < Side && !(minT <= targetCols[k] <= maxT);
      RangeErrorAt(targetCols, ColumnTarget, minT, maxT, k, |targetCols|);
    }
  }

  /** A cell outside the allowed range is reported. */
  lemma {:induction false} CellErrorAt(board: Grid, low: int, i: nat, j: nat, n: nat)
    requires i < n <= |board| && j < |board[i]| && !(low <= board[i][j] <= 9)
    ensures CellOutOfRange(i, j, low, 9) in CellErrors(board, low, n)
    decreases n
  {
    if i < n - 1 {
      CellErrorAt(board, low, i, j, n - 1);
    } else {
      RowCellErrorAt(board[i], i, low, j, |board[i]|);
    }
  }

  lemma {:induction false} RowCellErrorAt(row: seq<int>, i: int, low: int, j: nat, n: nat)
    requires j < n <= |row| && !(low <= row[j] <= 9)
    ensures CellOutOfRange(i, j, low, 9) in RowCellErrors(row, i, low, n)
    decreases n
  {
    if j < n - 1 {
      RowCellErrorAt(row, i, low, j, n - 1);
    }
  }

  /** A target outside `[low, high]` is reported, as too high when it is above `high`. */
  lemma {:induction false} RangeErrorAt(targets: seq<int>, line: Line, low: int, high: int, k: nat, n: nat)
    requires k < n <= |targets| && !(low <= targets[k] <= high)
    ensures targets[k] > high ==> TargetTooHigh(line, k, targets[k], high) in RangeErrors(targets, line, low, high, n)
    ensures targets[k] <= high ==> TargetTooLow(line, k, targets[k], low) in RangeErrors(targets, line, low, high, n)
    decreases n
  {
    if k < n - 1 {
      RangeErrorAt(targets, line, low, high, k, n - 1);
    }
  }

  /** A target of 0 or less is reported by the sign check. */
  lemma {:induction false} SignErrorAt(targets: seq<int>, line: Line, k: nat, n: nat)
    requires k < n <= |targets| && targets[k] <= 0
    ensures TargetNotPositive(line, k) in SignErrors(targets, line, n)
    decreases n
  {
    if k < n - 1 {
      SignErrorAt(targets, line, k, n - 1);
    }
  }

  /** A target of 0 or less is reported twice: once by the sign check and once as
      below the smallest reachable value. */
  lemma NonPositiveRowTargetReportedTwice(board: Grid, targetRows: seq<int>, targetCols: seq<int>, operation: string, k: nat)
    requires ShapeError(board, targetRows, targetCols, operation).None?
    requires k < Side && targetRows[k] <= 0
    ensures TargetNotPositive(RowTarget, k) in ValidationErrors(board, targetRows, targetCols, operation)
    ensures TargetTooLow(RowTarget, k, targetRows[k], MinTarget(operation))
              in ValidationErrors(board, targetRows, targetCols, operation)
  {
    var minT := MinTarget(operation);
    var maxT := MaxTarget(operation);
    assert FirstWrongRow(board, 0).None?;
    SignErrorAt(targetRows, RowTarget, k, |targetRows|);
    RangeErrorAt(targetRows, RowTarget, minT, maxT, k, |targetRows|);
  }

  // ---------------------------------------------------------------------------
  // find_all_solutions
  // ---------------------------------------------------------------------------

  /** A 5x5 board with five targets on each side: what a validated input has. */
  predicate ManualShape(board: Grid, targetRows: seq<int>, targetCols: seq<int>)
  {
    |board| == Side && (forall i :: 0 <= i < Side ==> |board[i]| == Side) &&
    |targetRows| == Side && |targetCols| == Side
  }

  function ManualInstance(board: Grid, targetRows: seq<int>, targetCols: seq<int>, operation: string): (p: Instance)
    requires ManualShape(board, targetRows, targetCols)
    ensures WellFormed(p) && Width(p) == Side
  {
    Instance(board, targetRows, targetCols, OpOf(operation))
  }

  /** What `find_all_solutions` returns: the search from the empty 5x5 grid. */
  function AllSolutions(board: Grid, targetRows: seq<int>, targetCols: seq<int>, operation: string): seq<Grid>
    requires ManualShape(board, targetRows, targetCols)
  {
    Accepted(ManualInstance(board, targetRows, targetCols, operation))
  }

  /** `find_all_solutions(board, target_rows, target_cols, operation)`: the grids in
      the order the search reaches them; on a board of positive values these are
      exactly the solutions, each once. */
  method FindAllSolutions(board: Grid, targetRows: seq<int>, targetCols: seq<int>, operation: string)
    returns (all: seq<Grid>)
    requires ManualShape(board, targetRows, targetCols)
    ensures all == AllSolutions(board, targetRows, targetCols, operation)
    ensures PositiveBoard(board) ==>
              Distinct(all) &&
              forall x :: x in all <==> IsSolution(ManualInstance(board, targetRows, targetCols, operation), x)
  {
    var p := ManualInstance(board, targetRows, targetCols, operation);
    all := SearchAll(p);
    SearchExact(p);
  }

  /** The body of `find_all_solutions` once the operation is chosen: stop early
      when some row has no matching subset, otherwise search from the empty grid. */
  method SearchAll(p: Instance) returns (all: seq<Grid>)
    requires WellFormed(p)
    ensures all == Accepted(p)
  {
    var rowPossibilities := BuildRowPossibilities(p);
    var empty := HasEmptyRow(rowPossibilities);
    if empty {
      ghost var r :| 0 <= r < |rowPossibilities| && |rowPossibilities[r]| == 0;
      NoOptionsNoGrids(p, rowPossibilities, EmptyGrid(|p.board|, Width(p)), 0, r);
      return [];
    }
    var grid := new seq<int>[|p.board|](_ => Zeros(Width(p)));
    assert grid[..] == EmptyGrid(|p.board|, Width(p));
    var found := new SolutionList();
    FindSolutionsRecursive(grid, 0, p, rowPossibilities, found);
    all := found.items;
  }

  /** The nested `find_solutions_recursive(grid, row_idx)`: rows from `rowIdx` on
      are still zero; the grid is given back as it came, and `all_solutions` has
      gained every grid the search accepts, in depth-first order. */
  method FindSolutionsRecursive(grid: array<seq<int>>, rowIdx: nat, p: Instance,
                                rowPossibilities: seq<seq<set<int>>>, found: SolutionList)
    requires SearchFits(p, rowPossibilities, grid[..])
    requires rowIdx <= |p.board|
    requires forall r :: rowIdx <= r < grid.Length ==> grid[r] == Zeros(Width(p))
    modifies grid, found
    ensures grid[..] == old(grid[..])
    ensures found.items == old(found.items) + Explore(p, rowPossibilities, old(grid[..]), rowIdx)
    decreases |p.board| - rowIdx, 1
  {
    if rowIdx == |p.board| {
      FoundLeaf(grid, p, rowPossibilities, found);
      return;
    }
    var w := Width(p);
    ghost var g0 := grid[..];
    ghost var start := found.items;
    var options := rowPossibilities[rowIdx];
    var k := 0;
    while k < |options|
      invariant 0 <= k <= |options|
      invariant grid[..] == g0[rowIdx := grid[rowIdx]] && |grid[rowIdx]| == w
      invariant found.items == start + ExploreOptions(p, rowPossibilities, g0, rowIdx, options[..k])
    {
      ghost var before := found.items;
      TryManualOption(grid, rowIdx, p, rowPossibilities, options[k], found);
      assert grid[..] == g0[rowIdx := Indicator(options[k], w)];
      ExploreOptionsAppend(p, rowPossibilities, g0, rowIdx, options, k, start, before, found.items);
      k := k + 1;
    }
    assert options[..k] == options;
    assert Explore(p, rowPossibilities, g0, rowIdx) == ExploreOptions(p, rowPossibilities, g0, rowIdx, options);
    grid[rowIdx] := Zeros(w);
    assert grid[..] == g0;
  }

  /** The bottom of `find_solutions_recursive`: a complete grid that passes the
      column check is copied into `all_solutions`. */
  method FoundLeaf(grid: array<seq<int>>, p: Instance, rowPossibilities: seq<seq<set<int>>>, found: SolutionList)
    requires SearchFits(p, rowPossibilities, grid[..])
    modifies found
    ensures found.items == old(found.items) + Explore(p, rowPossibilities, grid[..], |p.board|)
  {
    ExploreLeaf(p, rowPossibilities, grid[..], Best(Infinite, None));
    if IsValidColumns(grid[..], p.board, p.targetCols, p.op) {
      found.Append(grid[..]);
    }
  }

  /** One turn of the loop over `row_possibilities[row_idx]`: place the option's
      row of five 0/1 entries, and search the rows below when the pruning check
      passes. */
  method TryManualOption(grid: array<seq<int>>, rowIdx: nat, p: Instance, rowPossibilities: seq<seq<set<int>>>,
                         option: set<int>, found: SolutionList)
    requires SearchFits(p, rowPossibilities, grid[..])
    requires rowIdx < |p.board|
    requires forall r :: rowIdx < r < grid.Length ==> grid[r] == Zeros(Width(p))
    modifies grid, found
    ensures grid[..] == old(grid[..])[rowIdx := Indicator(option, Width(p))]
    ensures found.items == old(found.items) + Deeper(p, rowPossibilities, grid[..], rowIdx)
    decreases |p.board| - rowIdx, 0
  {
    grid[rowIdx] := Indicator(option, Width(p));
    if IsPartialValidColumns(grid[..], rowIdx, p.board, p.targetCols, p.op) {
      FindSolutionsRecursive(grid, rowIdx + 1, p, rowPossibilities, found);
    }
  }

  // ---------------------------------------------------------------------------
  // solve_manual_puzzle
  // ---------------------------------------------------------------------------

  /** The dictionary `solve_manual_puzzle` returns. */
  datatype ManualResult = ManualResult(
    success: bool,
    optimalSolution: Option<Grid>,
    markedCount: int,
    totalSolutions: int,
    allSolutions: seq<Grid>,
    validationErrors: seq<ValidationError>)

  /** The result for input that fails validation. */
  function Rejected(errors: seq<ValidationError>): ManualResult
  {
    ManualResult(false, None, 0, 0, [], errors)
  }

  /** `solve_manual_puzzle(board, target_rows, target_cols, operation)`: rejected
      input reports its validation errors; a valid puzzle without a solution reports
      one error; otherwise all solutions are returned with the first one of fewest
      marks. */
  method SolveManualPuzzle(board: Grid, targetRows: seq<int>, targetCols: seq<int>, operation: string)
    returns (result: ManualResult)
    ensures !Acceptable(board, targetRows, targetCols, operation) ==>
              result == Rejected(ValidationErrors(board, targetRows, targetCols, operation)) &&
              |result.validationErrors| > 0
    ensures Acceptable(board, targetRows, targetCols, operation) ==>
              var p := ManualInstance(board, targetRows, targetCols, operation);
              var all := AllSolutions(board, targetRows, targetCols, operation);
              (forall x :: x in all <==> IsSolution(p, x)) &&
              (|all| == 0 ==> result == Rejected([NoSolution])) &&
              (|all| > 0 ==>
                 result.success && result.allSolutions == all && result.totalSolutions == |all| &&
                 result.validationErrors == [] &&
                 exists k :: FirstMinimal(all, k) && result.optimalSolution == Some(all[k]) &&
                             result.markedCount == CountMarked(all[k]))
  {
    var valid, errors := ValidateManualInput(board, targetRows, targetCols, operation);
    if !valid {
      return Rejected(errors);
    }
    AcceptablePositive(board, targetRows, targetCols, operation);
    var all := FindAllSolutions(board, targetRows, targetCols, operation);
    if |all| == 0 {
      return Rejected([NoSolution]);
    }
    var optimal, minMarked := PickOptimal(all);
    var best := MinPickFromInfinite(all);
    result := ManualResult(true, optimal, minMarked.n, |all|, all, []);
  }

  /** The loop over `all_solutions` that keeps the first solution whose mark count
      is below `min_marked`, starting from `float('inf')`. */
  method PickOptimal(all: seq<Grid>) returns (optimal: Option<Grid>, minMarked: Bound)
    ensures Best(minMarked, optimal) == MinPick(Best(Infinite, None), all)
  {
    optimal := None;
    minMarked := Infinite;
    var k := 0;
    while k < |all|
      invariant 0 <= k <= |all|
      invariant Best(minMarked, optimal) == MinPick(Best(Infinite, None), all[..k])
    {
      var marked := CountMarked(all[k]);
      if Below(marked, minMarked) {
        minMarked := Finite(marked);
        optimal := Some(all[k]);
      }
      assert all[..k + 1][..k] == all[..k];
      k := k + 1;
    }
    assert all[..k] == all;
  }

  /** Validated cells are at least 1. */
  lemma AcceptablePositive(board: Grid, targetRows: seq<int>, targetCols: seq<int>, operation: string)
    requires Acceptable(board, targetRows, targetCols, operation)
    ensures ManualShape(board, targetRows, targetCols) && PositiveBoard(board)
  {
  }

  // ---------------------------------------------------------------------------
  // get_solution_stats
  // ---------------------------------------------------------------------------

  /** The dictionary `get_solution_stats` returns, without `avg_marked`. */
  datatype Stats = Stats(totalSolutions: int, minMarked: int, maxMarked: int, distribution: map<int, int>)

  /** `[cl.count_marked(solution) for solution in all_solutions]` */
  function MarkedCounts(all: seq<Grid>): (counts: seq<int>)
  {
    seq(|all|, i requires 0 <= i < |all| => CountMarked(all[i]))
  }

  /** `min(s)` */
  function MinOf(s: seq<int>): (m: int)
    requires |s| > 0
    ensures m in s && forall i :: 0 <= i < |s| ==> m <= s[i]
    decreases |s|
  {
    if |s| == 1 then s[0]
    else
      var rest := MinOf(s[1..]);
      if s[0] <= rest then s[0] else rest
  }

  /** `max(s)` */
  function MaxOf(s: seq<int>): (m: int)
    requires |s| > 0
    ensures m in s && forall i :: 0 <= i < |s| ==> s[i] <= m
    decreases |s|
  {
    if |s| == 1 then s[0]
    else
      var rest := MaxOf(s[1..]);
      if s[0] >= rest then s[0] else rest
  }

  /** `get_solution_stats(all_solutions)`: the number of solutions, the fewest and
      most marks, and how many solutions have each mark count. */
  method GetSolutionStats(all: seq<Grid>) returns (stats: Stats)
    ensures |all| == 0 ==> stats == Stats(0, 0, 0, map[])
    ensures |all| > 0 ==>
              var counts := MarkedCounts(all);
              stats.totalSolutions == |all| &&
              stats.minMarked in counts && (forall i :: 0 <= i < |all| ==> stats.minMarked <= counts[i]) &&
              stats.maxMarked in counts && (forall i :: 0 <= i < |all| ==> counts[i] <= stats.maxMarked) &&
              (forall c :: c in stats.distribution <==> c in counts) &&
              (forall c :: c in stats.distribution ==> stats.distribution[c] == multiset(counts)[c])
  {
    if |all| == 0 {
      return Stats(0, 0, 0, map[]);
    }
    var counts := MarkedCounts(all);
    assert |counts| == |all|;
    var distribution: map<int, int> := map[];
    var k := 0;
    while k < |counts|
      invariant 0 <= k <= |counts|
      invariant forall c :: c in distribution <==> c in counts[..k]
      invariant forall c :: c in distribution ==> distribution[c] == multiset(counts[..k])[c]
    {
      var count := counts[k];
      distribution := distribution[count := (if count in distribution then distribution[count] else 0) + 1];
      assert counts[..k + 1] == counts[..k] + [count];
      k := k + 1;
    }
    assert counts[..k] == counts;
    stats := Stats(|all|, MinOf(counts), MaxOf(counts), distribution);
  }
}
