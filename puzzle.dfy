/** Shared vocabulary of the puzzle engine: the global operation, the `reduce`
    every check applies it with, boards, and 0/1 selection grids. */
module Puzzle {

  datatype Option<T> = None | Some(value: T)

  /** The global operation of a puzzle: Python's `operator.add` or `operator.mul`. */
  datatype Op = Add | Mul

  /** A board of values, or a selection grid of 0/1 marks, as a list of rows. */
  type Grid = seq<seq<int>>

  /** `operator.mul if operation == "*" else operator.add`: any string other than
      `"*"` selects addition. */
  function OpOf(operation: string): Op
  {
    if operation == "*" then Mul else Add
  }

  function Apply(op: Op, a: int, b: int): int
  {
    match op
    case Add => a + b
    case Mul => a * b
  }

  /** `functools.reduce(op, s)` without an initial value: a left fold, defined
      only for a non-empty list (every call site filters first). */
  function Aggregate(op: Op, s: seq<int>): int
    requires |s| > 0
    decreases |s|
  {
    if |s| == 1 then s[0] else Apply(op, Aggregate(op, s[..|s| - 1]), s[|s| - 1])
  }

  lemma ApplyAssociative(op: Op, a: int, b: int, c: int)
    ensures Apply(op, Apply(op, a, b), c) == Apply(op, a, Apply(op, b, c))
  {
    if op == Mul {
      assert (a * b) * c == a * (b * c);
    }
  }

  /** Reducing a concatenation is applying the operation to the two reductions. */
  lemma {:induction false} AggregateAppend(op: Op, s: seq<int>, t: seq<int>)
    requires |s| > 0 && |t| > 0
    ensures Aggregate(op, s + t) == Apply(op, Aggregate(op, s), Aggregate(op, t))
    decreases |t|
  {
    var st := s + t;
    if |t| == 1 {
      assert st[..|st| - 1] == s;
    } else {
      var front := t[..|t| - 1];
      assert st[..|st| - 1] == s + front;
      AggregateAppend(op, s, front);
      ApplyAssociative(op, Aggregate(op, s), Aggregate(op, front), t[|t| - 1]);
    }
  }

  predicate AllPositive(s: seq<int>)
  {
    forall i :: 0 <= i < |s| ==> s[i] >= 1
  }

  lemma MulGrows(a: int, b: int)
    requires a >= 1 && b >= 1
    ensures a * b >= a
  {
    assert a * b == a * (b - 1) + a;
    assert a * (b - 1) >= 0;
  }

  /** The sum or product of values that are all at least 1 is at least 1. */
  lemma {:induction false} AggregatePositive(op: Op, s: seq<int>)
    requires |s| > 0 && AllPositive(s)
    ensures Aggregate(op, s) >= 1
    decreases |s|
  {
    if |s| > 1 {
      var front := s[..|s| - 1];
      AggregatePositive(op, front);
      if op == Mul {
        MulGrows(Aggregate(op, front), s[|s| - 1]);
      }
    }
  }

  /** With values of at least 1, a reduction never decreases as values are
      appended: the fact the column pruning relies on. */
  lemma AggregateGrows(op: Op, s: seq<int>, t: seq<int>)
    requires |s| > 0 && AllPositive(s) && AllPositive(t)
    ensures Aggregate(op, s) <= Aggregate(op, s + t)
  {
    if |t| > 0 {
      AggregateAppend(op, s, t);
      AggregatePositive(op, s);
      AggregatePositive(op, t);
      if op == Mul {
        MulGrows(Aggregate(op, s), Aggregate(op, t));
      }
    } else {
      assert s + t == s;
    }
  }

  /** No value occurs twice in `s`. */
  predicate Distinct<T(==)>(s: seq<T>)
  {
    forall i, j :: 0 <= i < j < |s| ==> s[i] != s[j]
  }

  /** Two lists without repeats and without a common value join into one without repeats. */
  lemma DistinctConcat<T>(a: seq<T>, b: seq<T>)
    requires Distinct(a) && Distinct(b)
    requires forall x :: x in a ==> x !in b
    ensures Distinct(a + b)
  {
    var ab := a + b;
    forall i, j | 0 <= i < j < |ab|
      ensures ab[i] != ab[j]
    {
      if j < |a| {
        assert ab[i] == a[i] && ab[j] == a[j];
      } else if i >= |a| {
        assert ab[i] == b[i - |a|] && ab[j] == b[j - |a|];
      } else {
        assert ab[i] == a[i] && ab[j] == b[j - |a|];
        assert a[i] in a;
      }
    }
  }

  /** An element of a set with a positive size. */
  lemma Element<T>(s: set<T>) returns (x: T)
    requires |s| > 0
    ensures x in s
  {
    if forall y :: y !in s {
      assert false;
    }
    x :| x in s;
  }

  /** A row of a selection grid: every entry is 0 or 1. */
  predicate IsMask(row: seq<int>)
  {
    forall j :: 0 <= j < |row| ==> row[j] == 0 || row[j] == 1
  }

  /** `[0] * n` */
  function Zeros(n: nat): seq<int>
  {
    seq(n, _ => 0)
  }

  /** `[1 if i in option else 0 for i in range(n)]` */
  function Indicator(option: set<int>, n: nat): seq<int>
  {
    seq(n, i => if i in option then 1 else 0)
  }

  /** The positions a 0/1 row marks. */
  function MarkedSet(row: seq<int>): set<int>
  {
    set j | 0 <= j < |row| && row[j] == 1
  }

  lemma MaskIsIndicator(row: seq<int>)
    requires IsMask(row)
    ensures Indicator(MarkedSet(row), |row|) == row
  {
  }

  /** Two index sets inside `[0, n)` have the same indicator row only if they are equal. */
  lemma IndicatorInjective(s: set<int>, t: set<int>, n: nat)
    requires forall x :: x in s ==> 0 <= x < n
    requires forall x :: x in t ==> 0 <= x < n
    ensures Indicator(s, n) == Indicator(t, n) ==> s == t
  {
    if Indicator(s, n) == Indicator(t, n) {
      forall x
        ensures x in s <==> x in t
      {
        if 0 <= x < n {
          assert Indicator(s, n)[x] == Indicator(t, n)[x];
        }
      }
    }
  }

  /** The values of `values[lo..]` at the positions that `flags` marks with 1,
      in index order. */
  function Picked(values: seq<int>, flags: seq<int>, lo: nat): seq<int>
    requires |flags| == |values| && lo <= |values|
    decreases |values| - lo
  {
    if lo == |values| then []
    else (if flags[lo] == 1 then [values[lo]] else []) + Picked(values, flags, lo + 1)
  }

  /** `Picked` reads only the flags at positions `lo` and beyond. */
  lemma {:induction false} PickedAgree(values: seq<int>, f: seq<int>, g: seq<int>, lo: nat)
    requires |f| == |values| && |g| == |values| && lo <= |values|
    requires forall j :: lo <= j < |values| ==> f[j] == g[j]
    ensures Picked(values, f, lo) == Picked(values, g, lo)
    decreases |values| - lo
  {
    if lo < |values| {
      PickedAgree(values, f, g, lo + 1);
    }
  }

  /** A mark at `lo` picks `values[lo]` first; the rest depends only on the later flags. */
  lemma PickedHead(values: seq<int>, flags: seq<int>, rest: seq<int>, lo: nat)
    requires |flags| == |values| && |rest| == |values| && lo < |values| && flags[lo] == 1
    requires forall j :: lo + 1 <= j < |values| ==> flags[j] == rest[j]
    ensures Picked(values, flags, lo) == [values[lo]] + Picked(values, rest, lo + 1)
  {
    PickedAgree(values, flags, rest, lo + 1);
  }

  lemma {:induction false} PickedPositive(values: seq<int>, flags: seq<int>, lo: nat)
    requires |flags| == |values| && lo <= |values| && AllPositive(values)
    ensures AllPositive(Picked(values, flags, lo))
    decreases |values| - lo
  {
    if lo < |values| {
      PickedPositive(values, flags, lo + 1);
    }
  }

  /** `len(board) >= 1` rows, all as long as row 0. */
  predicate Rectangular(board: Grid)
  {
    |board| >= 1 && forall r :: 0 <= r < |board| ==> |board[r]| == |board[0]|
  }

  /** `grid` has `rows` rows of `cols` entries. */
  predicate Shaped(grid: Grid, rows: nat, cols: nat)
  {
    |grid| == rows && forall r :: 0 <= r < |grid| ==> |grid[r]| == cols
  }

  /** `[board[r][col] for r in range(upto) if grid[r][col] == 1]` */
  function ColumnMarked(grid: Grid, board: Grid, col: nat, upto: nat): seq<int>
    requires upto <= |grid| && upto <= |board|
    requires forall r :: 0 <= r < upto ==> col < |grid[r]| && col < |board[r]|
    decreases upto
  {
    if upto == 0 then []
    else
      ColumnMarked(grid, board, col, upto - 1)
        + (if grid[upto - 1][col] == 1 then [board[upto - 1][col]] else [])
  }

  /** With positive board values, the reduction of a column's marked values can
      only grow as more rows are taken into account. */
  lemma {:induction false} ColumnMarkedGrows(op: Op, grid: Grid, board: Grid, col: nat, upto: nat, more: nat)
    requires upto <= more <= |grid| && more <= |board|
    requires forall r :: 0 <= r < more ==> col < |grid[r]| && col < |board[r]|
    requires forall r :: 0 <= r < more ==> board[r][col] >= 1
    ensures |ColumnMarked(grid, board, col, upto)| <= |ColumnMarked(grid, board, col, more)|
    ensures |ColumnMarked(grid, board, col, upto)| > 0 ==>
              Aggregate(op, ColumnMarked(grid, board, col, upto)) <= Aggregate(op, ColumnMarked(grid, board, col, more))
    decreases more - upto
  {
    if upto < more {
      ColumnMarkedGrows(op, grid, board, col, upto, more - 1);
      var front := ColumnMarked(grid, board, col, more - 1);
      var tail := if grid[more - 1][col] == 1 then [board[more - 1][col]] else [];
      if |front| > 0 {
        ColumnMarkedPositive(grid, board, col, more - 1);
        AggregateGrows(op, front, tail);
      }
    }
  }

  lemma {:induction false} ColumnMarkedPositive(grid: Grid, board: Grid, col: nat, upto: nat)
    requires upto <= |grid| && upto <= |board|
    requires forall r :: 0 <= r < upto ==> col < |grid[r]| && col < |board[r]|
    requires forall r :: 0 <= r < upto ==> board[r][col] >= 1
    ensures AllPositive(ColumnMarked(grid, board, col, upto))
    decreases upto
  {
    if upto > 0 {
      ColumnMarkedPositive(grid, board, col, upto - 1);
    }
  }

  /** `ColumnMarked` reads only the first `upto` rows of the grid. */
  lemma {:induction false} ColumnMarkedAgree(grid: Grid, other: Grid, board: Grid, col: nat, upto: nat)
    requires upto <= |grid| && upto <= |other| && upto <= |board|
    requires forall r :: 0 <= r < upto ==> col < |grid[r]| && col < |board[r]| && grid[r] == other[r]
    ensures ColumnMarked(grid, board, col, upto) == ColumnMarked(other, board, col, upto)
    decreases upto
  {
    if upto > 0 {
      ColumnMarkedAgree(grid, other, board, col, upto - 1);
    }
  }

  /** A list of solution grids that a search appends to in place. */
  class SolutionList {
    var items: seq<Grid>

    constructor ()
      ensures items == []
    {
      items := [];
    }

    /** `all_solutions.append([row[:] for row in grid])` */
    method Append(g: Grid)
      modifies this
      ensures items == old(items) + [g]
    {
      items := items + [g];
    }
  }
}
